/** Which tests googletest runs: the name filter, disabled tests, and the split into shards. */
module Sharding {
  import opened Arithmetic
  import opened GlobFilter

  const DISABLED := "DISABLED_"

  // "DISABLED_*:*/DISABLED_*", spelt in pieces.
  const DISABLE_TEST_FILTER := (DISABLED + "*") + ":" + ("*" + ("/" + DISABLED + "*"))

  datatype Entry = Entry(suite: string, test: string)

  datatype ShardingMode = Ignore | Honor(totalShards: int, shardIndex: int)

  datatype Config = Config(filter: string, alsoRunDisabledTests: bool, sharding: ShardingMode) {
    /** What the shard variables are checked for before tests are filtered. */
    ghost predicate Valid() {
      sharding.Honor? ==> 0 <= sharding.shardIndex < sharding.totalShards
    }
  }

  // ----- What is to run -----

  ghost predicate Disabled(e: Entry) {
    FilterMatches(DISABLE_TEST_FILTER, e.suite) || FilterMatches(DISABLE_TEST_FILTER, e.test)
  }

  ghost predicate Runnable(c: Config, e: Entry) {
    (c.alsoRunDisabledTests || !Disabled(e)) && Selects(c.filter, e.suite + "." + e.test)
  }

  predicate ShouldRunTestOnShard(totalShards: int, shardIndex: int, testId: nat)
    requires totalShards >= 1
  {
    testId % totalShards == shardIndex
  }

  predicate InAnotherShard(c: Config, id: nat)
    requires c.Valid()
  {
    c.sharding.Honor? && !ShouldRunTestOnShard(c.sharding.totalShards, c.sharding.shardIndex, id)
  }

  /** The number of runnable tests. For the tests listed before one, it is that test's id. */
  ghost function RunnableCount(c: Config, tests: seq<Entry>): nat {
    if tests == [] then 0
    else RunnableCount(c, tests[..|tests| - 1]) + if Runnable(c, tests[|tests| - 1]) then 1 else 0
  }

  ghost predicate Selected(c: Config, tests: seq<Entry>, k: nat)
    requires c.Valid() && k < |tests|
  {
    Runnable(c, tests[k]) && !InAnotherShard(c, RunnableCount(c, tests[..k]))
  }

  ghost function SelectedCount(c: Config, tests: seq<Entry>): nat
    requires c.Valid()
  {
    if tests == [] then 0
    else SelectedCount(c, tests[..|tests| - 1]) + if Selected(c, tests, |tests| - 1) then 1 else 0
  }

  // ----- The shards partition the runnable tests -----

  ghost function OnShard(c: Config, totalShards: int, shardIndex: int): (d: Config)
    requires 0 <= shardIndex < totalShards
    ensures d.Valid()
  {
    c.(sharding := Honor(totalShards, shardIndex))
  }

  lemma {:induction false} CountIgnoresSharding(c: Config, d: Config, tests: seq<Entry>)
    requires c.filter == d.filter && c.alsoRunDisabledTests == d.alsoRunDisabledTests
    ensures RunnableCount(c, tests) == RunnableCount(d, tests)
  {
    if tests != [] {
      CountIgnoresSharding(c, d, tests[..|tests| - 1]);
    }
  }

  /** Every runnable test is selected on exactly one shard, and no other test on any. It is the shard
      whose index is the test's place among the runnable ones, counted round and round. */
  lemma ShardsPartition(c: Config, totalShards: int, tests: seq<Entry>, k: nat)
    requires totalShards >= 1 && k < |tests|
    ensures Runnable(c, tests[k]) <==>
              exists i :: 0 <= i < totalShards && Selected(OnShard(c, totalShards, i), tests, k)
    ensures forall i | 0 <= i < totalShards && Selected(OnShard(c, totalShards, i), tests, k) ::
              RunnableCount(c, tests[..k]) % totalShards == i
    ensures forall i, j | 0 <= i < totalShards && 0 <= j < totalShards ::
              Selected(OnShard(c, totalShards, i), tests, k) && Selected(OnShard(c, totalShards, j), tests, k) ==>
                i == j
  {
    var id := RunnableCount(c, tests[..k]);
    forall i | 0 <= i < totalShards
      ensures Selected(OnShard(c, totalShards, i), tests, k) <==> Runnable(c, tests[k]) && id % totalShards == i
    {
      CountIgnoresSharding(c, OnShard(c, totalShards, i), tests[..k]);
    }
    if Runnable(c, tests[k]) {
      assert Selected(OnShard(c, totalShards, id % totalShards), tests, k);
    }
  }

  /** Without sharding every runnable test is selected. */
  lemma UnshardedRunsAll(c: Config, tests: seq<Entry>, k: nat)
    requires c.Valid() && c.sharding == Ignore && k < |tests|
    ensures Selected(c, tests, k) <==> Runnable(c, tests[k])
    ensures SelectedCount(c, tests) == RunnableCount(c, tests)
  {
    SelectedCountUnsharded(c, tests);
  }

  lemma {:induction false} SelectedCountUnsharded(c: Config, tests: seq<Entry>)
    requires c.Valid() && c.sharding == Ignore
    ensures SelectedCount(c, tests) == RunnableCount(c, tests)
  {
    if tests != [] {
      SelectedCountUnsharded(c, tests[..|tests| - 1]);
    }
  }

  /** How many of the ids below n leave remainder i. */
  ghost function Share(n: nat, totalShards: int, i: int): nat
    requires 0 <= i < totalShards
  {
    if n == 0 then 0 else Share(n - 1, totalShards, i) + if (n - 1) % totalShards == i then 1 else 0
  }

  /** The size of a shard depends only on the number of runnable tests. */
  lemma {:induction false} ShardSize(c: Config, totalShards: int, i: int, tests: seq<Entry>)
    requires 0 <= i < totalShards
    ensures SelectedCount(OnShard(c, totalShards, i), tests) == Share(RunnableCount(c, tests), totalShards, i)
  {
    if tests != [] {
      var d, front, last := OnShard(c, totalShards, i), tests[..|tests| - 1], |tests| - 1;
      ShardSize(c, totalShards, i, front);
      CountIgnoresSharding(c, d, front);
      assert Selected(d, tests, last) <==> Runnable(c, tests[last]) && RunnableCount(c, front) % totalShards == i;
    }
  }

  /** The next remainder is one more, or starts over. */
  lemma NextRemainder(n: nat, d: int)
    requires d >= 1
    ensures (n + 1) % d == if n % d == d - 1 then 0 else n % d + 1
  {
    var q, r := n / d, n % d;
    assert n == q * d + r;
    if r == d - 1 {
      assert n + 1 == (q + 1) * d;
      QuotientUnique(n + 1, d, q + 1, 0);
    } else {
      QuotientUnique(n + 1, d, q, r + 1);
    }
  }

  /** Shards before the next remainder are one ahead of the others. */
  lemma {:induction false} ShareAhead(n: nat, totalShards: int, i: int, j: int)
    requires 0 <= i <= j < totalShards
    ensures Share(n, totalShards, i) == Share(n, totalShards, j) + if i < n % totalShards <= j then 1 else 0
  {
    if n == 0 {
      QuotientUnique(0, totalShards, 0, 0);
    } else {
      ShareAhead(n - 1, totalShards, i, j);
      NextRemainder(n - 1, totalShards);
    }
  }

  /** Any two shards differ in size by at most one, the lower-numbered being the larger. */
  lemma ShardsBalanced(c: Config, totalShards: int, i: int, j: int, tests: seq<Entry>)
    requires 0 <= i <= j < totalShards
    ensures 0 <= SelectedCount(OnShard(c, totalShards, i), tests)
                 - SelectedCount(OnShard(c, totalShards, j), tests) <= 1
  {
    ShardSize(c, totalShards, i, tests);
    ShardSize(c, totalShards, j, tests);
    ShareAhead(RunnableCount(c, tests), totalShards, i, j);
  }

  ghost function SizesBelow(c: Config, totalShards: int, m: int, tests: seq<Entry>): int
    requires 0 <= m <= totalShards
  {
    if m == 0 then 0
    else SizesBelow(c, totalShards, m - 1, tests) + SelectedCount(OnShard(c, totalShards, m - 1), tests)
  }

  ghost function SharesBelow(n: nat, totalShards: int, m: int): int
    requires 0 <= m <= totalShards
  {
    if m == 0 then 0 else SharesBelow(n, totalShards, m - 1) + Share(n, totalShards, m - 1)
  }

  lemma {:induction false} SharesNext(n: nat, totalShards: int, m: int)
    requires 0 <= m <= totalShards
    ensures totalShards >= 1 ==>
              SharesBelow(n + 1, totalShards, m) == SharesBelow(n, totalShards, m) +
                if n % totalShards < m then 1 else 0
  {
    if m > 0 {
      SharesNext(n, totalShards, m - 1);
    }
  }

  lemma {:induction false} SharesOfNone(totalShards: int, m: int)
    requires 0 <= m <= totalShards
    ensures SharesBelow(0, totalShards, m) == 0
  {
    if m > 0 {
      SharesOfNone(totalShards, m - 1);
    }
  }

  lemma {:induction false} SharesAddUp(n: nat, totalShards: int)
    requires totalShards >= 1
    ensures SharesBelow(n, totalShards, totalShards) == n
  {
    if n == 0 {
      SharesOfNone(totalShards, totalShards);
    } else {
      SharesAddUp(n - 1, totalShards);
      SharesNext(n - 1, totalShards, totalShards);
    }
  }

  lemma {:induction false} SizesAreShares(c: Config, totalShards: int, m: int, tests: seq<Entry>)
    requires 0 <= m <= totalShards
    ensures SizesBelow(c, totalShards, m, tests) == SharesBelow(RunnableCount(c, tests), totalShards, m)
  {
    if m > 0 {
      SizesAreShares(c, totalShards, m - 1, tests);
      ShardSize(c, totalShards, m - 1, tests);
    }
  }

  /** Together the shards run as many tests as there are runnable ones. */
  lemma ShardSizesAddUp(c: Config, totalShards: int, tests: seq<Entry>)
    requires totalShards >= 1
    ensures SizesBelow(c, totalShards, totalShards, tests) == RunnableCount(c, tests)
  {
    SizesAreShares(c, totalShards, totalShards, tests);
    SharesAddUp(RunnableCount(c, tests), totalShards);
  }

  // ----- Disabled tests -----

  ghost predicate Literal(p: string) {
    forall i :: 0 <= i < |p| ==> p[i] != '*' && p[i] != '?'
  }

  lemma {:induction false} PrefixPattern(p: string, name: string)
    requires Literal(p)
    ensures Matches(p + "*", name) <==> p <= name
  {
    if p == [] {
      assert p + "*" == "*";
      assert name[|name|..] == "" && "*"[1..] == "" && Matches("", name[|name|..]);
    } else {
      assert (p + "*")[1..] == p[1..] + "*" && (p + "*")[0] == p[0];
      if name != [] {
        PrefixPattern(p[1..], name[1..]);
        assert p == [p[0]] + p[1..] && name == [name[0]] + name[1..];
      }
    }
  }

  lemma SplitInTwo(a: string, delimiter: char, b: string)
    requires delimiter !in a && delimiter !in b
    ensures Split(a + [delimiter] + b, delimiter) == [a, b]
  {
    var f := a + [delimiter] + b;
    assert f[..|a|] == a && f[|a|] == delimiter && f[|a| + 1..] == b;
    FirstIndexUnique(f, delimiter, |a|);
    assert Split(b, delimiter) == [b];
  }

  lemma AnywherePattern(p: string, name: string)
    requires Literal(p)
    ensures Matches("*" + (p + "*"), name) <==> exists k :: 0 <= k <= |name| && p <= name[k..]
  {
    assert ("*" + (p + "*"))[1..] == p + "*" && ("*" + (p + "*"))[0] == '*';
    forall k | 0 <= k <= |name| ensures Matches(p + "*", name[k..]) <==> p <= name[k..] {
      PrefixPattern(p, name[k..]);
    }
  }

  /** A name is disabled when it begins with DISABLED_ or has a '/' followed by it. */
  lemma DisabledNames(name: string)
    ensures FilterMatches(DISABLE_TEST_FILTER, name) <==>
              "DISABLED_" <= name || exists k :: 0 <= k <= |name| && "/DISABLED_" <= name[k..]
  {
    assert "/" + DISABLED == "/DISABLED_";
    SplitInTwo(DISABLED + "*", ':', "*" + ("/" + DISABLED + "*"));
    PrefixPattern(DISABLED, name);
    AnywherePattern("/" + DISABLED, name);
    var patterns := Split(DISABLE_TEST_FILTER, ':');
    assert patterns[0] in patterns && patterns[1] in patterns;
  }

  // ----- The registered tests and the pass over them -----

  datatype Flags = Flags(isDisabled: bool, matchesFilter: bool, isInAnotherShard: bool, shouldRun: bool)

  /** The flags say what holds of test k. */
  ghost predicate Verdict(c: Config, tests: seq<Entry>, k: nat, flags: Flags)
    requires c.Valid() && k < |tests|
  {
    && (flags.isDisabled <==> Disabled(tests[k]))
    && (flags.matchesFilter <==> Selects(c.filter, tests[k].suite + "." + tests[k].test))
    && (flags.isInAnotherShard <==> InAnotherShard(c, RunnableCount(c, tests[..k])))
    && (flags.shouldRun <==> Selected(c, tests, k))
  }

  /** One set of flags for each test from the given one on. */
  ghost predicate Verdicts(c: Config, tests: seq<Entry>, from: nat, flags: seq<Flags>)
    requires c.Valid() && from + |flags| == |tests|
  {
    forall i :: 0 <= i < |flags| ==> Verdict(c, tests, from + i, flags[i])
  }

  lemma VerdictKept(c: Config, tests: seq<Entry>, more: seq<Entry>, k: nat, flags: Flags)
    requires c.Valid() && k < |tests| && Verdict(c, tests, k, flags)
    ensures Verdict(c, tests + more, k, flags)
  {
    assert (tests + more)[..k] == tests[..k] && (tests + more)[k] == tests[k];
  }

  /** The pass over one suite: the tests seen since before carry the flags, and the two counts are right. */
  ghost predicate Progress(c: Config, before: nat, seen: seq<Entry>, flags: seq<Flags>, runnable: nat, selected: nat)
    requires c.Valid()
  {
    && before + |flags| == |seen| && Verdicts(c, seen, before, flags)
    && runnable == RunnableCount(c, seen) && selected == SelectedCount(c, seen)
  }

  lemma ProgressNext(c: Config, before: nat, seen: seq<Entry>, flags: seq<Flags>, runnable: nat, selected: nat,
                     e: Entry, f: Flags)
    requires c.Valid() && Progress(c, before, seen, flags, runnable, selected)
    requires Verdict(c, seen + [e], |seen|, f)
    ensures Progress(c, before, seen + [e], flags + [f], runnable + (if Runnable(c, e) then 1 else 0),
                     selected + (if f.shouldRun then 1 else 0))
  {
    assert (seen + [e])[..|seen|] == seen;
    forall i | 0 <= i < |flags + [f]| ensures Verdict(c, seen + [e], before + i, (flags + [f])[i]) {
      if i < |flags| {
        VerdictKept(c, seen, [e], before + i, flags[i]);
      }
    }
  }

  ghost predicate AnyShouldRun(flags: seq<Flags>) {
    exists i :: 0 <= i < |flags| && flags[i].shouldRun
  }

  lemma AnyNext(flags: seq<Flags>, f: Flags)
    ensures AnyShouldRun(flags + [f]) <==> AnyShouldRun(flags) || f.shouldRun
  {
    if AnyShouldRun(flags) {
      var i :| 0 <= i < |flags| && flags[i].shouldRun;
      assert (flags + [f])[i].shouldRun;
    } else if f.shouldRun {
      assert (flags + [f])[|flags|].shouldRun;
    }
  }

  class TestInfo {
    const name: string
    var isDisabled: bool
    var matchesFilter: bool
    var isInAnotherShard: bool
    var shouldRun: bool

    constructor (name: string)
      ensures this.name == name
    {
      this.name := name;
    }

    function Marks(): Flags
      reads this
    {
      Flags(isDisabled, matchesFilter, isInAnotherShard, shouldRun)
    }
  }

  ghost function Objects(tests: seq<TestInfo>): (objects: set<object>)
    ensures forall i :: 0 <= i < |tests| ==> tests[i] in objects
  {
    set i | 0 <= i < |tests| :: tests[i]
  }

  class TestSuite {
    const name: string
    const tests: seq<TestInfo>
    ghost const Repr: set<object>
    var shouldRun: bool

    constructor (name: string, tests: seq<TestInfo>)
      requires forall i, j :: 0 <= i < j < |tests| ==> tests[i] != tests[j]
      ensures this.name == name && this.tests == tests && Valid() && Repr == {this} + Objects(tests)
    {
      this.name := name;
      this.tests := tests;
      this.Repr := {this} + Objects(tests);
    }

    /** The tests are different objects, and the suite owns them. */
    ghost predicate Valid() {
      && this in Repr
      && (forall i :: 0 <= i < |tests| ==> tests[i] in Repr)
      && (forall i, j :: 0 <= i < j < |tests| ==> tests[i] != tests[j])
    }

    ghost function Entries(n: nat): (es: seq<Entry>)
      requires n <= |tests|
      ensures |es| == n
    {
      if n == 0 then [] else Entries(n - 1) + [Entry(name, tests[n - 1].name)]
    }

    /** The first tests carry these flags, and the suite is to run when one of them is. */
    ghost predicate Carries(flags: seq<Flags>)
      requires Valid()
      reads Repr
    {
      && |flags| <= |tests|
      && (forall i :: 0 <= i < |flags| ==> tests[i].Marks() == flags[i])
      && (shouldRun <==> AnyShouldRun(flags))
    }

    /** All tests carry the flags that hold of them when they come after the given ones. */
    ghost predicate Judged(c: Config, before: seq<Entry>)
      requires c.Valid() && Valid()
      reads Repr
    {
      exists flags ::
        |flags| == |tests| && Carries(flags) && Verdicts(c, before + Entries(|tests|), |before|, flags)
    }
  }

  /** The tests of the suites, in order of registration. */
  ghost function AllEntries(suites: seq<TestSuite>): seq<Entry> {
    if suites == [] then []
    else
      var last := suites[|suites| - 1];
      AllEntries(suites[..|suites| - 1]) + last.Entries(|last.tests|)
  }

  ghost predicate Registered(suites: seq<TestSuite>) {
    && (forall s :: 0 <= s < |suites| ==> suites[s].Valid())
    && (forall s, r :: 0 <= s < r < |suites| ==> suites[s].Repr !! suites[r].Repr)
  }

  /** What the two filters were made to accept. */
  ghost predicate FiltersFor(c: Config, filter: PositiveAndNegativeUnitTestFilter, disable: UnitTestFilter) {
    && (forall name :: filter.Accepts(name) <==> Selects(c.filter, name))
    && (forall name :: disable.Accepts(name) <==> FilterMatches(DISABLE_TEST_FILTER, name))
  }

  /** The body of the inner loop: one test, with the number of runnable tests before it as its id. */
  method MarkTest(c: Config, filter: PositiveAndNegativeUnitTestFilter, disable: UnitTestFilter, suite: TestSuite,
                  test: TestInfo, ghost before: seq<Entry>, id: nat)
    returns (isRunnable: bool)
    requires c.Valid() && FiltersFor(c, filter, disable) && id == RunnableCount(c, before)
    modifies test, suite`shouldRun
    ensures Verdict(c, before + [Entry(suite.name, test.name)], |before|, test.Marks())
    ensures isRunnable <==> Runnable(c, Entry(suite.name, test.name))
    ensures suite.shouldRun == (old(suite.shouldRun) || test.shouldRun)
  {
    assert (before + [Entry(suite.name, test.name)])[..|before|] == before;
    var suiteDisabled := disable.MatchesName(suite.name);
    var testDisabled := disable.MatchesName(test.name);
    test.isDisabled := suiteDisabled || testDisabled;
    var matches := filter.MatchesTest(suite.name, test.name);
    test.matchesFilter := matches;
    isRunnable := (c.alsoRunDisabledTests || !test.isDisabled) && matches;
    test.isInAnotherShard := InAnotherShard(c, id);
    test.shouldRun := isRunnable && !test.isInAnotherShard;
    suite.shouldRun := suite.shouldRun || test.shouldRun;
  }

  /** One round of the inner loop: the test after those that carry the flags. */
  method FilterTest(c: Config, filter: PositiveAndNegativeUnitTestFilter, disable: UnitTestFilter, suite: TestSuite,
                    i: nat, ghost before: nat, ghost seen: seq<Entry>, ghost flags: seq<Flags>, runnable: nat,
                    selected: nat)
    returns (runnable': nat, selected': nat, ghost flags': seq<Flags>)
    requires c.Valid() && FiltersFor(c, filter, disable) && suite.Valid() && i == |flags| < |suite.tests|
    requires suite.Carries(flags) && Progress(c, before, seen, flags, runnable, selected)
    modifies suite.tests[i], suite`shouldRun
    ensures suite.Carries(flags') && |flags'| == i + 1
    ensures Progress(c, before, seen + [Entry(suite.name, suite.tests[i].name)], flags', runnable', selected')
  {
    var test := suite.tests[i];
    var isRunnable := MarkTest(c, filter, disable, suite, test, seen, runnable);
    AnyNext(flags, test.Marks());
    ProgressNext(c, before, seen, flags, runnable, selected, Entry(suite.name, test.name), test.Marks());
    runnable' := runnable + if isRunnable then 1 else 0;
    selected' := selected + if test.shouldRun then 1 else 0;
    flags' := flags + [test.Marks()];
  }

  /** The inner loop: one suite. */
  method FilterSuite(c: Config, filter: PositiveAndNegativeUnitTestFilter, disable: UnitTestFilter, suite: TestSuite,
                     ghost before: seq<Entry>, runnableBefore: nat, selectedBefore: nat)
    returns (runnable: nat, selected: nat)
    requires c.Valid() && FiltersFor(c, filter, disable) && suite.Valid()
    requires runnableBefore == RunnableCount(c, before) && selectedBefore == SelectedCount(c, before)
    modifies suite.Repr
    ensures suite.Judged(c, before)
    ensures runnable == RunnableCount(c, before + suite.Entries(|suite.tests|))
    ensures selected == SelectedCount(c, before + suite.Entries(|suite.tests|))
  {
    suite.shouldRun := false;
    runnable, selected := runnableBefore, selectedBefore;
    ghost var seen, flags: seq<Flags> := before, [];
    for i := 0 to |suite.tests|
      invariant seen == before + suite.Entries(i) && |flags| == i
      invariant suite.Carries(flags)
      invariant Progress(c, |before|, seen, flags, runnable, selected)
    {
      runnable, selected, flags :=
        FilterTest(c, filter, disable, suite, i, |before|, seen, flags, runnable, selected);
      SeenNext(before, suite, i);
      seen := before + suite.Entries(i + 1);
    }
  }

  lemma SeenNext(before: seq<Entry>, suite: TestSuite, i: nat)
    requires i < |suite.tests|
    ensures before + suite.Entries(i + 1) == before + suite.Entries(i) + [Entry(suite.name, suite.tests[i].name)]
  {
  }

  /** The suites and their tests. */
  ghost function AllObjects(suites: seq<TestSuite>): set<object> {
    set s, o | 0 <= s < |suites| && o in suites[s].Repr :: o
  }

  /** Every test and every suite is marked, and the number of tests to run on this shard is returned. */
  method FilterTests(suites: seq<TestSuite>, c: Config) returns (selected: nat)
    requires c.Valid() && Registered(suites)
    modifies AllObjects(suites)
    ensures forall s :: 0 <= s < |suites| ==> suites[s].Judged(c, AllEntries(suites[..s]))
    ensures selected == SelectedCount(c, AllEntries(suites))
  {
    var filter := MakePositiveAndNegativeFilter(c.filter);
    var disable := MakeFilter(DISABLE_TEST_FILTER);
    var runnable := 0;
    selected := 0;
    ghost var seen: seq<Entry> := [];
    for s := 0 to |suites|
      invariant seen == AllEntries(suites[..s])
      invariant runnable == RunnableCount(c, seen) && selected == SelectedCount(c, seen)
      invariant forall r :: 0 <= r < s ==> suites[r].Judged(c, AllEntries(suites[..r]))
    {
      runnable, selected := FilterSuite(c, filter, disable, suites[s], seen, runnable, selected);
      AllEntriesNext(suites, s);
      seen := seen + suites[s].Entries(|suites[s].tests|);
    }
    assert suites[..|suites|] == suites;
  }

  lemma AllEntriesNext(suites: seq<TestSuite>, s: nat)
    requires s < |suites|
    ensures AllEntries(suites[..s + 1]) == AllEntries(suites[..s]) + suites[s].Entries(|suites[s].tests|)
  {
    assert suites[..s + 1][..s] == suites[..s];
  }

  /** The tests of the first suites come first. */
  lemma {:induction false} AllEntriesPrefix(suites: seq<TestSuite>, s: nat) returns (rest: seq<Entry>)
    requires s <= |suites|
    ensures AllEntries(suites) == AllEntries(suites[..s]) + rest
  {
    if s == |suites| {
      assert suites[..s] == suites;
      rest := [];
    } else {
      var front := suites[..|suites| - 1];
      rest := AllEntriesPrefix(front, s);
      assert front[..s] == suites[..s];
      rest := rest + suites[|suites| - 1].Entries(|suites[|suites| - 1].tests|);
    }
  }

  /** After the pass each test carries what holds of it in the whole list of registered tests. */
  lemma MarksOfTest(c: Config, suites: seq<TestSuite>, s: nat, i: nat)
    requires c.Valid() && s < |suites| && suites[s].Valid() && i < |suites[s].tests|
    requires suites[s].Judged(c, AllEntries(suites[..s]))
    ensures var k := |AllEntries(suites[..s])| + i;
            k < |AllEntries(suites)| && Verdict(c, AllEntries(suites), k, suites[s].tests[i].Marks())
  {
    var before := AllEntries(suites[..s]);
    var upTo := before + suites[s].Entries(|suites[s].tests|);
    var flags :| |flags| == |suites[s].tests| && suites[s].Carries(flags) && Verdicts(c, upTo, |before|, flags);
    var rest := AllEntriesPrefix(suites, s + 1);
    AllEntriesNext(suites, s);
    VerdictKept(c, upTo, rest, |before| + i, flags[i]);
  }
}
