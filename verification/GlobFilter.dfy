/** googletest's test-name globbing and the filters built on it. */
module GlobFilter {

  // ----- What a pattern means -----

  /** '?' stands for any character, '*' for any string, every other character for itself. */
  ghost predicate Matches(pattern: string, name: string)
    decreases |pattern|
  {
    if pattern == [] then name == []
    else if pattern[0] == '*' then exists k :: 0 <= k <= |name| && Matches(pattern[1..], name[k..])
    else name != [] && (pattern[0] == '?' || pattern[0] == name[0]) && Matches(pattern[1..], name[1..])
  }

  lemma StarAbsorbs(pattern: string, name: string, i: nat, j: nat)
    requires pattern != [] && pattern[0] == '*' && i <= j <= |name|
    requires Matches(pattern, name[j..])
    ensures Matches(pattern, name[i..])
  {
    var k :| 0 <= k <= |name[j..]| && Matches(pattern[1..], name[j..][k..]);
    assert name[i..][j - i + k..] == name[j..][k..];
  }

  lemma StarTakesOneOrNone(pattern: string, name: string)
    requires pattern != [] && pattern[0] == '*'
    ensures Matches(pattern, name) <==> Matches(pattern[1..], name) || (name != [] && Matches(pattern, name[1..]))
  {
    assert name[0..] == name;
    if Matches(pattern, name) {
      var k :| 0 <= k <= |name| && Matches(pattern[1..], name[k..]);
      if k > 0 {
        assert name[1..][k - 1..] == name[k..];
      }
    }
    if name != [] && Matches(pattern, name[1..]) {
      StarAbsorbs(pattern, name, 0, 1);
    }
  }

  ghost predicate StarFree(pattern: string, i: nat, j: nat)
    requires i <= j <= |pattern|
  {
    forall k :: i <= k < j ==> pattern[k] != '*'
  }

  /** A stretch of pattern without '*' consumes as many characters as it is long. */
  lemma {:induction false} StarFreeStretch(pattern: string, i: nat, j: nat, name: string, n: nat)
    requires i <= j <= |pattern| && StarFree(pattern, i, j) && n <= |name|
    requires Matches(pattern[i..], name[n..])
    ensures n + (j - i) <= |name| && Matches(pattern[j..], name[n + (j - i)..])
    decreases j - i
  {
    if i < j {
      assert pattern[i..][1..] == pattern[i + 1..] && name[n..][1..] == name[n + 1..];
      StarFreeStretch(pattern, i + 1, j, name, n + 1);
    }
  }

  /** Why only the latest '*' is worth coming back to: whatever an earlier one could still achieve,
      the latest achieves from where it was first reached. */
  lemma LaterStarSuffices(pattern: string, star: nat, next: nat, name: string, from: nat, reached: nat)
    requires star < next < |pattern| && pattern[star] == '*' == pattern[next]
    requires StarFree(pattern, star + 1, next)
    requires reached <= from + (next - star - 1) && from <= |name|
    requires Matches(pattern[star..], name[from..])
    ensures reached <= |name| && Matches(pattern[next..], name[reached..])
  {
    var k :| 0 <= k <= |name[from..]| && Matches(pattern[star..][1..], name[from..][k..]);
    assert pattern[star..][1..] == pattern[star + 1..] && name[from..][k..] == name[from + k..];
    StarFreeStretch(pattern, star + 1, next, name, from + k);
    StarAbsorbs(pattern[next..], name, reached, from + k + (next - star - 1));
  }

  // ----- The linear-time loop -----

  /** The loop state: the pattern from p on is compared with the name from n on, and nameNext > 0 says
      that the '*' at patternNext may be restarted with the name from nameNext on. */
  ghost predicate LoopState(pattern: string, name: string, p: nat, n: nat, patternNext: nat, nameNext: nat) {
    && p <= |pattern| && n <= |name|
    && (nameNext == 0 ==> (Matches(pattern, name) <==> Matches(pattern[p..], name[n..])))
    && (nameNext > 0 ==>
          && patternNext <= p && patternNext < |pattern| && pattern[patternNext] == '*'
          && nameNext <= |name| + 1
          && (if p == patternNext then n == nameNext
              else n + 1 - nameNext == p - patternNext - 1 && StarFree(pattern, patternNext + 1, p))
          && (Matches(pattern, name) <==>
                || Matches(pattern[p..], name[n..])
                || (nameNext <= |name| && Matches(pattern[patternNext..], name[nameNext..]))))
  }

  lemma ConsumeOne(pattern: string, name: string, p: nat, n: nat, patternNext: nat, nameNext: nat)
    requires LoopState(pattern, name, p, n, patternNext, nameNext)
    requires p < |pattern| && n < |name| && pattern[p] != '*' && (pattern[p] == '?' || pattern[p] == name[n])
    ensures LoopState(pattern, name, p + 1, n + 1, patternNext, nameNext)
  {
    assert pattern[p..][1..] == pattern[p + 1..] && name[n..][1..] == name[n + 1..];
  }

  lemma EnterStar(pattern: string, name: string, p: nat, n: nat, patternNext: nat, nameNext: nat)
    requires LoopState(pattern, name, p, n, patternNext, nameNext)
    requires p < |pattern| && pattern[p] == '*'
    ensures LoopState(pattern, name, p + 1, n, p, n + 1)
  {
    StarTakesOneOrNone(pattern[p..], name[n..]);
    assert pattern[p..][1..] == pattern[p + 1..];
    if n < |name| {
      assert name[n..][1..] == name[n + 1..];
    }
    if 0 < nameNext <= |name| && patternNext < p && Matches(pattern[patternNext..], name[nameNext..]) {
      LaterStarSuffices(pattern, patternNext, p, name, nameNext, n);
    }
  }

  lemma Mismatch(pattern: string, name: string, p: nat, n: nat)
    requires p <= |pattern| && n <= |name| && (p < |pattern| || n < |name|)
    requires p < |pattern| ==>
               pattern[p] != '*' && (n < |name| ==> pattern[p] != '?' && pattern[p] != name[n])
    ensures !Matches(pattern[p..], name[n..])
  {
  }

  method PatternMatchesString(name: string, pattern: string) returns (matched: bool)
    ensures matched <==> Matches(pattern, name)
  {
    var p: nat, n: nat, patternNext: nat, nameNext: nat := 0, 0, 0, 0;
    assert pattern[0..] == pattern && name[0..] == name;
    while p < |pattern| || n < |name|
      invariant LoopState(pattern, name, p, n, patternNext, nameNext)
      decreases if nameNext > 0 then |pattern| - patternNext else |pattern| + 1,
                |name| + 1 - nameNext,
                if nameNext > 0 && p == patternNext then 0 else 1,
                |pattern| - p
    {
      if p < |pattern| {
        if pattern[p] == '*' {
          EnterStar(pattern, name, p, n, patternNext, nameNext);
          patternNext := p;
          nameNext := n + 1;
          p := p + 1;
          continue;
        } else if n < |name| && (pattern[p] == '?' || pattern[p] == name[n]) {
          ConsumeOne(pattern, name, p, n, patternNext, nameNext);
          p := p + 1;
          n := n + 1;
          continue;
        }
      }
      Mismatch(pattern, name, p, n);
      if 0 < nameNext <= |name| {
        p := patternNext;
        n := nameNext;
        continue;
      }
      return false;
    }
    return true;
  }

  // ----- Splitting -----

  ghost function Split(s: string, delimiter: char): (parts: seq<string>)
    ensures parts != []
  {
    if delimiter !in s then [s]
    else
      var i := FirstIndex(s, delimiter);
      [s[..i]] + Split(s[i + 1..], delimiter)
  }

  ghost function FirstIndex(s: string, c: char): (i: nat)
    requires c in s
    ensures i < |s| && s[i] == c && c !in s[..i]
  {
    if s[0] == c then 0 else FirstIndex(s[1..], c) + 1
  }

  ghost function Join(parts: seq<string>, delimiter: char): string
    requires parts != []
  {
    if |parts| == 1 then parts[0] else parts[0] + [delimiter] + Join(parts[1..], delimiter)
  }

  /** The parts contain no delimiter, and joined by it they are the text again. */
  lemma {:induction false} JoinSplit(s: string, delimiter: char)
    ensures forall part :: part in Split(s, delimiter) ==> delimiter !in part
    ensures Join(Split(s, delimiter), delimiter) == s
    decreases |s|
  {
    if delimiter in s {
      var i := FirstIndex(s, delimiter);
      JoinSplit(s[i + 1..], delimiter);
      assert s == s[..i] + [delimiter] + s[i + 1..];
    }
  }

  lemma {:induction false} FirstIndexUnique(s: string, c: char, i: nat)
    requires i < |s| && s[i] == c && c !in s[..i]
    ensures FirstIndex(s, c) == i
  {
    if i > 0 {
      assert s[0] in s[..i] && s[1..][..i - 1] == s[..i][1..];
      FirstIndexUnique(s[1..], c, i - 1);
    }
  }

  /** One round of the loop: the text before the delimiter found at colon becomes a part. */
  lemma SplitNext(str: string, delimiter: char, pos: nat, colon: nat, parsed: seq<string>)
    requires pos <= colon < |str| && str[colon] == delimiter && delimiter !in str[pos..colon]
    requires Split(str, delimiter) == parsed + Split(str[pos..], delimiter)
    ensures Split(str, delimiter) == parsed + [str[pos..colon]] + Split(str[colon + 1..], delimiter)
  {
    var rest, i := str[pos..], colon - pos;
    assert rest[..i] == str[pos..colon] && rest[i] == delimiter;
    FirstIndexUnique(rest, delimiter, i);
    assert rest[i + 1..] == str[colon + 1..];
    assert delimiter in rest;
    assert Split(rest, delimiter) == [rest[..i]] + Split(rest[i + 1..], delimiter);
  }

  /** std::string::find: the first index from pos on that holds c, or the length when there is none. */
  method Find(str: string, c: char, pos: nat) returns (i: nat)
    requires pos <= |str|
    ensures pos <= i <= |str| && c !in str[pos..i]
    ensures i < |str| ==> str[i] == c
  {
    i := pos;
    while i < |str| && str[i] != c
      invariant pos <= i <= |str| && c !in str[pos..i]
    {
      i := i + 1;
    }
  }

  method SplitString(str: string, delimiter: char) returns (parsed: seq<string>)
    ensures parsed == Split(str, delimiter)
  {
    parsed := [];
    var pos: nat := 0;
    assert str[0..] == str;
    while true
      invariant pos <= |str| && Split(str, delimiter) == parsed + Split(str[pos..], delimiter)
      decreases |str| - pos
    {
      var colon := Find(str, delimiter, pos);
      if colon == |str| {
        assert str[pos..] == str[pos..colon];
        parsed := parsed + [str[pos..]];
        break;
      }
      SplitNext(str, delimiter, pos, colon, parsed);
      parsed := parsed + [str[pos..colon]];
      pos := colon + 1;
    }
  }

  // ----- Filters -----

  predicate IsGlobPattern(pattern: string) {
    exists c :: c in pattern && (c == '?' || c == '*')
  }

  /** A pattern without wildcards matches itself and nothing else. */
  lemma {:induction false} ExactPattern(pattern: string, name: string)
    requires !IsGlobPattern(pattern)
    ensures Matches(pattern, name) <==> name == pattern
  {
    if pattern != [] {
      assert pattern[0] in pattern;
      assert forall c :: c in pattern[1..] ==> c in pattern;
      if name != [] {
        ExactPattern(pattern[1..], name[1..]);
        assert name == [name[0]] + name[1..] && pattern == [pattern[0]] + pattern[1..];
      }
    }
  }

  /** The meaning of a filter: one of its ':'-separated patterns matches. */
  ghost predicate FilterMatches(filter: string, name: string) {
    exists pattern :: pattern in Split(filter, ':') && Matches(pattern, name)
  }

  datatype UnitTestFilter = UnitTestFilter(globPatterns: seq<string>, exactMatchPatterns: set<string>) {
    /** The verdict of the two tables. */
    ghost predicate Accepts(name: string) {
      name in exactMatchPatterns || exists pattern :: pattern in globPatterns && Matches(pattern, name)
    }

    method MatchesName(name: string) returns (matched: bool)
      ensures matched <==> Accepts(name)
    {
      if name in exactMatchPatterns {
        return true;
      }
      for i := 0 to |globPatterns|
        invariant forall k :: 0 <= k < i ==> !Matches(globPatterns[k], name)
      {
        matched := PatternMatchesString(name, globPatterns[i]);
        if matched {
          return true;
        }
      }
      return false;
    }
  }

  /** Splitting the patterns into an exact set and a glob list keeps the verdict on every name. */
  method MakeFilter(filter: string) returns (f: UnitTestFilter)
    ensures forall name :: f.Accepts(name) <==> FilterMatches(filter, name)
  {
    var patterns := SplitString(filter, ':');
    var globs: seq<string>, exact: set<string> := [], {};
    for i := 0 to |patterns|
      invariant forall p :: p in globs <==> p in patterns[..i] && IsGlobPattern(p)
      invariant forall p :: p in exact <==> p in patterns[..i] && !IsGlobPattern(p)
    {
      assert patterns[..i + 1] == patterns[..i] + [patterns[i]];
      if IsGlobPattern(patterns[i]) {
        globs := globs + [patterns[i]];
      } else {
        exact := exact + {patterns[i]};
      }
    }
    assert patterns[..|patterns|] == patterns;
    f := UnitTestFilter(globs, exact);
    forall name
      ensures f.Accepts(name) <==> FilterMatches(filter, name)
    {
      forall p | p in patterns && !IsGlobPattern(p)
        ensures Matches(p, name) <==> name == p
      {
        ExactPattern(p, name);
      }
    }
  }

  const UNIVERSAL_FILTER := "*"

  /** The meaning of a filter with a negative part, which begins after the first '-'. With nothing
      before it, every name is selected that the negative part does not match. */
  ghost predicate Selects(filter: string, name: string) {
    if '-' !in filter then FilterMatches(filter, name)
    else
      var i := FirstIndex(filter, '-');
      && (i == 0 || FilterMatches(filter[..i], name))
      && !FilterMatches(filter[i + 1..], name)
  }

  lemma UniversalFilterMatchesAll(name: string)
    ensures FilterMatches(UNIVERSAL_FILTER, name)
  {
    var patterns := Split(UNIVERSAL_FILTER, ':');
    assert name[|name|..] == "" && Matches(UNIVERSAL_FILTER[1..], name[|name|..]);
    assert patterns[0] == UNIVERSAL_FILTER && patterns[0] in patterns && Matches(patterns[0], name);
  }

  datatype PositiveAndNegativeUnitTestFilter =
    PositiveAndNegativeUnitTestFilter(positive: UnitTestFilter, negative: UnitTestFilter)
  {
    ghost predicate Accepts(name: string) {
      positive.Accepts(name) && !negative.Accepts(name)
    }

    method MatchesName(name: string) returns (matched: bool)
      ensures matched <==> Accepts(name)
    {
      matched := positive.MatchesName(name);
      if matched {
        var excluded := negative.MatchesName(name);
        matched := !excluded;
      }
    }

    method MatchesTest(testSuiteName: string, testName: string) returns (matched: bool)
      ensures matched <==> Accepts(testSuiteName + "." + testName)
    {
      matched := MatchesName(testSuiteName + "." + testName);
    }
  }

  /** What follows the first '-', put together again from the parts after it. */
  method NegativePart(ghost filter: string, parts: seq<string>) returns (negativeString: string)
    requires parts == Split(filter, '-') && |parts| > 1
    ensures '-' in filter && negativeString == filter[FirstIndex(filter, '-') + 1..]
  {
    negativeString := parts[1];
    for i := 2 to |parts|
      invariant negativeString == Join(parts[1..i], '-')
    {
      JoinSnoc(parts[1..i], '-', parts[i]);
      assert parts[1..i + 1] == parts[1..i] + [parts[i]];
      negativeString := negativeString + "-" + parts[i];
    }
    ghost var rest := filter[FirstIndex(filter, '-') + 1..];
    JoinSplit(rest, '-');
    assert parts[1..|parts|] == Split(rest, '-');
  }

  method MakePositiveAndNegativeFilter(filter: string) returns (f: PositiveAndNegativeUnitTestFilter)
    ensures forall name :: f.Accepts(name) <==> Selects(filter, name)
  {
    var parts := SplitString(filter, '-');
    if |parts| > 1 {
      var positive := MakeFilter(if parts[0] == "" then UNIVERSAL_FILTER else parts[0]);
      var negativeString := NegativePart(filter, parts);
      var negative := MakeFilter(negativeString);
      forall name ensures FilterMatches(UNIVERSAL_FILTER, name) {
        UniversalFilterMatchesAll(name);
      }
      f := PositiveAndNegativeUnitTestFilter(positive, negative);
    } else {
      var positive := MakeFilter(parts[0]);
      f := PositiveAndNegativeUnitTestFilter(positive, UnitTestFilter([], {}));
    }
  }

  lemma {:induction false} JoinSnoc(parts: seq<string>, delimiter: char, last: string)
    requires parts != []
    ensures Join(parts + [last], delimiter) == Join(parts, delimiter) + [delimiter] + last
  {
    if |parts| > 1 {
      assert (parts + [last])[1..] == parts[1..] + [last];
      JoinSnoc(parts[1..], delimiter, last);
    } else {
      assert (parts + [last])[1..] == [last];
    }
  }
}
