/** gmock's prerequisite graph: retiring an expectation's prerequisites and asking whether they are
    satisfied. Expectations are numbered; pointers to them are their numbers. */
module Prerequisites {

  /** The immediate prerequisites of every expectation. */
  type Graph = g: seq<seq<nat>> | WellFormed(g) witness []

  ghost predicate WellFormed(g: seq<seq<nat>>) {
    forall x, i :: 0 <= x < |g| && 0 <= i < |g[x]| ==> g[x][i] < |g|
  }

  ghost predicate Edge(g: Graph, a: nat, b: nat) {
    a < |g| && b in g[a]
  }

  // ----- Transitive prerequisites -----

  /** A chain of immediate prerequisites. */
  ghost predicate IsChain(g: Graph, p: seq<nat>) {
    |p| >= 2 && forall i :: 0 <= i < |p| - 1 ==> Edge(g, p[i], p[i + 1])
  }

  ghost predicate Requires(g: Graph, a: nat, b: nat) {
    exists p :: IsChain(g, p) && p[0] == a && p[|p| - 1] == b
  }

  ghost function Prerequisites(g: Graph, a: nat): (s: set<nat>)
    ensures forall b: nat :: b in s <==> Requires(g, a, b)
  {
    RequiredInRange(g, a);
    set b: nat | b < |g| && Requires(g, a, b)
  }

  lemma RequiredInRange(g: Graph, a: nat)
    ensures forall b: nat :: Requires(g, a, b) ==> a < |g| && b < |g|
  {
    forall b: nat | Requires(g, a, b)
      ensures a < |g| && b < |g|
    {
      var p :| IsChain(g, p) && p[0] == a && p[|p| - 1] == b;
      assert Edge(g, p[0], p[1]) && Edge(g, p[|p| - 2], p[|p| - 2 + 1]);
    }
  }

  lemma RequiresFirst(g: Graph, a: nat, c: nat, b: nat)
    requires Edge(g, a, c) && (c == b || Requires(g, c, b))
    ensures Requires(g, a, b)
  {
    if c == b {
      assert IsChain(g, [a, b]);
    } else {
      var p :| IsChain(g, p) && p[0] == c && p[|p| - 1] == b;
      var q := [a] + p;
      forall i | 0 <= i < |q| - 1
        ensures Edge(g, q[i], q[i + 1])
      {
        if i > 0 {
          assert Edge(g, p[i - 1], p[i - 1 + 1]);
        }
      }
      assert IsChain(g, q);
    }
  }

  lemma RequiresLast(g: Graph, a: nat, c: nat, b: nat)
    requires (a == c || Requires(g, a, c)) && Edge(g, c, b)
    ensures Requires(g, a, b)
  {
    if a == c {
      assert IsChain(g, [a, b]);
    } else {
      var p :| IsChain(g, p) && p[0] == a && p[|p| - 1] == c;
      assert IsChain(g, p + [b]);
    }
  }

  lemma RequiresVia(g: Graph, a: nat, b: nat) returns (c: nat)
    requires Requires(g, a, b)
    ensures Edge(g, a, c) && (c == b || Requires(g, c, b))
  {
    var p :| IsChain(g, p) && p[0] == a && p[|p| - 1] == b;
    c := p[1];
    assert Edge(g, p[0], p[0 + 1]);
    if |p| > 2 {
      var q := p[1..];
      forall i | 0 <= i < |q| - 1
        ensures Edge(g, q[i], q[i + 1])
      {
        assert Edge(g, p[i + 1], p[i + 1 + 1]);
      }
      assert IsChain(g, q);
    }
  }

  ghost predicate Acyclic(g: Graph) {
    forall a: nat :: !Requires(g, a, a)
  }

  lemma RequiresTransitive(g: Graph, a: nat, b: nat, c: nat)
    requires Requires(g, a, b) && Requires(g, b, c)
    ensures Requires(g, a, c)
  {
    var p :| IsChain(g, p) && p[0] == a && p[|p| - 1] == b;
    var q :| IsChain(g, q) && q[0] == b && q[|q| - 1] == c;
    var r := p + q[1..];
    forall i | 0 <= i < |r| - 1
      ensures Edge(g, r[i], r[i + 1])
    {
      if i < |p| - 1 {
        assert Edge(g, p[i], p[i + 1]);
      } else {
        assert Edge(g, q[i - (|p| - 1)], q[i - (|p| - 1) + 1]);
      }
    }
    assert IsChain(g, r);
  }

  /** In an acyclic graph a prerequisite has strictly fewer prerequisites of its own. */
  lemma FewerPrerequisites(g: Graph, a: nat, b: nat)
    requires Acyclic(g) && Edge(g, a, b)
    ensures Prerequisites(g, b) < Prerequisites(g, a)
  {
    RequiresFirst(g, a, b, b);
    forall c: nat | Requires(g, b, c)
      ensures Requires(g, a, c)
    {
      RequiresTransitive(g, a, b, c);
    }
    assert b in Prerequisites(g, a) && b !in Prerequisites(g, b);
  }

  /** How many nodes a walk without visited marks meets from a node: one for each chain, and the node. */
  ghost function Walks(g: Graph, a: nat): nat
    requires Acyclic(g) && a < |g|
    decreases Prerequisites(g, a), |g[a]| + 1
  {
    1 + WalksOfFirst(g, a, |g[a]|)
  }

  ghost function WalksOfFirst(g: Graph, a: nat, n: nat): nat
    requires Acyclic(g) && a < |g| && n <= |g[a]|
    decreases Prerequisites(g, a), n
  {
    if n == 0 then 0
    else
      FewerPrerequisites(g, a, g[a][n - 1]);
      WalksOfFirst(g, a, n - 1) + Walks(g, g[a][n - 1])
  }

  ghost predicate OnGraph(g: Graph, stack: seq<nat>) {
    forall i :: 0 <= i < |stack| ==> stack[i] < |g|
  }

  ghost function WalksOfStack(g: Graph, stack: seq<nat>): nat
    requires Acyclic(g) && OnGraph(g, stack)
  {
    if stack == [] then 0 else WalksOfStack(g, stack[..|stack| - 1]) + Walks(g, stack[|stack| - 1])
  }

  lemma WalksOfPush(g: Graph, stack: seq<nat>, x: nat)
    requires Acyclic(g) && OnGraph(g, stack) && x < |g|
    ensures WalksOfStack(g, stack + [x]) == WalksOfStack(g, stack) + Walks(g, x)
  {
    assert (stack + [x])[..|stack|] == stack;
  }

  lemma {:induction false} WalksOfPushes(g: Graph, stack: seq<nat>, a: nat, n: nat)
    requires Acyclic(g) && OnGraph(g, stack) && a < |g| && n <= |g[a]|
    ensures WalksOfStack(g, stack + g[a][..n]) == WalksOfStack(g, stack) + WalksOfFirst(g, a, n)
    decreases n
  {
    if n == 0 {
      assert stack + g[a][..n] == stack;
    } else {
      WalksOfPushes(g, stack, a, n - 1);
      WalksOfPush(g, stack + g[a][..n - 1], g[a][n - 1]);
      assert stack + g[a][..n] == stack + g[a][..n - 1] + [g[a][n - 1]];
    }
  }

  /** Replacing a node by its immediate prerequisites shortens the walk that is left by one. */
  lemma PushedWalks(g: Graph, a: nat, rest: seq<nat>)
    requires Acyclic(g) && OnGraph(g, rest) && a < |g|
    ensures WalksOfStack(g, rest + g[a]) < WalksOfStack(g, rest + [a])
  {
    WalksOfPush(g, rest, a);
    WalksOfPushes(g, rest, a, |g[a]|);
    assert g[a][..|g[a]|] == g[a];
  }

  // ----- Retiring -----

  /** A retired expectation has only retired prerequisites. */
  ghost predicate Closed(g: Graph, retired: set<nat>) {
    forall a, b :: a in retired && Edge(g, a, b) ==> b in retired
  }

  lemma {:induction false} ClosedHoldsChain(g: Graph, retired: set<nat>, p: seq<nat>)
    requires IsChain(g, p)
    requires Closed(g, retired) && forall b :: Edge(g, p[0], b) ==> b in retired
    ensures p[|p| - 1] in retired
  {
    assert Edge(g, p[0], p[0 + 1]);
    if |p| > 2 {
      var q := p[1..];
      forall i | 0 <= i < |q| - 1
        ensures Edge(g, q[i], q[i + 1])
      {
        assert Edge(g, p[i + 1], p[i + 1 + 1]);
      }
      ClosedHoldsChain(g, retired, q);
    }
  }

  lemma ClosedHoldsPrerequisites(g: Graph, retired: set<nat>, a: nat)
    requires Closed(g, retired) && forall b :: Edge(g, a, b) ==> b in retired
    ensures Prerequisites(g, a) <= retired
  {
    forall b: nat | Requires(g, a, b)
      ensures b in retired
    {
      var p :| IsChain(g, p) && p[0] == a && p[|p| - 1] == b;
      ClosedHoldsChain(g, retired, p);
    }
  }

  /** The state of the work loop: what has been retired so far are prerequisites of self, and the only
      members whose own prerequisites may be missing are those still on the stack. */
  ghost predicate Retiring(g: Graph, self: nat, retired0: set<nat>, retired: set<nat>, stack: seq<nat>) {
    && retired0 <= retired <= retired0 + Prerequisites(g, self)
    && (forall x :: x in stack ==> x == self || x in Prerequisites(g, self))
    && (forall a, b :: (a in retired || a == self) && Edge(g, a, b) ==> b in retired || a in stack)
  }

  /** Retiring one more prerequisite of exp, and putting it on the stack. */
  lemma RetireNext(g: Graph, self: nat, retired0: set<nat>, retired: set<nat>, stack: seq<nat>, exp: nat, next: nat)
    requires Retiring(g, self, retired0, retired, stack + [exp]) && Edge(g, exp, next)
    ensures Retiring(g, self, retired0, retired + {next}, stack + [next] + [exp])
    ensures next in Prerequisites(g, self)
  {
    assert exp in stack + [exp];
    RequiresLast(g, self, exp, next);
    forall a, b | (a in retired + {next} || a == self) && Edge(g, a, b)
      ensures b in retired + {next} || a in stack + [next] + [exp]
    {
      assert a in stack + [exp] ==> a in stack + [next] + [exp];
    }
  }

  /** Exp is done with once its immediate prerequisites are retired. */
  lemma PopRetired(g: Graph, self: nat, retired0: set<nat>, retired: set<nat>, stack: seq<nat>, exp: nat)
    requires Retiring(g, self, retired0, retired, stack + [exp])
    requires forall b :: Edge(g, exp, b) ==> b in retired
    ensures Retiring(g, self, retired0, retired, stack)
  {
    assert forall x :: x in stack + [exp] <==> x in stack || x == exp;
  }

  lemma RetiringDone(g: Graph, self: nat, retired0: set<nat>, retired: set<nat>)
    requires Retiring(g, self, retired0, retired, [])
    ensures Closed(g, retired) && retired == retired0 + Prerequisites(g, self)
  {
    ClosedHoldsPrerequisites(g, retired, self);
  }

  /** Only wanted members have been added. */
  ghost predicate Gained(before: set<nat>, after: set<nat>, wanted: set<nat>) {
    before <= after <= before + wanted
  }

  lemma GainedLeavesFewer(before: set<nat>, after: set<nat>, wanted: set<nat>)
    requires Gained(before, after, wanted)
    ensures after == before || wanted - after < wanted - before
  {
    if after != before {
      var x :| x in after && x !in before;
      assert x in wanted - before && x !in wanted - after;
    }
  }

  // ----- Satisfaction -----

  datatype Cardinality = Between(min: nat, max: nat) {
    predicate IsSatisfiedBy(count: nat) {
      min <= count <= max
    }

    predicate IsSaturatedBy(count: nat) {
      count >= max
    }
  }

  /** A count is not satisfied when it is too small or too large, and saturated when every larger one is
      not satisfied. */
  lemma CardinalityBounds(c: Cardinality, count: nat)
    requires c.min <= c.max
    ensures !c.IsSatisfiedBy(count) <==> count < c.min || count > c.max
    ensures c.IsSaturatedBy(count) <==> forall more :: more > count ==> !c.IsSatisfiedBy(more)
  {
    if !c.IsSaturatedBy(count) {
      assert c.IsSatisfiedBy(c.max);
    }
  }

  /** What is left to be asked: every prerequisite of self is known to be satisfied or is reached
      from the stack. */
  ghost predicate Asking(g: Graph, self: nat, satisfied: set<nat>, stack: seq<nat>) {
    && (forall x :: x in stack ==> x == self || x in Prerequisites(g, self))
    && (forall b :: b in Prerequisites(g, self) ==> b in satisfied || exists x :: x in stack && Requires(g, x, b))
  }

  /** Replacing a node by its satisfied immediate prerequisites. */
  lemma AskNext(g: Graph, self: nat, satisfied: set<nat>, stack: seq<nat>, exp: nat)
    requires exp < |g| && Asking(g, self, satisfied, stack + [exp])
    requires forall c :: Edge(g, exp, c) ==> c in satisfied
    ensures Asking(g, self, satisfied, stack + g[exp])
  {
    assert exp in stack + [exp];
    forall x | x in g[exp]
      ensures x in Prerequisites(g, self)
    {
      RequiresLast(g, self, exp, x);
    }
    forall b | b in Prerequisites(g, self) && b !in satisfied
      ensures exists x :: x in stack + g[exp] && Requires(g, x, b)
    {
      var x :| x in stack + [exp] && Requires(g, x, b);
      if x in stack {
        assert x in stack + g[exp];
      } else {
        var c := RequiresVia(g, exp, b);
        assert c in stack + g[exp];
      }
    }
  }

  /** An immediate prerequisite of a node on the stack is not satisfied. */
  lemma NotAll(g: Graph, self: nat, satisfied: set<nat>, stack: seq<nat>, exp: nat)
    requires Asking(g, self, satisfied, stack + [exp])
    requires exists c :: Edge(g, exp, c) && c !in satisfied
    ensures !(Prerequisites(g, self) <= satisfied)
  {
    var c :| Edge(g, exp, c) && c !in satisfied;
    assert exp in stack + [exp];
    RequiresLast(g, self, exp, c);
  }

  class Expectations {
    const immediate: Graph
    const cardinality: seq<Cardinality>
    const retiresOnSaturation: seq<bool>
    var callCount: seq<nat>
    var retired: seq<bool>

    ghost predicate Valid()
      reads this
    {
      && |retired| == |callCount| == |cardinality| == |retiresOnSaturation| == |immediate|
      && Closed(immediate, Retired())
    }

    ghost function Retired(): (s: set<nat>)
      reads this
      ensures forall x: nat :: x in s <==> x < |retired| && retired[x]
    {
      set x: nat | x < |retired| && retired[x]
    }

    ghost function Satisfied(): (s: set<nat>)
      reads this
      requires |callCount| == |cardinality|
      ensures forall x: nat :: x in s <==> x < |callCount| && cardinality[x].IsSatisfiedBy(callCount[x])
    {
      set x: nat | x < |callCount| && cardinality[x].IsSatisfiedBy(callCount[x])
    }

    constructor (immediate: Graph, cardinality: seq<Cardinality>, retiresOnSaturation: seq<bool>)
      requires |cardinality| == |retiresOnSaturation| == |immediate|
      ensures Valid() && this.immediate == immediate
      ensures this.cardinality == cardinality && this.retiresOnSaturation == retiresOnSaturation
      ensures Retired() == {} && callCount == seq(|immediate|, _ => 0)
    {
      this.immediate, this.cardinality, this.retiresOnSaturation := immediate, cardinality, retiresOnSaturation;
      callCount := seq(|immediate|, _ => 0);
      retired := seq(|immediate|, _ => false);
    }

    /** One node of the walk: its immediate prerequisites go onto the stack, unless one is not satisfied. */
    method PushSatisfied(exp: nat, rest: seq<nat>) returns (ok: bool, expectations: seq<nat>)
      requires Valid() && exp < |immediate|
      ensures ok ==> expectations == rest + immediate[exp]
      ensures ok <==> forall c :: Edge(immediate, exp, c) ==> c in Satisfied()
    {
      expectations := rest;
      for i := 0 to |immediate[exp]|
        invariant expectations == rest + immediate[exp][..i]
        invariant forall k :: 0 <= k < i ==> immediate[exp][k] in Satisfied()
      {
        var next := immediate[exp][i];
        if !cardinality[next].IsSatisfiedBy(callCount[next]) {
          assert Edge(immediate, exp, next);
          return false, expectations;
        }
        expectations := expectations + [next];
      }
      return true, expectations;
    }

    /** The walk keeps no visited marks; it ends on every acyclic graph, and answers for all
        transitive prerequisites. */
    method AllPrerequisitesAreSatisfied(self: nat) returns (all: bool)
      requires Valid() && self < |immediate| && Acyclic(immediate)
      ensures all <==> Prerequisites(immediate, self) <= Satisfied()
    {
      var expectations: seq<nat> := [self];
      assert Asking(immediate, self, Satisfied(), expectations);
      while expectations != []
        invariant OnGraph(immediate, expectations) && Asking(immediate, self, Satisfied(), expectations)
        decreases WalksOfStack(immediate, expectations)
      {
        var exp := expectations[|expectations| - 1];
        var rest := expectations[..|expectations| - 1];
        assert expectations == rest + [exp];
        var ok, pushed := PushSatisfied(exp, rest);
        if !ok {
          NotAll(immediate, self, Satisfied(), rest, exp);
          return false;
        }
        AskNext(immediate, self, Satisfied(), rest, exp);
        PushedWalks(immediate, exp, rest);
        expectations := pushed;
      }
      return true;
    }

    method Retire(x: nat)
      requires x < |retired|
      modifies this`retired
      ensures |retired| == old(|retired|) && Retired() == old(Retired()) + {x}
    {
      retired := retired[x := true];
    }

    /** Retires the immediate prerequisites of exp that are not retired yet, and stacks them. */
    method RetireImmediate(ghost self: nat, ghost retired0: set<nat>, exp: nat, rest: seq<nat>)
      returns (expectations: seq<nat>)
      requires |retired| == |immediate| && OnGraph(immediate, rest) && exp < |immediate|
      requires Retiring(immediate, self, retired0, Retired(), rest + [exp])
      modifies this`retired
      ensures |retired| == |immediate| && OnGraph(immediate, expectations)
      ensures Retiring(immediate, self, retired0, Retired(), expectations)
      ensures Gained(old(Retired()), Retired(), Prerequisites(immediate, self))
      ensures Retired() == old(Retired()) ==> expectations == rest
    {
      expectations := rest;
      for i := 0 to |immediate[exp]|
        invariant |retired| == |immediate| && OnGraph(immediate, expectations)
        invariant Retiring(immediate, self, retired0, Retired(), expectations + [exp])
        invariant forall k :: 0 <= k < i ==> immediate[exp][k] in Retired()
        invariant Gained(old(Retired()), Retired(), Prerequisites(immediate, self))
        invariant Retired() == old(Retired()) ==> expectations == rest
      {
        var next := immediate[exp][i];
        if !retired[next] {
          RetireNext(immediate, self, retired0, Retired(), expectations, exp, next);
          Retire(next);
          expectations := expectations + [next];
        }
      }
      PopRetired(immediate, self, retired0, Retired(), expectations, exp);
    }

    /** Exactly the transitive prerequisites become retired, and closure is kept. */
    method RetireAllPreRequisites(self: nat)
      requires Valid() && self < |immediate|
      modifies this`retired
      ensures Valid()
      ensures Retired() == old(Retired()) + Prerequisites(immediate, self)
    {
      if retired[self] {
        ClosedHoldsPrerequisites(immediate, Retired(), self);
        return;
      }
      ghost var retired0 := Retired();
      var expectations: seq<nat> := [self];
      while expectations != []
        invariant |retired| == |immediate| && OnGraph(immediate, expectations)
        invariant Retiring(immediate, self, retired0, Retired(), expectations)
        decreases Prerequisites(immediate, self) - Retired(), |expectations|
      {
        var exp := expectations[|expectations| - 1];
        var rest := expectations[..|expectations| - 1];
        assert expectations == rest + [exp];
        ghost var before := Retired();
        expectations := RetireImmediate(self, retired0, exp, rest);
        GainedLeavesFewer(before, Retired(), Prerequisites(immediate, self));
      }
      RetiringDone(immediate, self, retired0, Retired());
    }

    /** A mock call handled by an expectation; the answer says whether it was excessive. */
    method GetActionForArguments(self: nat) returns (excessive: bool)
      requires Valid() && self < |immediate|
      modifies this
      ensures Valid()
      ensures State(callCount, Retired())
              == old(Config(immediate, cardinality, retiresOnSaturation).After(State(callCount, Retired()), self))
      ensures excessive <==> cardinality[self].IsSaturatedBy(old(callCount[self]))
    {
      excessive := cardinality[self].IsSaturatedBy(callCount[self]);
      callCount := callCount[self := callCount[self] + 1];
      if !excessive {
        RetireAllPreRequisites(self);
        if retiresOnSaturation[self] && cardinality[self].IsSaturatedBy(callCount[self]) {
          forall b | Edge(immediate, self, b)
            ensures b in Retired()
          {
            RequiresFirst(immediate, self, b, b);
          }
          Retire(self);
        }
      }
    }
  }

  // ----- Runs -----

  datatype State = State(callCount: seq<nat>, retired: set<nat>)

  datatype Config = Config(immediate: Graph, cardinality: seq<Cardinality>, retiresOnSaturation: seq<bool>) {
    ghost predicate Valid() {
      |cardinality| == |retiresOnSaturation| == |immediate|
    }

    ghost predicate Satisfied(s: State, x: nat)
      requires Valid() && |s.callCount| == |immediate|
    {
      x < |immediate| && cardinality[x].IsSatisfiedBy(s.callCount[x])
    }

    /** The condition under which an expectation handles a call (its argument matchers permitting). */
    ghost predicate ShouldHandle(s: State, x: nat)
      requires Valid() && |s.callCount| == |immediate|
    {
      && x < |immediate| && x !in s.retired
      && forall a :: a in Prerequisites(immediate, x) ==> Satisfied(s, a)
    }

    ghost predicate Excessive(s: State, x: nat)
      requires Valid() && |s.callCount| == |immediate| && x < |immediate|
    {
      cardinality[x].IsSaturatedBy(s.callCount[x])
    }

    ghost function After(s: State, x: nat): State
      requires Valid() && |s.callCount| == |immediate| && x < |immediate|
    {
      var count := s.callCount[x] + 1;
      State(s.callCount[x := count],
            if Excessive(s, x) then s.retired
            else s.retired + Prerequisites(immediate, x)
                 + if retiresOnSaturation[x] && cardinality[x].IsSaturatedBy(count) then {x} else {})
    }

    /** calls[i] is handled in states[i] and leads to states[i + 1]. */
    ghost predicate IsRun(states: seq<State>, calls: seq<nat>)
      requires Valid()
    {
      && |states| == |calls| + 1
      && (forall i :: 0 <= i < |states| ==> |states[i].callCount| == |immediate|)
      && (forall i :: 0 <= i < |calls| ==>
            ShouldHandle(states[i], calls[i]) && states[i + 1] == After(states[i], calls[i]))
    }

    /** Once retired, an expectation handles no more calls, so its call count is final. */
    lemma {:induction false} RetiredIsFinal(states: seq<State>, calls: seq<nat>, i: nat, j: nat, a: nat)
      requires Valid() && IsRun(states, calls) && i <= j < |states| && a in states[i].retired && a < |immediate|
      ensures a in states[j].retired && states[j].callCount[a] == states[i].callCount[a]
      ensures j < |calls| ==> calls[j] != a
    {
      if i < j {
        RetiredIsFinal(states, calls, i, j - 1, a);
        assert states[j - 1 + 1] == After(states[j - 1], calls[j - 1]);
      }
      if j < |calls| {
        assert ShouldHandle(states[j], calls[j]);
      }
    }

    /** The declared order is respected over every run: once an expectation has handled a call that
        was not excessive, none of its prerequisites handles another one, and all of them stay
        satisfied. */
    lemma CallsRespectOrder(states: seq<State>, calls: seq<nat>, i: nat, j: nat, a: nat)
      requires Valid() && IsRun(states, calls) && i < j < |states|
      requires !Excessive(states[i], calls[i]) && a in Prerequisites(immediate, calls[i])
      ensures Satisfied(states[j], a)
      ensures j < |calls| ==> calls[j] != a
    {
      assert ShouldHandle(states[i], calls[i]) && states[i + 1] == After(states[i], calls[i]);
      RetiredIsFinal(states, calls, i + 1, j, a);
      if a == calls[i] {
        assert Satisfied(states[i], a);
      }
    }
  }
}
