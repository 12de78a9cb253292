/** Maximum bipartite matching as computed by gmock's MaxBipartiteMatchState,
    and the two checks behind UnorderedElementsAre that rest on it. */
module BipartiteMatching {

  /** The connectivity matrix, one row of flags for each left node (element). */
  datatype RawMatrix = MatchMatrix(numElements: nat, numMatchers: nat, matched: seq<seq<bool>>) {
    ghost predicate Valid() {
      |matched| == numElements && forall row :: row in matched ==> |row| == numMatchers
    }

    predicate HasEdge(ilhs: nat, irhs: nat)
      requires Valid() && ilhs < numElements && irhs < numMatchers
    {
      matched[ilhs][irhs]
    }

    /** HasEdge, false outside the matrix. */
    ghost predicate Edge(l: int, r: int)
      requires Valid()
    {
      0 <= l < numElements && 0 <= r < numMatchers && HasEdge(l, r)
    }
  }

  type Graph = g: RawMatrix | g.Valid() witness MatchMatrix(0, 0, [])

  /** An element and the matcher it is paired with. */
  datatype Pair = Pair(element: int, matcher: int)

  type Pairs = seq<Pair>

  const KUNUSED := -1

  // ----- Specification vocabulary -----

  ghost function Lefts(ps: Pairs): set<int> {
    set p | p in ps :: p.element
  }

  ghost function Rights(ps: Pairs): set<int> {
    set p | p in ps :: p.matcher
  }

  ghost function Range(n: nat): (s: set<int>)
    ensures forall x :: x in s <==> 0 <= x < n
    ensures |s| == n
  {
    if n == 0 then {} else Range(n - 1) + {n - 1}
  }

  /** Every pair is an edge and no node is used twice. */
  ghost predicate IsMatching(g: Graph, ps: Pairs) {
    && (forall p :: p in ps ==> g.Edge(p.element, p.matcher))
    && Disjoint(ps)
  }

  ghost predicate Disjoint(ps: Pairs) {
    forall i, j :: 0 <= i < j < |ps| ==> ps[i].element != ps[j].element && ps[i].matcher != ps[j].matcher
  }

  ghost predicate IsMaximum(g: Graph, ps: Pairs) {
    IsMatching(g, ps) && forall other: Pairs :: IsMatching(g, other) ==> |other| <= |ps|
  }

  /** The arrays are mutually referent and every link is an edge. */
  ghost predicate Consistent(g: Graph, left: seq<int>, right: seq<int>) {
    && |left| == g.numElements && |right| == g.numMatchers
    && (forall l :: 0 <= l < |left| && left[l] != KUNUSED ==> g.Edge(l, left[l]) && right[left[l]] == l)
    && (forall r :: 0 <= r < |right| && right[r] != KUNUSED ==> 0 <= right[r] < |left| && left[right[r]] == r)
  }

  /** A dead region: every neighbour of dl lies in dr, and every node of dr is matched into dl.
      No augmenting path can leave it. */
  ghost predicate Dead(g: Graph, right: seq<int>, dl: set<int>, dr: set<int>)
    requires |right| == g.numMatchers
  {
    && dl <= Range(g.numElements) && dr <= Range(g.numMatchers)
    && (forall l, r :: l in dl && g.Edge(l, r) ==> r in dr)
    && (forall r :: r in dr ==> right[r] in dl)
  }

  /** The effect of a successful search from l: exactly l becomes newly matched. The link
      right[left0[l]] may be stale; without it the arrays are consistent. */
  ghost predicate Augmented(g: Graph, left0: seq<int>, left: seq<int>, right: seq<int>, l: nat)
    requires |left0| == g.numElements && l < |left0|
  {
    && |left| == g.numElements && |right| == g.numMatchers
    && left[l] != KUNUSED
    && (forall k :: 0 <= k < |left| && k != l ==> (left[k] == KUNUSED <==> left0[k] == KUNUSED))
    && (left0[l] == KUNUSED ==> Consistent(g, left, right))
    && (left0[l] != KUNUSED ==> 0 <= left0[l] < |right| && Consistent(g, left, right[left0[l] := KUNUSED]))
  }

  /** Marks are only ever added. */
  ghost predicate Marks(seen0: seq<bool>, seen: seq<bool>) {
    |seen0| == |seen| && forall r :: 0 <= r < |seen0| && seen0[r] ==> seen[r]
  }

  /** The first n right nodes that l is joined to are marked. */
  ghost predicate Tried(g: Graph, l: int, n: int, seen: seq<bool>)
    requires |seen| == g.numMatchers
  {
    forall r :: 0 <= r < n && g.Edge(l, r) ==> seen[r]
  }

  /** Right nodes newly marked by a failed search lead nowhere. */
  ghost predicate Exhausted(g: Graph, right: seq<int>, seen0: seq<bool>, seen: seq<bool>)
    requires |seen0| == |seen| == |right| == g.numMatchers
  {
    forall r :: 0 <= r < |seen| && seen[r] && !seen0[r] ==> right[r] != KUNUSED && Tried(g, right[r], |seen|, seen)
  }

  /** A search from l leaves alone the marked right nodes and their partners. */
  ghost predicate Spared(left0: seq<int>, right0: seq<int>, left: seq<int>, right: seq<int>, seen: seq<bool>, l: int)
    requires |left0| == |left| && |right0| == |right| == |seen|
  {
    && (forall r :: 0 <= r < |right| && seen[r] ==> right[r] == right0[r])
    && (forall k :: 0 <= k < |left| && k != l && 0 <= left0[k] < |seen| && seen[left0[k]] ==> left[k] == left0[k])
  }

  /** What a successful search from l has achieved, and what it has left alone. */
  ghost predicate Success(g: Graph, left0: seq<int>, right0: seq<int>, left: seq<int>, right: seq<int>,
                          seen: seq<bool>, l: nat, dl: set<int>, dr: set<int>)
    requires |left0| == g.numElements && |right0| == |seen| == g.numMatchers && l < |left0|
  {
    && Augmented(g, left0, left, right, l)
    && Spared(left0, right0, left, right, seen, l)
    && l !in dl && Dead(g, right, dl, dr)
  }

  /** What a failed search from l has established. */
  ghost predicate Failure(g: Graph, right: seq<int>, seen0: seq<bool>, seen: seq<bool>, l: nat)
    requires |seen0| == |seen| == |right| == g.numMatchers
  {
    Tried(g, l, |seen|, seen) && Exhausted(g, right, seen0, seen)
  }

  ghost function Unseen(seen: seq<bool>): set<int> {
    set r | 0 <= r < |seen| && !seen[r]
  }

  // ----- Counting -----

  /** The pairs whose left node lies in (or outside) a region, in order. */
  ghost function Part(ps: Pairs, region: set<int>, inside: bool): (part: Pairs)
    ensures forall p :: p in part <==> p in ps && (p.element in region <==> inside)
  {
    if ps == [] then []
    else
      var last := ps[|ps| - 1];
      var part := Part(ps[..|ps| - 1], region, inside);
      if last.element in region <==> inside then part + [last] else part
  }

  lemma {:induction false} PartsAreDisjoint(ps: Pairs, region: set<int>)
    requires Disjoint(ps)
    ensures Disjoint(Part(ps, region, true)) && Disjoint(Part(ps, region, false))
    ensures |ps| == |Part(ps, region, true)| + |Part(ps, region, false)|
  {
    if ps != [] {
      var front, last := ps[..|ps| - 1], ps[|ps| - 1];
      PartsAreDisjoint(front, region);
      assert forall p :: p in front ==> p.element != last.element && p.matcher != last.matcher;
    }
  }

  lemma SubsetSize<T>(a: set<T>, b: set<T>)
    requires a <= b
    ensures |a| <= |b|
    ensures |a| == |b| ==> a == b
  {
    assert b == a + (b - a);
  }

  /** Both projections of a matching are injective. */
  lemma {:induction false} DisjointSize(ps: Pairs)
    requires Disjoint(ps)
    ensures |Lefts(ps)| == |ps| == |Rights(ps)|
  {
    if ps != [] {
      var front, last := ps[..|ps| - 1], ps[|ps| - 1];
      DisjointSize(front);
      assert ps == front + [last];
      assert last.element !in Lefts(front) && last.matcher !in Rights(front);
      assert Lefts(ps) == Lefts(front) + {last.element};
      assert Rights(ps) == Rights(front) + {last.matcher};
    }
  }

  lemma MatchingSize(g: Graph, ps: Pairs)
    requires IsMatching(g, ps)
    ensures |Lefts(ps)| == |ps| == |Rights(ps)|
    ensures Lefts(ps) <= Range(g.numElements) && Rights(ps) <= Range(g.numMatchers)
  {
    DisjointSize(ps);
  }

  /** Weak duality: dr together with the left nodes outside dl covers every edge. */
  lemma DeadRegionBoundsMatchings(g: Graph, right: seq<int>, dl: set<int>, dr: set<int>, ps: Pairs)
    requires |right| == g.numMatchers && Dead(g, right, dl, dr)
    requires IsMatching(g, ps)
    ensures |ps| <= |Range(g.numElements) - dl| + |dr|
  {
    PartsAreDisjoint(ps, dl);
    var inside, outside := Part(ps, dl, true), Part(ps, dl, false);
    DisjointSize(inside);
    DisjointSize(outside);
    forall r | r in Rights(inside)
      ensures r in dr
    {
      var p :| p in inside && p.matcher == r;
      assert g.Edge(p.element, p.matcher);
    }
    SubsetSize(Lefts(outside), Range(g.numElements) - dl);
    SubsetSize(Rights(inside), dr);
  }

  /** The links of the first n left nodes, in order. */
  ghost function LinksOf(left: seq<int>, n: nat): Pairs
    requires n <= |left|
  {
    if n == 0 then []
    else LinksOf(left, n - 1) + if left[n - 1] == KUNUSED then [] else [Pair(n - 1, left[n - 1])]
  }

  ghost predicate IsLink(left: seq<int>, n: nat, p: Pair)
    requires n <= |left|
  {
    0 <= p.element < n && left[p.element] == p.matcher != KUNUSED
  }

  lemma {:induction false} LinksAreLinks(left: seq<int>, n: nat)
    requires n <= |left|
    ensures forall i :: 0 <= i < |LinksOf(left, n)| ==> IsLink(left, n, LinksOf(left, n)[i])
    ensures forall i, j :: 0 <= i < j < |LinksOf(left, n)| ==>
            LinksOf(left, n)[i].element < LinksOf(left, n)[j].element
  {
    if n > 0 {
      LinksAreLinks(left, n - 1);
      var front, ps := LinksOf(left, n - 1), LinksOf(left, n);
      forall i | 0 <= i < |ps| ensures IsLink(left, n, ps[i]) {
        if i < |front| {
          assert ps[i] == front[i] && IsLink(left, n - 1, front[i]);
        }
      }
      forall i, j | 0 <= i < j < |ps| ensures ps[i].element < ps[j].element {
        assert ps[i] == front[i] && IsLink(left, n - 1, front[i]);
        assert j < |front| ==> ps[j] == front[j];
      }
    }
  }

  lemma {:induction false} EveryLinkListed(left: seq<int>, n: nat, l: nat)
    requires l < n <= |left| && left[l] != KUNUSED
    ensures Pair(l, left[l]) in LinksOf(left, n)
  {
    if l < n - 1 {
      EveryLinkListed(left, n - 1, l);
    } else {
      assert LinksOf(left, n)[|LinksOf(left, n)| - 1] == Pair(l, left[l]);
    }
  }

  lemma LinksAreMatching(g: Graph, left: seq<int>, right: seq<int>)
    requires Consistent(g, left, right)
    ensures IsMatching(g, LinksOf(left, |left|))
  {
    var ps := LinksOf(left, |left|);
    LinksAreLinks(left, |left|);
    forall i, j | 0 <= i < j < |ps|
      ensures ps[i].element != ps[j].element && ps[i].matcher != ps[j].matcher
    {
      assert IsLink(left, |left|, ps[i]) && IsLink(left, |left|, ps[j]);
      assert right[left[ps[i].element]] == ps[i].element && right[left[ps[j].element]] == ps[j].element;
    }
  }

  /** Once every unmatched left node lies in a dead region, the matching is maximum. */
  lemma DeadRegionCertifiesMaximum(g: Graph, left: seq<int>, right: seq<int>, dl: set<int>, dr: set<int>)
    requires Searched(g, left, right, |left|, dl, dr)
    ensures IsMaximum(g, LinksOf(left, |left|))
  {
    var ps := LinksOf(left, |left|);
    LinksAreMatching(g, left, right);
    PartsAreDisjoint(ps, dl);
    var inside, outside := Part(ps, dl, true), Part(ps, dl, false);
    DisjointSize(inside);
    DisjointSize(outside);
    forall l | l in Range(g.numElements) - dl
      ensures l in Lefts(outside)
    {
      EveryLinkListed(left, |left|, l);
      assert Pair(l, left[l]) in outside;
    }
    forall r | r in dr
      ensures r in Rights(inside)
    {
      EveryLinkListed(left, |left|, right[r]);
      assert Pair(right[r], r) in inside;
    }
    SubsetSize(Range(g.numElements) - dl, Lefts(outside));
    SubsetSize(dr, Rights(inside));
    forall other: Pairs | IsMatching(g, other)
      ensures |other| <= |ps|
    {
      DeadRegionBoundsMatchings(g, right, dl, dr, other);
    }
  }

  // ----- Steps of the search -----

  /** Linking to a free, unmarked right node. */
  lemma LinkFreeNode(g: Graph, left: seq<int>, right: seq<int>, seen: seq<bool>, l: nat, r: nat,
                     dl: set<int>, dr: set<int>)
    requires Consistent(g, left, right) && g.Edge(l, r) && right[r] == KUNUSED
    requires |seen| == |right| && !seen[r]
    requires Dead(g, right, dl, dr)
    ensures Success(g, left, right, left[l := r], right[r := l], seen, l, dl, dr)
  {
    assert r !in dr;
  }

  /** Linking to a right node whose partner has just moved elsewhere. */
  lemma LinkReleasedNode(g: Graph, left0: seq<int>, right0: seq<int>, left: seq<int>, right: seq<int>, l: nat, r: nat)
    requires Consistent(g, left0, right0) && g.Edge(l, r) && right0[r] != KUNUSED && right0[r] != l
    requires Augmented(g, left0, left, right, right0[r])
    requires left[l] == left0[l] && (left0[l] != KUNUSED ==> right[left0[l]] == l)
    ensures Augmented(g, left0, left[l := r], right[r := l], l)
  {
    var s, left', base := left0[l], left[l := r], right[r := KUNUSED];
    var right' := if s == KUNUSED then right[r := l] else right[r := l][s := KUNUSED];
    assert left0[right0[r]] == r && s != r && Consistent(g, left, base);
    forall k | 0 <= k < |left'| && left'[k] != KUNUSED
      ensures g.Edge(k, left'[k]) && right'[left'[k]] == k
    {
      if k != l {
        assert base[left[k]] == k;
      }
    }
    forall q | 0 <= q < |right'| && right'[q] != KUNUSED
      ensures 0 <= right'[q] < |left'| && left'[right'[q]] == q
    {
      if q != r {
        assert left[base[q]] == q;
      }
    }
    assert Consistent(g, left', right');
  }

  /** The same when the partner was released by a search that had marked r as well. */
  lemma LinkAfterSearch(g: Graph, left0: seq<int>, right0: seq<int>, left: seq<int>, right: seq<int>,
                        seen0: seq<bool>, seen: seq<bool>, l: nat, r: nat, dl: set<int>, dr: set<int>)
    requires Consistent(g, left0, right0) && g.Edge(l, r) && right0[r] != KUNUSED
    requires Dead(g, right0, dl, dr)
    requires |seen0| == |right0| && Marks(seen0, seen) && !seen0[r] && seen[r]
    requires left0[l] == KUNUSED || seen0[left0[l]]
    requires Success(g, left0, right0, left, right, seen, right0[r], dl, dr)
    ensures Success(g, left0, right0, left[l := r], right[r := l], seen0, l, dl, dr)
  {
    assert r !in dr;
    assert l !in dl;
    LinkReleasedNode(g, left0, right0, left, right, l, r);
  }

  /** A dead end reached through r is added to those already known. */
  lemma DeadEnd(g: Graph, right: seq<int>, seen0: seq<bool>, seen1: seq<bool>, r: nat, seen2: seq<bool>)
    requires |seen0| == |seen1| == |seen2| == |right| == g.numMatchers && r < |right| && right[r] >= 0
    requires Exhausted(g, right, seen0, seen1)
    requires Marks(seen1[r := true], seen2) && Failure(g, right, seen1[r := true], seen2, right[r])
    ensures Exhausted(g, right, seen0, seen2)
  {
    forall q | 0 <= q < |seen2| && seen2[q] && !seen0[q]
      ensures right[q] != KUNUSED && Tried(g, right[q], |seen2|, seen2)
    {
      if q != r && seen1[q] {
        assert Tried(g, right[q], |seen1|, seen1);
      }
    }
  }

  /** After the first n left nodes: the others are untouched, and those left unmatched are dead. */
  ghost predicate Searched(g: Graph, left: seq<int>, right: seq<int>, n: nat, dl: set<int>, dr: set<int>) {
    && Consistent(g, left, right) && Dead(g, right, dl, dr)
    && (forall l :: n <= l < |left| ==> left[l] == KUNUSED)
    && (forall l :: 0 <= l < n && l < |left| && left[l] == KUNUSED ==> l in dl)
  }

  /** What a failed search visited joins the dead region. */
  lemma DeadGrows(g: Graph, right: seq<int>, seen: seq<bool>, n: nat, dl: set<int>, dr: set<int>)
    returns (dl': set<int>, dr': set<int>)
    requires n < g.numElements && |seen| == |right| == g.numMatchers && Dead(g, right, dl, dr)
    requires forall r :: 0 <= r < |right| && right[r] != KUNUSED ==> 0 <= right[r] < g.numElements
    requires Failure(g, right, seq(|seen|, _ => false), seen, n)
    ensures Dead(g, right, dl', dr') && n in dl' && dl <= dl'
  {
    var visited := set r | 0 <= r < |seen| && seen[r];
    var partners := set r | r in visited :: right[r];
    dl' := dl + {n as int} + partners;
    dr' := dr + visited;
    forall l, r | l in dl' && g.Edge(l, r) ensures r in dr' {
      if l !in dl {
        assert Tried(g, l, |seen|, seen);
      }
    }
  }

  /** One round: the search succeeds, or all it visited joins the dead region. */
  lemma SearchedNext(g: Graph, left0: seq<int>, right0: seq<int>, left: seq<int>, right: seq<int>,
                     seen: seq<bool>, found: bool, n: nat, dl: set<int>, dr: set<int>)
    returns (dl': set<int>, dr': set<int>)
    requires n < g.numElements && |seen| == g.numMatchers
    requires Searched(g, left0, right0, n, dl, dr)
    requires found ==> Success(g, left0, right0, left, right, seq(|seen|, _ => false), n, dl, dr)
    requires !found ==> left == left0 && right == right0 && Failure(g, right, seq(|seen|, _ => false), seen, n)
    ensures Searched(g, left, right, n + 1, dl', dr')
  {
    dl', dr' := dl, dr;
    if !found {
      dl', dr' := DeadGrows(g, right, seen, n, dl, dr);
    }
  }

  // ----- The algorithm -----

  class MaxBipartiteMatchState {
    const graph: Graph
    var left: seq<int>
    var right: seq<int>

    constructor (g: Graph)
      ensures graph == g
      ensures left == seq(g.numElements, _ => KUNUSED)
      ensures right == seq(g.numMatchers, _ => KUNUSED)
    {
      graph := g;
      left := seq(g.numElements, _ => KUNUSED);
      right := seq(g.numMatchers, _ => KUNUSED);
    }

    /** Depth-first search for an augmenting path from ilhs. The ghost dead region is not part of
        the algorithm: it records that a search cannot enter, or change, what earlier searches
        proved hopeless. */
    method TryAugment(ilhs: nat, seen: seq<bool>, ghost dl: set<int>, ghost dr: set<int>)
      returns (found: bool, seen': seq<bool>)
      requires Consistent(graph, left, right)
      requires ilhs < graph.numElements && |seen| == graph.numMatchers
      requires left[ilhs] == KUNUSED || seen[left[ilhs]]
      requires Dead(graph, right, dl, dr)
      modifies this
      ensures Marks(seen, seen')
      ensures !found ==> left == old(left) && right == old(right)
      ensures !found ==> Failure(graph, right, seen, seen', ilhs)
      ensures found ==> Success(graph, old(left), old(right), left, right, seen, ilhs, dl, dr)
      decreases Unseen(seen)
    {
      seen' := seen;
      for irhs := 0 to graph.numMatchers
        invariant left == old(left) && right == old(right)
        invariant Marks(seen, seen')
        invariant Tried(graph, ilhs, irhs, seen') && Exhausted(graph, right, seen, seen')
      {
        if seen'[irhs] || !graph.HasEdge(ilhs, irhs) {
          continue;
        }
        ghost var left0, right0, marked := left, right, seen';
        seen' := seen'[irhs := true];
        var reachesSink := right[irhs] == KUNUSED;
        if reachesSink {
          LinkFreeNode(graph, left, right, seen, ilhs, irhs, dl, dr);
        } else {
          assert irhs in Unseen(seen) && Unseen(seen') < Unseen(seen);
          ghost var entered := seen';
          reachesSink, seen' := TryAugment(right[irhs], seen', dl, dr);
          if reachesSink {
            LinkAfterSearch(graph, left0, right0, left, right, seen, entered, ilhs, irhs, dl, dr);
          } else {
            DeadEnd(graph, right, seen, marked, irhs, seen');
          }
        }
        if reachesSink {
          left := left[ilhs := irhs];
          right := right[irhs := ilhs];
          return true, seen';
        }
      }
      found := false;
    }

    /** The closing loop of Compute. */
    method Links() returns (result: Pairs)
      ensures result == LinksOf(left, |left|)
    {
      result := [];
      for ilhs := 0 to |left|
        invariant result == LinksOf(left, ilhs)
      {
        var irhs := left[ilhs];
        if irhs == KUNUSED {
          continue;
        }
        result := result + [Pair(ilhs, irhs)];
      }
    }

    method Compute() returns (result: Pairs)
      requires left == seq(graph.numElements, _ => KUNUSED)
      requires right == seq(graph.numMatchers, _ => KUNUSED)
      modifies this
      ensures Consistent(graph, left, right)
      ensures result == LinksOf(left, |left|)
      ensures IsMaximum(graph, result)
    {
      ghost var dl: set<int>, dr: set<int> := {}, {};
      for ilhs := 0 to graph.numElements
        invariant Searched(graph, left, right, ilhs, dl, dr)
      {
        assert left[ilhs] == KUNUSED; // GTEST_CHECK_
        ghost var left0, right0 := left, right;
        var found, seen := TryAugment(ilhs, seq(graph.numMatchers, _ => false), dl, dr);
        dl, dr := SearchedNext(graph, left0, right0, left, right, seen, found, ilhs, dl, dr);
      }
      result := Links();
      DeadRegionCertifiesMaximum(graph, left, right, dl, dr);
    }
  }

  method FindMaxBipartiteMatching(g: Graph) returns (result: Pairs)
    ensures IsMaximum(g, result)
  {
    var state := new MaxBipartiteMatchState(g);
    result := state.Compute();
  }

  // ----- UnorderedElementsAre and its relatives -----

  datatype Flags = Superset | Subset | ExactMatch {
    // The bits the source tests: ExactMatch is both.

    predicate CoversMatchers() {
      Superset? || ExactMatch?
    }

    predicate CoversElements() {
      Subset? || ExactMatch?
    }
  }

  /** A pairing that meets the requirement: IsSupersetOf uses every matcher, IsSubsetOf every element,
      and UnorderedElementsAre both. */
  ghost predicate MeetsRequirement(g: Graph, flags: Flags, ps: Pairs) {
    && IsMatching(g, ps)
    && match flags
       case Superset => Rights(ps) == Range(g.numMatchers)
       case Subset => Lefts(ps) == Range(g.numElements)
       case ExactMatch => Rights(ps) == Range(g.numMatchers) && Lefts(ps) == Range(g.numElements)
  }

  ghost predicate PairingExists(g: Graph, flags: Flags) {
    exists ps: Pairs :: MeetsRequirement(g, flags, ps)
  }

  /** Some pairing meets the requirement exactly when a maximum matching is large enough. */
  lemma PairingExistsBySize(g: Graph, flags: Flags, ps: Pairs)
    requires IsMaximum(g, ps)
    ensures PairingExists(g, flags) <==>
            match flags
            case Superset => |ps| >= g.numMatchers
            case Subset => |ps| >= g.numElements
            case ExactMatch => |ps| >= g.numMatchers && |ps| >= g.numElements
  {
    MatchingSize(g, ps);
    if PairingExists(g, flags) {
      var other: Pairs :| MeetsRequirement(g, flags, other);
      MatchingSize(g, other);
    }
    SubsetSize(Rights(ps), Range(g.numMatchers));
    SubsetSize(Lefts(ps), Range(g.numElements));
    assert MeetsRequirement(g, flags, ps) <==>
           match flags
           case Superset => |ps| >= g.numMatchers
           case Subset => |ps| >= g.numElements
           case ExactMatch => |ps| >= g.numMatchers && |ps| >= g.numElements;
  }

  method FindPairing(g: Graph, flags: Flags) returns (ok: bool)
    ensures ok <==> PairingExists(g, flags)
  {
    var matches := FindMaxBipartiteMatching(g);
    PairingExistsBySize(g, flags, matches);
    var maxFlow := |matches|;
    if flags.CoversMatchers() && maxFlow < g.numMatchers {
      return false;
    }
    if flags.CoversElements() && maxFlow < g.numElements {
      return false;
    }
    return true;
  }

  ghost predicate MatcherHasEdge(g: Graph, r: int) {
    exists l :: g.Edge(l, r)
  }

  ghost predicate ElementHasEdge(g: Graph, l: int) {
    exists r :: g.Edge(l, r)
  }

  ghost predicate AllMatchersHaveEdges(g: Graph) {
    forall r :: 0 <= r < g.numMatchers ==> MatcherHasEdge(g, r)
  }

  ghost predicate AllElementsHaveEdges(g: Graph) {
    forall l :: 0 <= l < g.numElements ==> ElementHasEdge(g, l)
  }

  ghost predicate HasNeighbours(g: Graph, flags: Flags) {
    match flags
    case Superset => AllMatchersHaveEdges(g)
    case Subset => AllElementsHaveEdges(g)
    case ExactMatch => g.numElements == g.numMatchers && AllMatchersHaveEdges(g) && AllElementsHaveEdges(g)
  }

  lemma CoveredMatchersHaveEdges(g: Graph, ps: Pairs)
    requires IsMatching(g, ps) && Rights(ps) == Range(g.numMatchers)
    ensures AllMatchersHaveEdges(g)
  {
    forall r | 0 <= r < g.numMatchers
      ensures MatcherHasEdge(g, r)
    {
      assert r in Rights(ps);
      var p :| p in ps && p.matcher == r;
      assert g.Edge(p.element, r);
    }
  }

  lemma CoveredElementsHaveEdges(g: Graph, ps: Pairs)
    requires IsMatching(g, ps) && Lefts(ps) == Range(g.numElements)
    ensures AllElementsHaveEdges(g)
  {
    forall l | 0 <= l < g.numElements
      ensures ElementHasEdge(g, l)
    {
      assert l in Lefts(ps);
      var p :| p in ps && p.element == l;
      assert g.Edge(l, p.matcher);
    }
  }

  /** The pre-filter never rejects a matrix that has a pairing. */
  lemma PairingNeedsNeighbours(g: Graph, flags: Flags)
    requires PairingExists(g, flags)
    ensures HasNeighbours(g, flags)
  {
    var ps: Pairs :| MeetsRequirement(g, flags, ps);
    if !flags.Subset? {
      CoveredMatchersHaveEdges(g, ps);
    }
    if !flags.Superset? {
      CoveredElementsHaveEdges(g, ps);
    }
    if flags.ExactMatch? {
      MatchingSize(g, ps);
    }
  }

  method VerifyMatchMatrix(g: Graph, flags: Flags) returns (ok: bool)
    ensures ok <==> HasNeighbours(g, flags)
  {
    if g.numElements == 0 && g.numMatchers == 0 {
      return true;
    }
    ok := !(flags.ExactMatch? && g.numElements != g.numMatchers);
    var elementMatched := seq(g.numElements, _ => false);
    var matcherMatched := seq(g.numMatchers, _ => false);
    for ilhs := 0 to g.numElements
      invariant |elementMatched| == g.numElements && |matcherMatched| == g.numMatchers
      invariant forall l :: 0 <= l < g.numElements ==> (elementMatched[l] <==> l < ilhs && ElementHasEdge(g, l))
      invariant forall r :: 0 <= r < g.numMatchers ==> (matcherMatched[r] <==> exists l :: l < ilhs && g.Edge(l, r))
    {
      for irhs := 0 to g.numMatchers
        invariant |elementMatched| == g.numElements && |matcherMatched| == g.numMatchers
        invariant forall l :: 0 <= l < g.numElements && l != ilhs ==>
                                (elementMatched[l] <==> l < ilhs && ElementHasEdge(g, l))
        invariant elementMatched[ilhs] <==> exists r :: r < irhs && g.Edge(ilhs, r)
        invariant forall r :: 0 <= r < g.numMatchers ==>
                                (matcherMatched[r] <==>
                                   exists l :: (l < ilhs || (l == ilhs && r < irhs)) && g.Edge(l, r))
      {
        var matched := g.HasEdge(ilhs, irhs);
        assert matched <==> g.Edge(ilhs, irhs);
        elementMatched := elementMatched[ilhs := elementMatched[ilhs] || matched];
        matcherMatched := matcherMatched[irhs := matcherMatched[irhs] || matched];
      }
    }
    assert forall r :: 0 <= r < g.numMatchers ==> (matcherMatched[r] <==> MatcherHasEdge(g, r));
    if flags.CoversMatchers() {
      for mi := 0 to |matcherMatched|
        invariant ok <==> !(flags.ExactMatch? && g.numElements != g.numMatchers)
                          && forall r :: 0 <= r < mi ==> matcherMatched[r]
      {
        if !matcherMatched[mi] {
          ok := false;
        }
      }
    }
    ghost var soFar := ok;
    if flags.CoversElements() {
      for ei := 0 to |elementMatched|
        invariant ok <==> soFar && forall l :: 0 <= l < ei ==> elementMatched[l]
      {
        if !elementMatched[ei] {
          ok := false;
        }
      }
    }
  }

  /** The verdict of UnorderedElementsAre, IsSupersetOf and IsSubsetOf. */
  method MatchAndExplain(g: Graph, flags: Flags) returns (ok: bool)
    ensures ok <==> PairingExists(g, flags)
  {
    ok := VerifyMatchMatrix(g, flags);
    if ok {
      ok := FindPairing(g, flags);
    } else if PairingExists(g, flags) {
      PairingNeedsNeighbours(g, flags);
    }
  }
}
