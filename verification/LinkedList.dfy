/** The intrusive doubly linked list of qstorage's tools. */
module LinkedList {
  import opened Sequences

  class Node {
    var prev: Node?
    var next: Node?

    constructor ()
      ensures prev == next == null
    {
      prev, next := null, null;
    }
  }

  ghost predicate Distinct<T>(s: seq<T>) {
    forall i, j :: 0 <= i < j < |s| ==> s[i] != s[j]
  }

  /** The links of consecutive nodes agree with the sequence, in both directions. */
  ghost predicate Linked(nodes: seq<Node>)
    reads nodes
  {
    && Distinct(nodes)
    && (forall i {:trigger nodes[i].next} :: 0 <= i < |nodes| ==>
          nodes[i].next == if i + 1 < |nodes| then nodes[i + 1] else null)
    && (forall i {:trigger nodes[i].prev} :: 0 <= i < |nodes| ==>
          nodes[i].prev == if i > 0 then nodes[i - 1] else null)
  }

  ghost function Splice<T>(s: seq<T>, k: nat): (r: seq<T>)
    requires k < |s|
    ensures |r| == |s| - 1 && forall i :: 0 <= i < |r| ==> r[i] == if i < k then s[i] else s[i + 1]
  {
    s[..k] + s[k + 1..]
  }

  lemma SpliceDistinct<T>(s: seq<T>, k: nat)
    requires k < |s| && Distinct(s)
    ensures Distinct(Splice(s, k)) && s[k] !in Splice(s, k)
  {
  }

  ghost function Grown<T>(s: seq<T>, k: nat, x: T): (r: seq<T>)
    requires k < |s|
    ensures |r| == |s| + 1
    ensures forall i :: 0 <= i < |r| ==> r[i] == if i <= k then s[i] else if i == k + 1 then x else s[i - 1]
  {
    s[..k + 1] + [x] + s[k + 1..]
  }

  lemma GrownDistinct<T>(s: seq<T>, k: nat, x: T)
    requires k < |s| && Distinct(s) && x !in s
    ensures Distinct(Grown(s, k, x))
  {
  }

  class ListBase {
    var count: nat
    var start: Node?
    var end: Node?
    ghost var nodes: seq<Node>

    /** The links, the ends and the count are those of a list of these nodes. */
    ghost predicate Represents(s: seq<Node>)
      reads this, s
    {
      && Linked(s)
      && count == |s|
      && start == (if s == [] then null else s[0])
      && end == (if s == [] then null else s[|s| - 1])
    }

    ghost predicate Valid()
      reads this, nodes
    {
      Represents(nodes)
    }

    constructor ()
      ensures Valid() && nodes == []
    {
      count, start, end := 0, null, null;
      nodes := [];
    }

    method Prepend(elem: Node)
      requires Valid() && elem !in nodes
      modifies this, nodes, elem
      ensures Valid() && nodes == [elem] + old(nodes)
    {
      elem.prev := null;
      elem.next := start;
      if start != null {
        start.prev := elem;
      }
      start := elem;
      if end == null {
        end := elem;
      }
      count := count + 1;
      nodes := [elem] + nodes;
    }

    method Append(elem: Node)
      requires Valid() && elem !in nodes
      modifies this, nodes, elem
      ensures Valid() && nodes == old(nodes) + [elem]
    {
      elem.next := null;
      elem.prev := end;
      if end != null {
        end.next := elem;
      }
      end := elem;
      if start == null {
        start := elem;
      }
      count := count + 1;
      nodes := nodes + [elem];
    }

    /** Unlinks an element; its own links are cleared, so it can be added to a list again. */
    method Remove(elem: Node, ghost k: nat)
      requires Valid() && k < |nodes| && nodes[k] == elem
      modifies this, nodes
      ensures Valid() && nodes == Splice(old(nodes), k)
      ensures elem !in nodes && elem.prev == elem.next == null
    {
      SpliceDistinct(nodes, k);
      ghost var rest := Splice(nodes, k);
      assert elem.next == (if k < |rest| then rest[k] else null) && elem.prev == if k > 0 then rest[k - 1] else null;
      if elem.next != null {
        elem.next.prev := elem.prev;
      } else {
        end := elem.prev;
      }
      if elem.prev != null {
        elem.prev.next := elem.next;
      } else {
        start := elem.next;
      }
      elem.next := null;
      elem.prev := null;
      count := count - 1;
      ghost var was := nodes;
      nodes := rest;
      forall i | 0 <= i < |rest|
        ensures rest[i].next == if i + 1 < |rest| then rest[i + 1] else null
        ensures rest[i].prev == if i > 0 then rest[i - 1] else null
      {
        assert i < k ==> rest[i] == was[i];
        assert i >= k ==> rest[i] == was[i + 1];
      }
      assert Linked(nodes);
    }

    /** The nodes in the order the forward traversal visits them; its closing assertion holds. */
    method Map() returns (visited: seq<Node>)
      requires Valid()
      ensures visited == nodes
    {
      visited := [];
      var n := 0;
      var curr := start;
      while curr != null
        invariant 0 <= n <= |nodes| && visited == nodes[..n]
        invariant curr == if n < |nodes| then nodes[n] else null
        decreases |nodes| - n
      {
        visited := visited + [curr];
        curr := curr.next;
        n := n + 1;
      }
      assert n == count;
    }

    /** Both traversals reach every node, so neither assertion fails. */
    method Validate() returns (forward: seq<Node>, backward: seq<Node>)
      requires Valid()
      ensures forward == nodes && backward == Reversed(nodes)
    {
      forward := Map();
      backward := [];
      var n := 0;
      var curr := end;
      while curr != null
        invariant 0 <= n <= |nodes| && backward == Reversed(nodes)[..n]
        invariant curr == if n < |nodes| then nodes[|nodes| - 1 - n] else null
        decreases |nodes| - n
      {
        backward := backward + [curr];
        curr := curr.prev;
        n := n + 1;
      }
      assert n == count;
    }

    /** Insert as the source writes it, with its test of the end pointer inverted: the links and the
        count come out right, but the end pointer never does, so the list represents no sequence. */
    method Insert(pos: Node, elem: Node, ghost k: nat)
      requires Valid() && k < |nodes| && nodes[k] == pos && elem !in nodes
      modifies this, nodes, elem
      ensures nodes == Grown(old(nodes), k, elem)
      ensures Linked(nodes) && count == |nodes| && start == nodes[0]
      ensures end != nodes[|nodes| - 1] && forall s :: !Represents(s)
    {
      LinkAfter(pos, elem, nodes, k);
      if end != pos {
        end := elem;
      }
      count := count + 1;
      nodes := Grown(nodes, k, elem);
      WrongEnd(this, nodes);
    }
  }

  /** The links of Insert. */
  method LinkAfter(pos: Node, elem: Node, ghost nodes: seq<Node>, ghost k: nat)
    requires Linked(nodes) && k < |nodes| && nodes[k] == pos && elem !in nodes
    modifies nodes, elem
    ensures Linked(Grown(nodes, k, elem))
  {
    GrownDistinct(nodes, k, elem);
    elem.prev := pos;
    elem.next := pos.next;
    if pos.next != null {
      pos.next.prev := elem;
    }
    pos.next := elem;
    ghost var grown := Grown(nodes, k, elem);
    forall i | 0 <= i < |grown|
      ensures grown[i].next == if i + 1 < |grown| then grown[i + 1] else null
      ensures grown[i].prev == if i > 0 then grown[i - 1] else null
    {
      assert i <= k ==> grown[i] == nodes[i];
      assert i > k + 1 ==> grown[i] == nodes[i - 1];
    }
  }

  /** The first node and the links determine the sequence. */
  lemma SameLinks(s: seq<Node>, t: seq<Node>)
    requires Linked(s) && Linked(t) && s != [] && t != [] && s[0] == t[0]
    ensures s == t
  {
    SameSoFar(s, t, |s| - 1);
    SameSoFar(t, s, |t| - 1);
  }

  lemma {:induction false} SameSoFar(s: seq<Node>, t: seq<Node>, i: nat)
    requires Linked(s) && Linked(t) && s != [] && t != [] && s[0] == t[0] && i < |s|
    ensures i < |t| && forall k :: 0 <= k <= i ==> s[k] == t[k]
  {
    if i > 0 {
      SameSoFar(s, t, i - 1);
      assert s[i - 1].next == s[i] && t[i - 1].next == s[i];
    }
  }

  lemma WrongEnd(list: ListBase, nodes: seq<Node>)
    requires nodes != [] && Linked(nodes) && list.start == nodes[0] && list.end != nodes[|nodes| - 1]
    ensures forall s :: !list.Represents(s)
  {
    forall s: seq<Node> | list.Represents(s) ensures false {
      SameLinks(s, nodes);
    }
  }

  // ----- Runs -----

  datatype Op = Prepend(elem: Node) | Append(elem: Node) | Remove(elem: Node)

  ghost function Without(s: seq<Node>, x: Node): (r: seq<Node>) {
    if s == [] then [] else if s[0] == x then s[1..] else [s[0]] + Without(s[1..], x)
  }

  ghost function After(s: seq<Node>, op: Op): seq<Node> {
    match op
    case Prepend(x) => [x] + s
    case Append(x) => s + [x]
    case Remove(x) => Without(s, x)
  }

  ghost function AfterAll(s: seq<Node>, ops: seq<Op>): seq<Node>
    decreases ops
  {
    if ops == [] then s else AfterAll(After(s, ops[0]), ops[1..])
  }

  /** Elements are added only when absent and removed only when present. */
  ghost predicate Allowed(s: seq<Node>, ops: seq<Op>)
    decreases ops
  {
    ops == [] || ((ops[0].Remove? <==> ops[0].elem in s) && Allowed(After(s, ops[0]), ops[1..]))
  }

  lemma {:induction false} WithoutIsSplice(s: seq<Node>, x: Node, k: nat)
    requires Distinct(s) && k < |s| && s[k] == x
    ensures Without(s, x) == Splice(s, k)
  {
    if k > 0 {
      WithoutIsSplice(s[1..], x, k - 1);
    }
  }

  lemma {:induction false} WithoutWithin(s: seq<Node>, x: Node)
    ensures forall y :: y in Without(s, x) ==> y in s
  {
    if s != [] && s[0] != x {
      WithoutWithin(s[1..], x);
    }
  }

  lemma AfterWithin(s: seq<Node>, op: Op)
    ensures forall y :: y in After(s, op) ==> y in s || y == op.elem
  {
    if op.Remove? {
      WithoutWithin(s, op.elem);
    }
  }

  /** One round: the operation has its effect on the sequence, and its element stays in reach. */
  method Perform(list: ListBase, op: Op)
    requires list.Valid() && (op.Remove? <==> op.elem in list.nodes)
    modifies list, list.nodes, op.elem
    ensures list.Valid() && list.nodes == After(old(list.nodes), op)
  {
    match op
    case Prepend(x) => list.Prepend(x);
    case Append(x) => list.Append(x);
    case Remove(x) =>
      ghost var k :| 0 <= k < |list.nodes| && list.nodes[k] == x;
      WithoutIsSplice(list.nodes, x, k);
      list.Remove(x, k);
  }

  lemma NextAllowed(s: seq<Node>, ops: seq<Op>, i: nat)
    requires i < |ops| && Allowed(s, ops[i..])
    ensures ops[i].Remove? <==> ops[i].elem in s
    ensures Allowed(After(s, ops[i]), ops[i + 1..])
    ensures AfterAll(s, ops[i..]) == AfterAll(After(s, ops[i]), ops[i + 1..])
  {
    assert ops[i..][0] == ops[i] && ops[i..][1..] == ops[i + 1..];
  }

  ghost predicate Within(s: seq<Node>, universe: set<Node>) {
    forall x :: x in s ==> x in universe
  }

  /** Over any run of allowed operations the list holds exactly what the sequence of operations says,
      read forwards from the start and backwards from the end. */
  method Run(list: ListBase, ops: seq<Op>, ghost universe: set<Node>) returns (forward: seq<Node>, backward: seq<Node>)
    requires list.Valid() && Allowed(list.nodes, ops)
    requires Within(list.nodes, universe) && forall op :: op in ops ==> op.elem in universe
    modifies list, universe
    ensures list.Valid() && list.nodes == AfterAll(old(list.nodes), ops)
    ensures forward == list.nodes && backward == Reversed(list.nodes)
  {
    for i := 0 to |ops|
      invariant list.Valid() && Within(list.nodes, universe)
      invariant Allowed(list.nodes, ops[i..]) && AfterAll(list.nodes, ops[i..]) == AfterAll(old(list.nodes), ops)
    {
      assert ops[i] in ops;
      NextAllowed(list.nodes, ops, i);
      AfterWithin(list.nodes, ops[i]);
      Perform(list, ops[i]);
    }
    forward, backward := list.Validate();
  }
}
