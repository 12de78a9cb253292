/** The edit-distance table of googletest's CalculateOptimalEdits and the scripts it yields.
    Costs are the source's doubles scaled by 100000, so that they are exact. */
module EditScript {
  import opened Arithmetic
  import opened Sequences

  datatype EditType = Match | Add | Remove | Replace

  const UNIT := 100000
  const REPLACE_UNIT := 100001

  /** How many elements a move takes from the left and from the right. */
  function TakesLeft(e: EditType): nat {
    if e == Add then 0 else 1
  }

  function TakesRight(e: EditType): nat {
    if e == Remove then 0 else 1
  }

  // ----- Scripts -----

  /** edits turns left into right: it matches only equal elements and consumes both exactly. */
  ghost predicate IsScript<T>(edits: seq<EditType>, left: seq<T>, right: seq<T>) {
    if edits == [] then left == [] && right == []
    else
      var l, r := TakesLeft(edits[0]), TakesRight(edits[0]);
      && l <= |left| && r <= |right|
      && (edits[0] == Match ==> left[0] == right[0])
      && IsScript(edits[1..], left[l..], right[r..])
  }

  function EditCost(e: EditType): nat {
    match e
    case Match => 0
    case Replace => REPLACE_UNIT
    case _ => UNIT
  }

  /** Additions and removals cost the same, and replacing only so little more that n replacements are
      cheaper than n + 1 of them until there are 100000. */
  lemma ReplaceCostsLittleMore(n: nat)
    ensures EditCost(Match) == 0 < EditCost(Add) == EditCost(Remove)
    ensures n * EditCost(Replace) < (n + 1) * EditCost(Add) <==> n < 100000
  {
  }

  ghost function ScriptCost(edits: seq<EditType>): nat {
    if edits == [] then 0 else ScriptCost(edits[..|edits| - 1]) + EditCost(edits[|edits| - 1])
  }

  ghost predicate Optimal<T>(edits: seq<EditType>, left: seq<T>, right: seq<T>) {
    && IsScript(edits, left, right)
    && forall other :: IsScript(other, left, right) ==> ScriptCost(edits) <= ScriptCost(other)
  }

  // The same notion by positions: edits lead from the origin of the table to (l, r).

  /** A left and a right index. */
  datatype Pos = Pos(l: nat, r: nat)

  /** Where the two sequences agree. This is all the table looks at. */
  ghost function Agreement<T>(left: seq<T>, right: seq<T>): (same: set<Pos>)
    ensures forall p :: p in same <==> p.l < |left| && p.r < |right| && left[p.l] == right[p.r]
  {
    set l: nat, r: nat | l < |left| && r < |right| && left[l] == right[r] :: Pos(l, r)
  }

  ghost predicate Reaches(edits: seq<EditType>, same: set<Pos>, l: nat, r: nat)
    decreases |edits|
  {
    if edits == [] then l == 0 && r == 0
    else
      var e := edits[|edits| - 1];
      && TakesLeft(e) <= l && TakesRight(e) <= r
      && (e == Match ==> Pos(l - 1, r - 1) in same)
      && Reaches(edits[..|edits| - 1], same, l - TakesLeft(e), r - TakesRight(e))
  }

  lemma ReachesNext(edits: seq<EditType>, e: EditType, same: set<Pos>, l: nat, r: nat)
    requires Reaches(edits, same, l, r) && (e == Match ==> Pos(l, r) in same)
    ensures Reaches(edits + [e], same, l + TakesLeft(e), r + TakesRight(e))
    ensures ScriptCost(edits + [e]) == ScriptCost(edits) + EditCost(e)
  {
    assert (edits + [e])[..|edits|] == edits;
  }

  lemma DropDrop<T>(s: seq<T>, k: nat, m: nat)
    requires k + m <= |s|
    ensures s[k..][m..] == s[k + m..] && (m > 0 ==> s[k..][0] == s[k])
  {
  }

  lemma LastMovesOver(edits: seq<EditType>, tail: seq<EditType>)
    requires edits != []
    ensures edits[..|edits| - 1] + ([edits[|edits| - 1]] + tail) == edits + tail
  {
  }

  lemma ScriptCons<T>(e: EditType, tail: seq<EditType>, left: seq<T>, right: seq<T>)
    requires TakesLeft(e) <= |left| && TakesRight(e) <= |right| && (e == Match ==> left[0] == right[0])
    requires IsScript(tail, left[TakesLeft(e)..], right[TakesRight(e)..])
    ensures IsScript([e] + tail, left, right)
  {
    assert ([e] + tail)[1..] == tail;
  }

  /** What reaches (l, r), followed by a script for what remains, is a script. */
  lemma {:induction false} ReachedThenScript<T>(edits: seq<EditType>, tail: seq<EditType>, left: seq<T>, right: seq<T>,
                                                l: nat, r: nat)
    requires l <= |left| && r <= |right| && Reaches(edits, Agreement(left, right), l, r)
    requires IsScript(tail, left[l..], right[r..])
    ensures IsScript(edits + tail, left, right)
    decreases |edits|
  {
    if edits == [] {
      assert left[0..] == left && right[0..] == right && edits + tail == tail;
    } else {
      var e := edits[|edits| - 1];
      var l', r' := l - TakesLeft(e), r - TakesRight(e);
      DropDrop(left, l', TakesLeft(e));
      DropDrop(right, r', TakesRight(e));
      ScriptCons(e, tail, left[l'..], right[r'..]);
      ReachedThenScript(edits[..|edits| - 1], [e] + tail, left, right, l', r');
      LastMovesOver(edits, tail);
    }
  }

  lemma FirstMovesOver(edits: seq<EditType>, tail: seq<EditType>)
    requires tail != []
    ensures edits + [tail[0]] + tail[1..] == edits + tail
  {
  }

  lemma {:induction false} ScriptReaches<T>(edits: seq<EditType>, tail: seq<EditType>, left: seq<T>, right: seq<T>,
                                            l: nat, r: nat)
    requires l <= |left| && r <= |right| && Reaches(edits, Agreement(left, right), l, r)
    requires IsScript(tail, left[l..], right[r..])
    ensures Reaches(edits + tail, Agreement(left, right), |left|, |right|)
    decreases |tail|
  {
    if tail == [] {
      assert edits + tail == edits;
    } else {
      var e := tail[0];
      DropDrop(left, l, TakesLeft(e));
      DropDrop(right, r, TakesRight(e));
      ReachesNext(edits, e, Agreement(left, right), l, r);
      ScriptReaches(edits + [e], tail[1..], left, right, l + TakesLeft(e), r + TakesRight(e));
      FirstMovesOver(edits, tail);
    }
  }

  lemma ScriptIffReaches<T>(edits: seq<EditType>, left: seq<T>, right: seq<T>)
    ensures IsScript(edits, left, right) <==> Reaches(edits, Agreement(left, right), |left|, |right|)
  {
    assert left[0..] == left && right[0..] == right && [] + edits == edits == edits + [];
    if IsScript(edits, left, right) {
      ScriptReaches([], edits, left, right, 0, 0);
    }
    if Reaches(edits, Agreement(left, right), |left|, |right|) {
      assert left[|left|..] == [] && right[|right|..] == [];
      ReachedThenScript(edits, [], left, right, |left|, |right|);
    }
  }

  // ----- The table -----

  datatype Entry = Entry(cost: nat, move: EditType)

  /** The rule that fills the cell below and to the right of three neighbours. */
  function Choose(add: nat, remove: nat, replace: nat): Entry {
    if add < remove && add < replace then Entry(add + UNIT, Add)
    else if remove < add && remove < replace then Entry(remove + UNIT, Remove)
    else Entry(replace + REPLACE_UNIT, Replace)
  }

  function Fill(same: bool, add: nat, remove: nat, replace: nat): (c: Entry)
    ensures c.move == Match <==> same
  {
    if same then Entry(replace, Match) else Choose(add, remove, replace)
  }

  ghost function Cell(same: set<Pos>, l: nat, r: nat): (c: Entry)
    ensures l > 0 || r > 0 ==> TakesLeft(c.move) <= l && TakesRight(c.move) <= r
    decreases l + r
  {
    if r == 0 then Entry(l * UNIT, Remove)
    else if l == 0 then Entry(r * UNIT, Add)
    else
      Fill(Pos(l - 1, r - 1) in same, Cell(same, l, r - 1).cost, Cell(same, l - 1, r).cost,
           Cell(same, l - 1, r - 1).cost)
  }

  /** The moves met when walking back from a cell to the origin, in forward order. */
  ghost function Path(same: set<Pos>, l: nat, r: nat): seq<EditType>
    decreases l + r
  {
    if l == 0 && r == 0 then []
    else
      var move := Cell(same, l, r).move;
      Path(same, l - TakesLeft(move), r - TakesRight(move)) + [move]
  }

  ghost function BestPath<T>(left: seq<T>, right: seq<T>): seq<EditType> {
    Path(Agreement(left, right), |left|, |right|)
  }

  lemma MatchCell(same: set<Pos>, l: nat, r: nat)
    requires (l > 0 || r > 0) && Cell(same, l, r).move == Match
    ensures l > 0 && r > 0 && Pos(l - 1, r - 1) in same
  {
  }

  /** A cell costs what its move adds to the cell it came from. */
  lemma CellCost(same: set<Pos>, l: nat, r: nat)
    requires l > 0 || r > 0
    ensures var e := Cell(same, l, r).move;
            Cell(same, l, r).cost == Cell(same, l - TakesLeft(e), r - TakesRight(e)).cost + EditCost(e)
  {
  }

  /** What reaches the cell the move came from goes on with that move, at the table's price. */
  lemma ExtendByMove(same: set<Pos>, l: nat, r: nat, move: EditType, front: seq<EditType>, edits: seq<EditType>)
    requires (l > 0 || r > 0) && move == Cell(same, l, r).move && edits == front + [move]
    requires Reaches(front, same, l - TakesLeft(move), r - TakesRight(move))
    ensures Reaches(edits, same, l, r)
    ensures ScriptCost(edits) - Cell(same, l, r).cost
            == ScriptCost(front) - Cell(same, l - TakesLeft(move), r - TakesRight(move)).cost
  {
    if move == Match {
      MatchCell(same, l, r);
    }
    ReachesNext(front, move, same, l - TakesLeft(move), r - TakesRight(move));
    CellCost(same, l, r);
  }

  lemma PathUnfolds(same: set<Pos>, l: nat, r: nat)
    requires l > 0 || r > 0
    ensures var move := Cell(same, l, r).move;
            Path(same, l, r) == Path(same, l - TakesLeft(move), r - TakesRight(move)) + [move]
  {
  }

  /** The last step of the path, and the cell it comes from. */
  lemma LastStep(same: set<Pos>, l: nat, r: nat) returns (move: EditType, l': nat, r': nat)
    requires l > 0 || r > 0
    ensures l == l' + TakesLeft(move) && r == r' + TakesRight(move) && (move == Match ==> Pos(l', r') in same)
    ensures Path(same, l, r) == Path(same, l', r') + [move]
    ensures Cell(same, l, r).cost == Cell(same, l', r').cost + EditCost(move)
  {
    move := Cell(same, l, r).move;
    l', r' := l - TakesLeft(move), r - TakesRight(move);
    PathUnfolds(same, l, r);
    CellCost(same, l, r);
    if move == Match {
      MatchCell(same, l, r);
    }
  }

  /** The path leads to its cell, and the table holds what it costs. */
  lemma {:induction false} PathReaches(same: set<Pos>, l: nat, r: nat)
    ensures Reaches(Path(same, l, r), same, l, r)
    ensures ScriptCost(Path(same, l, r)) == Cell(same, l, r).cost
    decreases l + r
  {
    if l != 0 || r != 0 {
      var move, l', r' := LastStep(same, l, r);
      PathReaches(same, l', r');
      ReachesNext(Path(same, l', r'), move, same, l', r');
    }
  }

  /** The path found is a script, and costs what the table's last cell says. */
  lemma BestPathIsScript<T>(left: seq<T>, right: seq<T>)
    ensures IsScript(BestPath(left, right), left, right)
    ensures ScriptCost(BestPath(left, right)) == Cell(Agreement(left, right), |left|, |right|).cost
  {
    PathReaches(Agreement(left, right), |left|, |right|);
    ScriptIffReaches(BestPath(left, right), left, right);
  }

  lemma {:induction false} MatchesOnly<T>(edits: seq<EditType>, left: seq<T>, right: seq<T>)
    requires IsScript(edits, left, right) && forall e :: e in edits ==> e == Match
    ensures left == right
  {
    if edits != [] {
      assert forall e :: e in edits[1..] ==> e in edits;
      assert edits[0] in edits;
      MatchesOnly(edits[1..], left[1..], right[1..]);
      assert left == [left[0]] + left[1..] && right == [right[0]] + right[1..];
    }
  }

  lemma {:induction false} DiagonalPath<T>(s: seq<T>, l: nat)
    requires l <= |s|
    ensures forall e :: e in Path(Agreement(s, s), l, l) ==> e == Match
  {
    if l > 0 {
      DiagonalPath(s, l - 1);
      assert Pos(l - 1, l - 1) in Agreement(s, s);
    }
  }

  /** No edit is reported exactly when there is nothing to edit. */
  lemma AllMatchesIffEqual<T>(left: seq<T>, right: seq<T>)
    ensures (forall e :: e in BestPath(left, right) ==> e == Match) <==> left == right
  {
    BestPathIsScript(left, right);
    if left == right {
      DiagonalPath(left, |left|);
    }
    if forall e :: e in BestPath(left, right) ==> e == Match {
      MatchesOnly(BestPath(left, right), left, right);
    }
  }

  // ----- When the script is optimal -----

  /** The least cost of reaching (l, r): the cheapest of all moves that lead there. */
  ghost function Least(same: set<Pos>, l: nat, r: nat): nat
    decreases l + r
  {
    if r == 0 then l * UNIT
    else if l == 0 then r * UNIT
    else
      Min(Min(Least(same, l, r - 1), Least(same, l - 1, r)) + UNIT,
          Least(same, l - 1, r - 1) + if Pos(l - 1, r - 1) in same then 0 else REPLACE_UNIT)
  }

  lemma LeastStep(same: set<Pos>, l: nat, r: nat, e: EditType)
    requires TakesLeft(e) <= l && TakesRight(e) <= r && (e == Match ==> Pos(l - 1, r - 1) in same)
    ensures Least(same, l, r) <= Least(same, l - TakesLeft(e), r - TakesRight(e)) + EditCost(e)
  {
  }

  /** No way to a position is cheaper. */
  lemma {:induction false} LeastIsBound(same: set<Pos>, l: nat, r: nat, edits: seq<EditType>)
    requires Reaches(edits, same, l, r)
    ensures Least(same, l, r) <= ScriptCost(edits)
    decreases |edits|
  {
    if edits != [] {
      var e := edits[|edits| - 1];
      LeastIsBound(same, l - TakesLeft(e), r - TakesRight(e), edits[..|edits| - 1]);
      LeastStep(same, l, r, e);
    }
  }

  /** Which move attains the least cost. */
  lemma LeastMove(same: set<Pos>, l: nat, r: nat) returns (e: EditType)
    requires l > 0 || r > 0
    ensures TakesLeft(e) <= l && TakesRight(e) <= r && (e == Match ==> Pos(l - 1, r - 1) in same)
    ensures Least(same, l, r) == Least(same, l - TakesLeft(e), r - TakesRight(e)) + EditCost(e)
  {
    if l == 0 || r == 0 {
      e := if r == 0 then Remove else Add;
    } else {
      var diagonal := if Pos(l - 1, r - 1) in same then Match else Replace;
      e := if Least(same, l, r) == Least(same, l, r - 1) + UNIT then Add
           else if Least(same, l, r) == Least(same, l - 1, r) + UNIT then Remove
           else diagonal;
    }
  }

  /** And some way costs just that. */
  lemma {:induction false} LeastIsReached(same: set<Pos>, l: nat, r: nat) returns (edits: seq<EditType>)
    ensures Reaches(edits, same, l, r) && ScriptCost(edits) == Least(same, l, r)
    decreases l + r
  {
    if l == 0 && r == 0 {
      edits := [];
    } else {
      var e := LeastMove(same, l, r);
      var front := LeastIsReached(same, l - TakesLeft(e), r - TakesRight(e));
      ReachesNext(front, e, same, l - TakesLeft(e), r - TakesRight(e));
      edits := front + [e];
    }
  }

  /** The script is optimal exactly when the greedy rule has arrived at the least cost in the last cell. */
  lemma OptimalIffLeast<T>(left: seq<T>, right: seq<T>)
    ensures var same := Agreement(left, right);
            Optimal(BestPath(left, right), left, right)
            <==> Cell(same, |left|, |right|).cost == Least(same, |left|, |right|)
  {
    var same := Agreement(left, right);
    BestPathIsScript(left, right);
    ScriptIffReaches(BestPath(left, right), left, right);
    LeastIsBound(same, |left|, |right|, BestPath(left, right));
    var cheapest := LeastIsReached(same, |left|, |right|);
    ScriptIffReaches(cheapest, left, right);
    forall other | IsScript(other, left, right)
      ensures Least(same, |left|, |right|) <= ScriptCost(other)
    {
      ScriptIffReaches(other, left, right);
      LeastIsBound(same, |left|, |right|, other);
    }
  }

  ghost predicate TiedCosts(add: nat, remove: nat, replace: nat) {
    (add == remove && add < replace) || (replace == add <= remove) || (replace == remove <= add)
  }

  /** The cells where the rule does not take the cheapest of the three moves: adding and removing
      tie below replacing, or replacing ties with the cheaper of the two. */
  ghost predicate Tied(same: set<Pos>, l: nat, r: nat)
    requires 0 < l && 0 < r
  {
    && Pos(l - 1, r - 1) !in same
    && TiedCosts(Cell(same, l, r - 1).cost, Cell(same, l - 1, r).cost, Cell(same, l - 1, r - 1).cost)
  }

  /** The rule by itself, on the three costs: the neighbour that is strictly the cheapest, or else the
      diagonal one. */
  lemma ChooseRule(add: nat, remove: nat, replace: nat)
    ensures var c := Choose(add, remove, replace);
            && (c.move == Add <==> add < remove && add < replace)
            && (c.move == Remove <==> remove < add && remove < replace)
            && c.move != Match
            && (TiedCosts(add, remove, replace) ==> c.move == Replace && Min(add, remove) + UNIT < c.cost)
            && (!TiedCosts(add, remove, replace) ==>
                  c.cost <= add + UNIT && c.cost <= remove + UNIT && c.cost <= replace + REPLACE_UNIT)
  {
  }

  /** In any table, tied or not: wherever the elements differ, the move comes from the neighbour that is
      strictly the cheapest of the three, or else replaces. */
  lemma MoveOfCell(same: set<Pos>, l: nat, r: nat)
    requires 0 < l && 0 < r && Pos(l - 1, r - 1) !in same
    ensures var add, remove := Cell(same, l, r - 1).cost, Cell(same, l - 1, r).cost;
            var replace, move := Cell(same, l - 1, r - 1).cost, Cell(same, l, r).move;
            && (move == Add <==> add < remove && add < replace)
            && (move == Remove <==> remove < add && remove < replace)
            && (replace <= add && replace <= remove ==> move == Replace)
            && (Tied(same, l, r) ==> move == Replace) && move != Match
  {
    CellUnfolds(same, l, r);
    ChooseRule(Cell(same, l, r - 1).cost, Cell(same, l - 1, r).cost, Cell(same, l - 1, r - 1).cost);
  }

  /** An untied cell takes the cheapest of the three moves, however many ties lie elsewhere. */
  lemma UntiedIsCheapest(same: set<Pos>, l: nat, r: nat, e: EditType)
    requires 0 < l && 0 < r && Pos(l - 1, r - 1) !in same && !Tied(same, l, r) && e != Match
    ensures Cell(same, l, r).cost <= Cell(same, l - TakesLeft(e), r - TakesRight(e)).cost + EditCost(e)
  {
    CellUnfolds(same, l, r);
    ChooseRule(Cell(same, l, r - 1).cost, Cell(same, l - 1, r).cost, Cell(same, l - 1, r - 1).cost);
  }

  ghost predicate TieFreeUpTo(same: set<Pos>, rows: nat, columns: nat) {
    forall l: nat, r: nat {:trigger Tied(same, l, r)} | 0 < l <= rows && 0 < r <= columns :: !Tied(same, l, r)
  }

  ghost predicate TieFree<T>(left: seq<T>, right: seq<T>) {
    TieFreeUpTo(Agreement(left, right), |left|, |right|)
  }

  lemma FillBounds(same: bool, add: nat, remove: nat, replace: nat)
    requires add <= replace + UNIT && replace <= add + UNIT && remove <= replace + UNIT && replace <= remove + UNIT
    requires same || !TiedCosts(add, remove, replace)
    ensures var cost := Fill(same, add, remove, replace).cost;
            && cost <= add + UNIT && add <= cost + UNIT && cost <= remove + UNIT && remove <= cost + UNIT
            && cost <= replace + REPLACE_UNIT
  {
  }

  /** In a tie-free table neighbouring costs differ by at most one unit. */
  lemma {:induction false} NeighbourCosts(same: set<Pos>, rows: nat, columns: nat, l: nat, r: nat)
    requires TieFreeUpTo(same, rows, columns) && l <= rows && r <= columns
    ensures l > 0 ==> Cell(same, l, r).cost <= Cell(same, l - 1, r).cost + UNIT
    ensures r > 0 ==> Cell(same, l, r).cost <= Cell(same, l, r - 1).cost + UNIT
    ensures l > 0 ==> Cell(same, l - 1, r).cost <= Cell(same, l, r).cost + UNIT
    ensures r > 0 ==> Cell(same, l, r - 1).cost <= Cell(same, l, r).cost + UNIT
    decreases l + r
  {
    if l > 0 && r > 0 {
      NeighbourCosts(same, rows, columns, l - 1, r);
      NeighbourCosts(same, rows, columns, l, r - 1);
      assert !Tied(same, l, r);
      FillBounds(Pos(l - 1, r - 1) in same, Cell(same, l, r - 1).cost, Cell(same, l - 1, r).cost,
                 Cell(same, l - 1, r - 1).cost);
    }
  }

  /** Whatever the last move is, the cell is no dearer than coming by that move. */
  lemma CellAtMost(same: set<Pos>, rows: nat, columns: nat, l: nat, r: nat, e: EditType)
    requires TieFreeUpTo(same, rows, columns) && TakesLeft(e) <= l <= rows && TakesRight(e) <= r <= columns
    requires e == Match ==> Pos(l - 1, r - 1) in same
    ensures Cell(same, l, r).cost <= Cell(same, l - TakesLeft(e), r - TakesRight(e)).cost + EditCost(e)
  {
    if e == Add || e == Remove {
      NeighbourCosts(same, rows, columns, l, r);
    } else {
      assert !Tied(same, l, r);
    }
  }

  lemma {:induction false} CheapestToReach(same: set<Pos>, rows: nat, columns: nat, l: nat, r: nat,
                                           edits: seq<EditType>)
    requires TieFreeUpTo(same, rows, columns) && l <= rows && r <= columns && Reaches(edits, same, l, r)
    ensures Cell(same, l, r).cost <= ScriptCost(edits)
    decreases |edits|
  {
    if edits != [] {
      var e := edits[|edits| - 1];
      CheapestToReach(same, rows, columns, l - TakesLeft(e), r - TakesRight(e), edits[..|edits| - 1]);
      CellAtMost(same, rows, columns, l, r, e);
    }
  }

  /** Without ties the script is as cheap as any. */
  lemma OptimalWithoutTies<T>(left: seq<T>, right: seq<T>)
    requires TieFree(left, right)
    ensures Optimal(BestPath(left, right), left, right)
  {
    BestPathIsScript(left, right);
    forall other | IsScript(other, left, right)
      ensures ScriptCost(BestPath(left, right)) <= ScriptCost(other)
    {
      ScriptIffReaches(other, left, right);
      CheapestToReach(Agreement(left, right), |left|, |right|, |left|, |right|, other);
    }
  }

  /** The walk back from (l, r) meets a tied cell. */
  ghost predicate MeetsTie(same: set<Pos>, l: nat, r: nat)
    decreases l + r
  {
    if l == 0 && r == 0 then false
    else
      var move := Cell(same, l, r).move;
      (l > 0 && r > 0 && Tied(same, l, r)) || MeetsTie(same, l - TakesLeft(move), r - TakesRight(move))
  }

  /** At a tied cell another move would have been cheaper. */
  lemma TieIsTooDear(same: set<Pos>, l: nat, r: nat) returns (move: EditType)
    requires 0 < l && 0 < r && Tied(same, l, r)
    ensures move == Add || move == Remove
    ensures Cell(same, l - TakesLeft(move), r - TakesRight(move)).cost + EditCost(move) < Cell(same, l, r).cost
  {
    move := if Cell(same, l, r - 1).cost <= Cell(same, l - 1, r).cost then Add else Remove;
  }

  lemma CheaperAtTie(same: set<Pos>, l: nat, r: nat) returns (edits: seq<EditType>)
    requires 0 < l && 0 < r && Tied(same, l, r)
    ensures Reaches(edits, same, l, r) && ScriptCost(edits) < Cell(same, l, r).cost
  {
    var move := TieIsTooDear(same, l, r);
    var l', r' := l - TakesLeft(move), r - TakesRight(move);
    PathReaches(same, l', r');
    ReachesNext(Path(same, l', r'), move, same, l', r');
    edits := Path(same, l', r') + [move];
  }

  lemma {:induction false} CheaperThanTie(same: set<Pos>, l: nat, r: nat) returns (edits: seq<EditType>)
    requires MeetsTie(same, l, r)
    ensures Reaches(edits, same, l, r) && ScriptCost(edits) < Cell(same, l, r).cost
    decreases l + r
  {
    if l > 0 && r > 0 && Tied(same, l, r) {
      edits := CheaperAtTie(same, l, r);
    } else {
      var move := Cell(same, l, r).move;
      var front := CheaperThanTie(same, l - TakesLeft(move), r - TakesRight(move));
      edits := front + [move];
      ExtendByMove(same, l, r, move, front, edits);
    }
  }

  /** The greedy rule has arrived at the least cost of this cell. */
  ghost predicate IsLeast(same: set<Pos>, l: nat, r: nat) {
    Cell(same, l, r).cost == Least(same, l, r)
  }

  lemma LeastWithoutTies(same: set<Pos>, rows: nat, columns: nat, l: nat, r: nat)
    requires TieFreeUpTo(same, rows, columns) && l <= rows && r <= columns
    ensures IsLeast(same, l, r)
  {
    var cheapest := LeastIsReached(same, l, r);
    CheapestToReach(same, rows, columns, l, r, cheapest);
    PathReaches(same, l, r);
    LeastIsBound(same, l, r, Path(same, l, r));
  }

  lemma TiedIsNotLeast(same: set<Pos>, l: nat, r: nat)
    requires 0 < l && 0 < r && Tied(same, l, r)
    ensures !IsLeast(same, l, r)
  {
    var cheaper := CheaperAtTie(same, l, r);
    LeastIsBound(same, l, r, cheaper);
  }

  /** The table holds least costs everywhere exactly when no cell of it is tied. */
  lemma TieFreeIffLeast(same: set<Pos>, rows: nat, columns: nat)
    ensures TieFreeUpTo(same, rows, columns)
            <==> forall l: nat, r: nat {:trigger IsLeast(same, l, r)} | l <= rows && r <= columns ::
                   IsLeast(same, l, r)
  {
    if TieFreeUpTo(same, rows, columns) {
      forall l: nat, r: nat | l <= rows && r <= columns ensures IsLeast(same, l, r) {
        LeastWithoutTies(same, rows, columns, l, r);
      }
    } else {
      var l: nat, r: nat :| 0 < l <= rows && 0 < r <= columns && Tied(same, l, r);
      TiedIsNotLeast(same, l, r);
    }
  }

  /** The two agree below the given row and before the given column. */
  ghost predicate SameUpTo(same: set<Pos>, part: set<Pos>, rows: nat, columns: nat) {
    forall p: Pos :: p.l < rows && p.r < columns ==> (p in part <==> p in same)
  }

  // A cell depends only on where the elements before it agree.

  lemma {:induction false} CellsOfPrefixes(same: set<Pos>, part: set<Pos>, rows: nat, columns: nat, l: nat, r: nat)
    requires SameUpTo(same, part, rows, columns) && l <= rows && r <= columns
    ensures Cell(part, l, r) == Cell(same, l, r)
    decreases l + r
  {
    if l > 0 && r > 0 {
      CellsOfPrefixes(same, part, rows, columns, l, r - 1);
      CellsOfPrefixes(same, part, rows, columns, l - 1, r);
      CellsOfPrefixes(same, part, rows, columns, l - 1, r - 1);
      assert Pos(l - 1, r - 1) in part <==> Pos(l - 1, r - 1) in same;
      CellUnfolds(part, l, r);
      CellUnfolds(same, l, r);
    }
  }

  lemma CellUnfolds(same: set<Pos>, l: nat, r: nat)
    requires l > 0 && r > 0
    ensures Cell(same, l, r)
            == Fill(Pos(l - 1, r - 1) in same, Cell(same, l, r - 1).cost, Cell(same, l - 1, r).cost,
                    Cell(same, l - 1, r - 1).cost)
  {
  }

  lemma {:induction false} LeastOfPrefixes(same: set<Pos>, part: set<Pos>, rows: nat, columns: nat, l: nat, r: nat)
    requires SameUpTo(same, part, rows, columns) && l <= rows && r <= columns
    ensures Least(part, l, r) == Least(same, l, r)
    decreases l + r
  {
    if l > 0 && r > 0 {
      LeastOfPrefixes(same, part, rows, columns, l, r - 1);
      LeastOfPrefixes(same, part, rows, columns, l - 1, r);
      LeastOfPrefixes(same, part, rows, columns, l - 1, r - 1);
      assert Pos(l - 1, r - 1) in part <==> Pos(l - 1, r - 1) in same;
    }
  }

  /** The script for the first l lines on the left and the first r on the right is optimal. */
  ghost predicate PrefixOptimal<T>(left: seq<T>, right: seq<T>, l: nat, r: nat)
    requires l <= |left| && r <= |right|
  {
    Optimal(BestPath(left[..l], right[..r]), left[..l], right[..r])
  }

  lemma PrefixOptimalIffLeast<T>(left: seq<T>, right: seq<T>, l: nat, r: nat)
    requires l <= |left| && r <= |right|
    ensures PrefixOptimal(left, right, l, r) <==> IsLeast(Agreement(left, right), l, r)
  {
    OptimalIffLeast(left[..l], right[..r]);
    var same, part := Agreement(left, right), Agreement(left[..l], right[..r]);
    CellsOfPrefixes(same, part, l, r, l, r);
    LeastOfPrefixes(same, part, l, r, l, r);
  }

  /** The scripts are optimal, for the inputs and all their prefixes, exactly when the branches never
      meet a tie: no cell adds and removes equally below replacing, or replaces as cheaply as either. */
  lemma OptimalIffTieFree<T>(left: seq<T>, right: seq<T>)
    ensures (forall l: nat, r: nat {:trigger PrefixOptimal(left, right, l, r)} | l <= |left| && r <= |right| ::
               PrefixOptimal(left, right, l, r))
            <==> TieFree(left, right)
  {
    var same := Agreement(left, right);
    TieFreeIffLeast(same, |left|, |right|);
    forall l: nat, r: nat | l <= |left| && r <= |right|
      ensures PrefixOptimal(left, right, l, r) <==> IsLeast(same, l, r)
    {
      PrefixOptimalIffLeast(left, right, l, r);
    }
  }

  /** A tie on the walk makes the script strictly too dear. */
  lemma NotOptimalThroughTie<T>(left: seq<T>, right: seq<T>)
    requires MeetsTie(Agreement(left, right), |left|, |right|)
    ensures !Optimal(BestPath(left, right), left, right)
  {
    BestPathIsScript(left, right);
    var cheaper := CheaperThanTie(Agreement(left, right), |left|, |right|);
    ScriptIffReaches(cheaper, left, right);
  }

  /** The smallest such input: swapping two lines is reported as two replacements, although one
      removal and one addition cost less. */
  lemma SwappedLinesAreNotOptimal<T>(a: T, b: T)
    requires a != b
    ensures BestPath([a, b], [b, a]) == [Replace, Replace]
    ensures !Optimal(BestPath([a, b], [b, a]), [a, b], [b, a])
  {
    var same := Agreement([a, b], [b, a]);
    assert Pos(0, 0) !in same && Pos(0, 1) in same && Pos(1, 0) in same && Pos(1, 1) !in same;
    assert Cell(same, 1, 1) == Entry(REPLACE_UNIT, Replace);
    assert Cell(same, 1, 2) == Entry(UNIT, Match);
    assert Cell(same, 2, 1) == Entry(UNIT, Match);
    assert Cell(same, 2, 2) == Entry(REPLACE_UNIT + REPLACE_UNIT, Replace);
    assert Tied(same, 2, 2);
    assert Path(same, 1, 1) == [] + [Replace];
    assert Path(same, 2, 2) == [Replace] + [Replace];
    NotOptimalThroughTie([a, b], [b, a]);
  }

  /** Where "aba" and "baac" agree. */
  ghost predicate AbaBaac(same: set<Pos>) {
    && Pos(0, 0) !in same && Pos(0, 1) in same && Pos(0, 2) in same && Pos(0, 3) !in same
    && Pos(1, 0) in same && Pos(1, 1) !in same && Pos(1, 2) !in same && Pos(1, 3) !in same
    && Pos(2, 0) !in same && Pos(2, 1) in same && Pos(2, 2) in same && Pos(2, 3) !in same
  }

  lemma AbaBaacTable(same: set<Pos>)
    requires AbaBaac(same)
    ensures Cell(same, 3, 4) == Entry(UNIT + 2 * REPLACE_UNIT, Replace) && !MeetsTie(same, 3, 4)
  {
    assert Cell(same, 1, 1) == Entry(REPLACE_UNIT, Replace);
    assert Cell(same, 1, 2) == Entry(UNIT, Match) && Cell(same, 1, 3) == Entry(2 * UNIT, Match);
    assert Cell(same, 1, 4) == Entry(3 * UNIT, Add);
    assert Cell(same, 2, 1) == Entry(UNIT, Match) && Cell(same, 2, 2) == Entry(2 * REPLACE_UNIT, Replace);
    assert Cell(same, 2, 3) == Entry(UNIT + REPLACE_UNIT, Replace);
    assert Cell(same, 2, 4) == Entry(2 * UNIT + REPLACE_UNIT, Replace);
    assert Cell(same, 3, 3) == Entry(2 * REPLACE_UNIT, Match);
    assert !MeetsTie(same, 0, 1) && !MeetsTie(same, 1, 2) && !MeetsTie(same, 2, 3);
  }

  lemma AbaBaacCheaper(same: set<Pos>) returns (edits: seq<EditType>)
    requires AbaBaac(same)
    ensures Reaches(edits, same, 3, 4) && ScriptCost(edits) == 3 * UNIT
  {
    edits := [];
    ReachesNext(edits, Remove, same, 0, 0);
    edits := edits + [Remove];
    ReachesNext(edits, Match, same, 1, 0);
    edits := edits + [Match];
    ReachesNext(edits, Match, same, 2, 1);
    edits := edits + [Match];
    ReachesNext(edits, Add, same, 3, 2);
    edits := edits + [Add];
    ReachesNext(edits, Add, same, 3, 3);
    edits := edits + [Add];
  }

  /** A tie can also hurt from beside the walk, where it makes a neighbour look dearer than it is. */
  lemma TieBesideTheWalk()
    ensures !MeetsTie(Agreement("aba", "baac"), 3, 4) && !Optimal(BestPath("aba", "baac"), "aba", "baac")
  {
    var same := Agreement("aba", "baac");
    AbaBaacTable(same);
    var cheaper := AbaBaacCheaper(same);
    LeastIsBound(same, 3, 4, cheaper);
    OptimalIffLeast("aba", "baac");
  }

  // ----- The algorithm -----

  lemma {:induction false} ReversedSnoc<T>(s: seq<T>, x: T)
    ensures Reversed(s + [x]) == [x] + Reversed(s)
  {
    if s == [] {
      assert s + [x] == [x];
      assert Reversed<T>([x][1..]) == [];
    } else {
      assert (s + [x])[1..] == s[1..] + [x];
      ReversedSnoc(s[1..], x);
    }
  }

  method Reverse<T>(s: seq<T>) returns (r: seq<T>)
    ensures r == Reversed(s)
  {
    r := [];
    for i := 0 to |s|
      invariant r == Reversed(s[..i])
    {
      assert s[..i + 1] == s[..i] + [s[i]];
      ReversedSnoc(s[..i], s[i]);
      r := [s[i]] + r;
    }
    assert s[..|s|] == s;
  }

  /** A vector of rows, with one row and one column more than there are elements. */
  ghost predicate Shape<T>(table: seq<seq<T>>, rows: nat, columns: nat) {
    |table| == rows + 1 && forall l :: 0 <= l <= rows ==> |table[l]| == columns + 1
  }

  function Put<T>(table: seq<seq<T>>, l: nat, r: nat, x: T): (t: seq<seq<T>>)
    requires l < |table| && r < |table[l]|
    ensures |t| == |table| && forall k :: 0 <= k < |t| ==> |t[k]| == |table[k]|
    ensures forall i, j :: 0 <= i < |t| && 0 <= j < |t[i]| ==> t[i][j] == if i == l && j == r then x else table[i][j]
  {
    table[l := table[l][r := x]]
  }

  /** Both tables have their final values in a block of cells. */
  ghost predicate Filled(costs: seq<seq<nat>>, moves: seq<seq<EditType>>, same: set<Pos>, rows: nat, columns: nat,
                         fromRow: nat, toRow: nat, toColumn: nat)
    requires Shape(costs, rows, columns) && Shape(moves, rows, columns) && toRow <= rows + 1 && toColumn <= columns + 1
  {
    forall l, r {:trigger Cell(same, l, r)} :: fromRow <= l < toRow && 0 <= r < toColumn ==>
      Cell(same, l, r) == Entry(costs[l][r], moves[l][r])
  }

  /** The first column and the first row, for an empty right and an empty left. */
  method FillBorders(ghost same: set<Pos>, rows: nat, columns: nat)
    returns (costs: seq<seq<nat>>, bestMove: seq<seq<EditType>>)
    ensures Shape(costs, rows, columns) && Shape(bestMove, rows, columns)
    ensures Filled(costs, bestMove, same, rows, columns, 0, rows + 1, 1)
    ensures Filled(costs, bestMove, same, rows, columns, 0, 1, columns + 1)
  {
    costs := seq(rows + 1, _ => seq(columns + 1, _ => 0));
    bestMove := seq(rows + 1, _ => seq(columns + 1, _ => Match));
    for i := 0 to rows + 1
      invariant Shape(costs, rows, columns) && Shape(bestMove, rows, columns)
      invariant Filled(costs, bestMove, same, rows, columns, 0, i, 1)
    {
      costs := Put(costs, i, 0, i * UNIT);
      bestMove := Put(bestMove, i, 0, Remove);
    }
    for j := 1 to columns + 1
      invariant Shape(costs, rows, columns) && Shape(bestMove, rows, columns)
      invariant Filled(costs, bestMove, same, rows, columns, 0, rows + 1, 1)
      invariant Filled(costs, bestMove, same, rows, columns, 0, 1, j)
    {
      costs := Put(costs, 0, j, j * UNIT);
      bestMove := Put(bestMove, 0, j, Add);
    }
  }

  method FillTable(left: seq<nat>, right: seq<nat>) returns (bestMove: seq<seq<EditType>>)
    ensures Shape(bestMove, |left|, |right|)
    ensures forall l, r {:trigger Cell(Agreement(left, right), l, r)} ::
              0 <= l <= |left| && 0 <= r <= |right| ==> bestMove[l][r] == Cell(Agreement(left, right), l, r).move
  {
    ghost var same := Agreement(left, right);
    var costs;
    costs, bestMove := FillBorders(same, |left|, |right|);
    for i := 0 to |left|
      invariant Shape(costs, |left|, |right|) && Shape(bestMove, |left|, |right|)
      invariant Filled(costs, bestMove, same, |left|, |right|, 0, |left| + 1, 1)
      invariant Filled(costs, bestMove, same, |left|, |right|, 0, i + 1, |right| + 1)
    {
      for j := 0 to |right|
        invariant Shape(costs, |left|, |right|) && Shape(bestMove, |left|, |right|)
        invariant Filled(costs, bestMove, same, |left|, |right|, 0, |left| + 1, 1)
        invariant Filled(costs, bestMove, same, |left|, |right|, 0, i + 1, |right| + 1)
        invariant Filled(costs, bestMove, same, |left|, |right|, i + 1, i + 2, j + 1)
      {
        var add, remove, replace := costs[i + 1][j], costs[i][j + 1], costs[i][j];
        var entry := Fill(left[i] == right[j], add, remove, replace);
        assert entry == Cell(same, i + 1, j + 1) by {
          assert left[i] == right[j] <==> Pos(i, j) in same;
        }
        costs := Put(costs, i + 1, j + 1, entry.cost);
        bestMove := Put(bestMove, i + 1, j + 1, entry.move);
      }
    }
  }

  lemma MoveAcross(path: seq<EditType>, move: EditType, walked: seq<EditType>)
    ensures (path + [move]) + Reversed(walked) == path + Reversed(walked + [move])
  {
    ReversedSnoc(walked, move);
  }

  lemma PathStep(same: set<Pos>, l: nat, r: nat, move: EditType, walked: seq<EditType>)
    requires (l > 0 || r > 0) && move == Cell(same, l, r).move
    ensures TakesLeft(move) <= l && TakesRight(move) <= r
    ensures Path(same, l, r) + Reversed(walked)
            == Path(same, l - TakesLeft(move), r - TakesRight(move)) + Reversed(walked + [move])
  {
    PathUnfolds(same, l, r);
    MoveAcross(Path(same, l - TakesLeft(move), r - TakesRight(move)), move, walked);
  }

  method CalculateOptimalEditsOfIds(left: seq<nat>, right: seq<nat>) returns (bestPath: seq<EditType>)
    ensures bestPath == BestPath(left, right)
  {
    var bestMove := FillTable(left, right);
    ghost var same := Agreement(left, right);
    bestPath := [];
    var l: nat, r: nat := |left|, |right|;
    assert Reversed(bestPath) == [];
    while l > 0 || r > 0
      invariant l <= |left| && r <= |right|
      invariant BestPath(left, right) == Path(same, l, r) + Reversed(bestPath)
      decreases l + r
    {
      var move := bestMove[l][r];
      PathStep(same, l, r, move, bestPath);
      bestPath := bestPath + [move];
      l := l - TakesLeft(move);
      r := r - TakesRight(move);
    }
    bestPath := Reverse(bestPath);
  }

  // ----- Lines as ids -----

  class InternalStrings {
    var ids: map<string, nat>

    /** Different strings have different ids, all below the next free one. */
    ghost predicate Valid()
      reads this
    {
      && (forall s :: s in ids ==> ids[s] < |ids|)
      && (forall s, t :: s in ids && t in ids && ids[s] == ids[t] ==> s == t)
    }

    constructor ()
      ensures Valid() && ids == map[]
    {
      ids := map[];
    }

    method GetId(str: string) returns (id: nat)
      requires Valid()
      modifies this
      ensures Valid()
      ensures str in ids && ids[str] == id
      ensures forall s :: s in old(ids) ==> s in ids && ids[s] == old(ids[s])
    {
      if str in ids {
        return ids[str];
      }
      id := |ids|;
      ids := ids[str := id];
    }
  }

  /** ids is the line-by-line image of lines. */
  ghost predicate Interned(ids: map<string, nat>, lines: seq<string>, image: seq<nat>) {
    |image| == |lines| && forall i :: 0 <= i < |lines| ==> lines[i] in ids && image[i] == ids[lines[i]]
  }

  /** The ids agree exactly where the lines do. */
  lemma InternedAgree(ids: map<string, nat>, left: seq<string>, leftIds: seq<nat>, right: seq<string>,
                      rightIds: seq<nat>)
    requires Interned(ids, left, leftIds) && Interned(ids, right, rightIds)
    requires forall s, t :: s in ids && t in ids && ids[s] == ids[t] ==> s == t
    ensures Agreement(leftIds, rightIds) == Agreement(left, right)
  {
    forall p ensures p in Agreement(leftIds, rightIds) <==> p in Agreement(left, right) {
      if p.l < |left| && p.r < |right| {
        assert left[p.l] in ids && right[p.r] in ids;
      }
    }
  }

  /** Interning goes on: earlier lines keep their ids and the next line gets its own. */
  lemma InternedNext(ids: map<string, nat>, more: map<string, nat>, lines: seq<string>, i: nat, image: seq<nat>,
                     id: nat)
    requires i < |lines| && Interned(ids, lines[..i], image)
    requires forall s :: s in ids ==> s in more && more[s] == ids[s]
    requires lines[i] in more && more[lines[i]] == id
    ensures Interned(more, lines[..i + 1], image + [id])
  {
    forall k | 0 <= k <= i ensures lines[..i + 1][k] in more && (image + [id])[k] == more[lines[..i + 1][k]] {
      if k < i {
        assert lines[..i][k] == lines[k];
      }
    }
  }

  lemma InternedKept(ids: map<string, nat>, more: map<string, nat>, lines: seq<string>, image: seq<nat>)
    requires Interned(ids, lines, image) && forall s :: s in ids ==> s in more && more[s] == ids[s]
    ensures Interned(more, lines, image)
  {
  }

  /** Working on ids gives the path of the lines themselves. */
  method CalculateOptimalEdits(left: seq<string>, right: seq<string>) returns (edits: seq<EditType>)
    ensures edits == BestPath(left, right)
  {
    var leftIds, rightIds: seq<nat> := [], [];
    var internTable := new InternalStrings();
    for i := 0 to |left|
      invariant internTable.Valid() && Interned(internTable.ids, left[..i], leftIds)
    {
      ghost var before := internTable.ids;
      var id := internTable.GetId(left[i]);
      InternedNext(before, internTable.ids, left, i, leftIds, id);
      leftIds := leftIds + [id];
    }
    assert left[..|left|] == left;
    for i := 0 to |right|
      invariant internTable.Valid() && Interned(internTable.ids, left, leftIds)
      invariant Interned(internTable.ids, right[..i], rightIds)
    {
      ghost var before := internTable.ids;
      var id := internTable.GetId(right[i]);
      InternedKept(before, internTable.ids, left, leftIds);
      InternedNext(before, internTable.ids, right, i, rightIds, id);
      rightIds := rightIds + [id];
    }
    assert right[..|right|] == right;
    edits := CalculateOptimalEditsOfIds(leftIds, rightIds);
    InternedAgree(internTable.ids, left, leftIds, right, rightIds);
  }
}
