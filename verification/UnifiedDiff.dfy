/** googletest's unified diff: grouping an edit script into context hunks that patch the left
    lines into the right ones. */
module UnifiedDiff {
  import opened EditScript
  import opened Sequences
  import opened Wrappers

  type Lines = seq<string>

  datatype Line = Line(tag: char, text: string)

  /** One side of a hunk header: first line, counted from 1, and number of lines. */
  datatype Range = Range(start: nat, length: nat)

  /** A hunk as printed: a side without changes has no header. */
  datatype PrintedHunk = PrintedHunk(left: Option<Range>, right: Option<Range>, body: seq<Line>)

  // ----- What a hunk shows -----

  /** The left and right lines of a hunk body, its runs of unchanged lines - at the end, at the
      beginning, and the longest - and the numbers of its '-' and '+' lines. */
  datatype View = View(left: Lines, right: Lines, tail: nat, lead: nat, longest: nat, removed: nat, added: nat) {
    ghost predicate Changed() {
      removed > 0 || added > 0
    }

    /** The view after one more line: '+' lines are not in the left file, '-' lines not in the right. */
    ghost function Push(tag: char, text: string): View {
      View(left + if tag == '+' then [] else [text],
           right + if tag == '-' then [] else [text],
           if tag == ' ' then tail + 1 else 0,
           if tag == ' ' && !Changed() then lead + 1 else lead,
           if tag == ' ' && tail + 1 > longest then tail + 1 else longest,
           if tag == '-' then removed + 1 else removed,
           if tag == '+' then added + 1 else added)
    }
  }

  ghost function ShownBy(body: seq<Line>): View {
    if body == [] then View([], [], 0, 0, 0, 0, 0)
    else
      var last := body[|body| - 1];
      ShownBy(body[..|body| - 1]).Push(last.tag, last.text)
  }

  lemma ShownSnoc(body: seq<Line>, line: Line)
    ensures ShownBy(body + [line]) == ShownBy(body).Push(line.tag, line.text)
  {
    assert (body + [line])[..|body|] == body;
  }

  lemma {:induction false} MarksAreCounted(body: seq<Line>)
    ensures Marks(body, '-') <==> ShownBy(body).removed > 0
    ensures Marks(body, '+') <==> ShownBy(body).added > 0
  {
    if body != [] {
      var front, last := body[..|body| - 1], body[|body| - 1];
      MarksAreCounted(front);
      MarksSnoc(body, '-');
      MarksSnoc(body, '+');
    }
  }

  lemma MarksSnoc(body: seq<Line>, tag: char)
    requires body != []
    ensures Marks(body, tag) <==> Marks(body[..|body| - 1], tag) || body[|body| - 1].tag == tag
  {
    if Marks(body[..|body| - 1], tag) {
      var i :| 0 <= i < |body| - 1 && body[..|body| - 1][i].tag == tag;
      assert body[i].tag == tag;
    }
    if Marks(body, tag) && body[|body| - 1].tag != tag {
      var i :| 0 <= i < |body| && body[i].tag == tag;
      assert body[..|body| - 1][i].tag == tag;
    }
  }

  ghost predicate AllTagged(body: seq<Line>, tag: char) {
    forall i :: 0 <= i < |body| ==> body[i].tag == tag
  }

  /** Within every run of changes the removals come before the additions. */
  ghost predicate RemovesFirst(body: seq<Line>) {
    forall i :: 0 <= i < |body| - 1 && body[i].tag == '+' ==> body[i + 1].tag != '-'
  }

  /** The unchanged lines around the changes of a hunk: context of them on either side, fewer only
      at the top or bottom of the files, and never as many as 2 * context between two changes. */
  ghost predicate WellFramed(h: PrintedHunk, leftSize: nat, rightSize: nat, context: nat) {
    var v := ShownBy(h.body);
    && v.lead <= context && v.tail <= context && v.longest < 2 * context
    && (v.lead < context ==> StartsAt(h.left, 1) && StartsAt(h.right, 1))
    && (v.tail < context ==> EndsAt(h.left, leftSize) && EndsAt(h.right, rightSize))
  }

  ghost predicate Marks(body: seq<Line>, tag: char) {
    exists i :: 0 <= i < |body| && body[i].tag == tag
  }

  /** A side has a header exactly when the hunk changes it. */
  ghost predicate HeadersFit(h: PrintedHunk) {
    (h.left.Some? <==> Marks(h.body, '-')) && (h.right.Some? <==> Marks(h.body, '+'))
  }

  ghost predicate StartsAt(range: Option<Range>, line: nat) {
    range.Some? ==> range.value.start == line
  }

  ghost predicate EndsAt(range: Option<Range>, line: nat) {
    range.Some? ==> range.value.start + range.value.length - 1 == line
  }

  // ----- Applying a diff -----

  /** How far a patch has read the left lines, and what it has written. */
  datatype Progress = Progress(read: nat, written: Lines)

  /** Applies one printed hunk: copies up to its first line, checks the left lines it shows, and
      writes the right ones. Fails unless the hunk lies ahead, its lines are found in place, and
      every number in its header is right. */
  ghost function ApplyHunk(left: Lines, h: PrintedHunk, p: Progress): Option<Progress> {
    var at := if h.left.Some? then h.left.value.start - 1
              else if h.right.Some? then p.read + h.right.value.start - 1 - |p.written|
              else -1;
    var gone, come := ShownBy(h.body).left, ShownBy(h.body).right;
    if p.read <= at && at + |gone| <= |left| && left[at..at + |gone|] == gone
       && (h.left.Some? ==> h.left.value.length == |gone|)
       && (h.right.Some? ==> h.right.value == Range(|p.written| + (at - p.read) + 1, |come|))
    then Some(Progress(at + |gone|, p.written + left[p.read..at] + come))
    else None
  }

  ghost function ApplyHunks(left: Lines, hunks: seq<PrintedHunk>): Option<Progress> {
    if hunks == [] then Some(Progress(0, []))
    else
      var before := ApplyHunks(left, hunks[..|hunks| - 1]);
      if before.Some? then ApplyHunk(left, hunks[|hunks| - 1], before.value) else None
  }

  /** The file that results from applying all hunks and copying what follows them. */
  ghost function Patch(left: Lines, hunks: seq<PrintedHunk>): Option<Lines> {
    var p := ApplyHunks(left, hunks);
    if p.Some? && p.value.read <= |left| then Some(p.value.written + left[p.value.read..]) else None
  }

  // ----- One hunk -----

  /** The order of the lines of a hunk: pending removals and additions are apart, and what has been
      flushed ends with an unchanged line. */
  ghost predicate Ordered(hunk: seq<Line>, removes: seq<Line>, adds: seq<Line>) {
    && AllTagged(removes, '-') && AllTagged(adds, '+')
    && RemovesFirst(hunk) && (hunk != [] ==> hunk[|hunk| - 1].tag == ' ')
  }

  /** A removal slipped in before pending additions shows the same as one put after them. */
  lemma {:induction false} RemovalSlipsIn(body: seq<Line>, adds: seq<Line>, text: string)
    requires AllTagged(adds, '+')
    ensures ShownBy(body + [Line('-', text)] + adds) == ShownBy(body + adds).Push('-', text)
  {
    if adds == [] {
      assert body + [Line('-', text)] + adds == body + [Line('-', text)] && body + adds == body;
      ShownSnoc(body, Line('-', text));
    } else {
      var front, last := adds[..|adds| - 1], adds[|adds| - 1];
      assert adds == front + [last] && last.tag == '+';
      RemovalSlipsIn(body, front, text);
      ShownLast(body + [Line('-', text)], front, last);
      ShownLast(body, front, last);
    }
  }

  lemma ShownLast(body: seq<Line>, front: seq<Line>, last: Line)
    ensures ShownBy(body + (front + [last])) == ShownBy(body + front).Push(last.tag, last.text)
  {
    Assoc(body, front, [last]);
    ShownSnoc(body + front, last);
  }

  /** A hunk in the making: its lines are in order and its counters count what it shows. */
  ghost predicate Consistent(hunk: seq<Line>, hunkRemoves: seq<Line>, hunkAdds: seq<Line>,
                             removes: nat, adds: nat, common: nat) {
    var v := ShownBy(hunk + hunkRemoves + hunkAdds);
    && Ordered(hunk, hunkRemoves, hunkAdds)
    && removes == v.removed && adds == v.added
    && removes + common == |v.left| && adds + common == |v.right|
  }

  lemma PushSizes(v: View, tag: char, text: string)
    ensures |v.Push(tag, text).left| == |v.left| + if tag == '+' then 0 else 1
    ensures |v.Push(tag, text).right| == |v.right| + if tag == '-' then 0 else 1
  {
  }

  lemma FlushKeepsOrder(hunk: seq<Line>, hunkRemoves: seq<Line>, hunkAdds: seq<Line>)
    requires Ordered(hunk, hunkRemoves, hunkAdds)
    ensures RemovesFirst(hunk + hunkRemoves + hunkAdds)
  {
  }

  lemma PushCommon(hunk: seq<Line>, text: string, removes: nat, adds: nat, common: nat)
    requires RemovesFirst(hunk)
    requires var v := ShownBy(hunk);
             removes == v.removed && adds == v.added && removes + common == |v.left| && adds + common == |v.right|
    ensures Consistent(hunk + [Line(' ', text)], [], [], removes, adds, common + 1)
    ensures ShownBy(hunk + [Line(' ', text)] + [] + []) == ShownBy(hunk).Push(' ', text)
  {
    ShownSnoc(hunk, Line(' ', text));
    assert hunk + [Line(' ', text)] + [] + [] == hunk + [Line(' ', text)];
    PushSizes(ShownBy(hunk), ' ', text);
  }

  lemma PushRemove(hunk: seq<Line>, hunkRemoves: seq<Line>, hunkAdds: seq<Line>, text: string,
                      removes: nat, adds: nat, common: nat)
    requires Consistent(hunk, hunkRemoves, hunkAdds, removes, adds, common)
    ensures Consistent(hunk, hunkRemoves + [Line('-', text)], hunkAdds, removes + 1, adds, common)
    ensures ShownBy(hunk + (hunkRemoves + [Line('-', text)]) + hunkAdds)
            == ShownBy(hunk + hunkRemoves + hunkAdds).Push('-', text)
  {
    RemovalSlipsIn(hunk + hunkRemoves, hunkAdds, text);
    Assoc(hunk, hunkRemoves, [Line('-', text)]);
    PushSizes(ShownBy(hunk + hunkRemoves + hunkAdds), '-', text);
  }

  lemma PushAdd(hunk: seq<Line>, hunkRemoves: seq<Line>, hunkAdds: seq<Line>, text: string,
                   removes: nat, adds: nat, common: nat)
    requires Consistent(hunk, hunkRemoves, hunkAdds, removes, adds, common)
    ensures Consistent(hunk, hunkRemoves, hunkAdds + [Line('+', text)], removes, adds + 1, common)
    ensures ShownBy(hunk + hunkRemoves + (hunkAdds + [Line('+', text)]))
            == ShownBy(hunk + hunkRemoves + hunkAdds).Push('+', text)
  {
    ShownSnoc(hunk + hunkRemoves + hunkAdds, Line('+', text));
    Assoc(hunk + hunkRemoves, hunkAdds, [Line('+', text)]);
    PushSizes(ShownBy(hunk + hunkRemoves + hunkAdds), '+', text);
  }

  class Hunk {
    const leftStart: nat
    const rightStart: nat
    var adds: nat
    var removes: nat
    var common: nat
    var hunk: seq<Line>
    var hunkAdds: seq<Line>
    var hunkRemoves: seq<Line>

    /** What the lines pushed so far show, flushed or not. */
    ghost function Shown(): View
      reads this
    {
      ShownBy(hunk + hunkRemoves + hunkAdds)
    }

    ghost predicate Valid()
      reads this
    {
      Consistent(hunk, hunkRemoves, hunkAdds, removes, adds, common)
    }

    predicate HasEdits()
      reads this
    {
      adds > 0 || removes > 0
    }

    constructor (leftStart: nat, rightStart: nat)
      ensures Valid() && this.leftStart == leftStart && this.rightStart == rightStart
      ensures Shown() == View([], [], 0, 0, 0, 0, 0)
    {
      this.leftStart, this.rightStart := leftStart, rightStart;
      adds, removes, common := 0, 0, 0;
      hunk, hunkAdds, hunkRemoves := [], [], [];
    }

    method PushLine(edit: char, line: string)
      requires Valid() && (edit == ' ' || edit == '-' || edit == '+')
      modifies this
      ensures Valid()
      ensures Shown() == old(Shown()).Push(edit, line)
    {
      match edit
      case ' ' =>
        FlushEdits();
        PushCommon(hunk, line, removes, adds, common);
        common := common + 1;
        hunk := hunk + [Line(' ', line)];
      case '-' =>
        PushRemove(hunk, hunkRemoves, hunkAdds, line, removes, adds, common);
        removes := removes + 1;
        hunkRemoves := hunkRemoves + [Line('-', line)];
      case '+' =>
        PushAdd(hunk, hunkRemoves, hunkAdds, line, removes, adds, common);
        adds := adds + 1;
        hunkAdds := hunkAdds + [Line('+', line)];
    }

    /** Moves the pending edits, removals first, to the end of the hunk. */
    method FlushEdits()
      requires Ordered(hunk, hunkRemoves, hunkAdds)
      modifies this`hunk, this`hunkAdds, this`hunkRemoves
      ensures hunkAdds == hunkRemoves == []
      ensures hunk == old(hunk + hunkRemoves + hunkAdds) && RemovesFirst(hunk)
    {
      FlushKeepsOrder(hunk, hunkRemoves, hunkAdds);
      hunk := hunk + hunkRemoves;
      hunkRemoves := [];
      hunk := hunk + hunkAdds;
      hunkAdds := [];
    }

    method Print() returns (printed: PrintedHunk)
      requires Valid()
      modifies this
      ensures RemovesFirst(printed.body) && ShownBy(printed.body) == old(Shown())
      ensures HeadersFit(printed)
      ensures printed.left == if old(removes) > 0 then Some(Range(leftStart, |old(Shown()).left|)) else None
      ensures printed.right == if old(adds) > 0 then Some(Range(rightStart, |old(Shown()).right|)) else None
    {
      var left := if removes > 0 then Some(Range(leftStart, removes + common)) else None;
      var right := if adds > 0 then Some(Range(rightStart, adds + common)) else None;
      FlushEdits();
      printed := PrintedHunk(left, right, hunk);
      MarksAreCounted(hunk);
    }
  }

  // ----- Grouping the script into hunks -----

  /** One edit leads from position p to position q: it finds its lines there, equal ones for a match. */
  ghost predicate Steps(edit: EditType, left: Lines, right: Lines, p: Pos, q: Pos) {
    && q == Pos(p.l + TakesLeft(edit), p.r + TakesRight(edit)) && q.l <= |left| && q.r <= |right|
    && (edit == Match ==> left[p.l] == right[p.r])
  }

  /** w lists the positions the script passes from the given one to the ends of both files. */
  ghost predicate WalksFrom(edits: seq<EditType>, left: Lines, right: Lines, from: Pos, w: seq<Pos>) {
    && |w| == |edits| + 1 && w[0] == from && w[|edits|] == Pos(|left|, |right|)
    && (forall e {:trigger w[e]} :: 0 <= e <= |edits| ==> w[e].l <= |left| && w[e].r <= |right|)
    && (forall e {:trigger edits[e]} :: 0 <= e < |edits| ==> Steps(edits[e], left, right, w[e], w[e + 1]))
  }

  ghost predicate Walks(edits: seq<EditType>, left: Lines, right: Lines, w: seq<Pos>) {
    WalksFrom(edits, left, right, Pos(0, 0), w)
  }

  ghost predicate At(w: seq<Pos>, e: nat, l: nat, r: nat) {
    e < |w| && w[e] == Pos(l, r)
  }

  lemma WalkCons(edits: seq<EditType>, left: Lines, right: Lines, from: Pos, next: Pos, rest: seq<Pos>)
    requires edits != [] && from.l <= |left| && from.r <= |right| && Steps(edits[0], left, right, from, next)
    requires WalksFrom(edits[1..], left, right, next, rest)
    ensures WalksFrom(edits, left, right, from, [from] + rest)
  {
    var w := [from] + rest;
    forall e | 0 <= e < |edits| ensures Steps(edits[e], left, right, w[e], w[e + 1]) {
      if e > 0 {
        assert edits[e] == edits[1..][e - 1];
      }
    }
  }

  lemma {:induction false} WalkFrom(edits: seq<EditType>, left: Lines, right: Lines, from: Pos) returns (w: seq<Pos>)
    requires from.l <= |left| && from.r <= |right| && IsScript(edits, left[from.l..], right[from.r..])
    ensures WalksFrom(edits, left, right, from, w)
    decreases |edits|
  {
    if edits == [] {
      w := [from];
    } else {
      var next := Pos(from.l + TakesLeft(edits[0]), from.r + TakesRight(edits[0]));
      DropDrop(left, from.l, TakesLeft(edits[0]));
      DropDrop(right, from.r, TakesRight(edits[0]));
      var rest := WalkFrom(edits[1..], left, right, next);
      WalkCons(edits, left, right, from, next, rest);
      w := [from] + rest;
    }
  }

  /** The next n edits, as far as there are any, are matches. */
  ghost predicate Quiet(edits: seq<EditType>, e: nat, n: nat) {
    forall k :: e <= k < e + n && k < |edits| ==> edits[k] == Match
  }

  method SkipMatches(edits: seq<EditType>, left: Lines, right: Lines, ghost w: seq<Pos>, e: nat, l: nat, r: nat)
    returns (e': nat, l': nat, r': nat)
    requires Walks(edits, left, right, w) && e <= |edits| && At(w, e, l, r)
    ensures e' <= |edits| && At(w, e', l', r')
    ensures e' - e == l' - l == r' - r >= 0 && Quiet(edits, e, e' - e)
    ensures left[l..l'] == right[r..r']
    ensures e' < |edits| ==> edits[e'] != Match
  {
    e', l', r' := e, l, r;
    while e' < |edits| && edits[e'] == Match
      invariant e' <= |edits| && At(w, e', l', r')
      invariant e' - e == l' - l == r' - r >= 0 && Quiet(edits, e, e' - e)
      invariant left[l..l'] == right[r..r']
    {
      SliceSnoc(left, l, l');
      SliceSnoc(right, r, r');
      e', l', r' := e' + 1, l' + 1, r' + 1;
    }
  }

  /** A view that shows left[ls..l] and right[rs..r]. */
  ghost predicate Covers(v: View, left: Lines, ls: nat, l: nat, right: Lines, rs: nat, r: nat) {
    && ls <= l <= |left| && rs <= r <= |right|
    && v.left == left[ls..l] && v.right == right[rs..r]
  }

  lemma SliceSnoc(s: Lines, from: nat, to: nat)
    requires from <= to < |s|
    ensures s[from..to + 1] == s[from..to] + [s[to]]
  {
  }

  lemma SliceToEnd(s: Lines, from: nat)
    requires from <= |s|
    ensures s[from..|s|] == s[from..]
  {
  }

  /** The view of the first lines of a prefix, all unchanged. */
  ghost function PrefixView(left: Lines, from: nat, to: nat): View
    requires from <= to <= |left|
  {
    View(left[from..to], left[from..to], to - from, to - from, to - from, 0, 0)
  }

  lemma PrefixNext(left: Lines, from: nat, to: nat)
    requires from <= to < |left|
    ensures PrefixView(left, from, to + 1) == PrefixView(left, from, to).Push(' ', left[to])
  {
    SliceSnoc(left, from, to);
  }

  /** A new hunk that begins with the prefix lines before left[l]. */
  method StartHunk(left: Lines, l: nat, r: nat, prefix: nat) returns (hunk: Hunk)
    requires prefix <= l <= |left| && prefix <= r
    ensures fresh(hunk) && hunk.Valid() && !hunk.HasEdits()
    ensures hunk.leftStart == l - prefix + 1 && hunk.rightStart == r - prefix + 1
    ensures hunk.Shown() == PrefixView(left, l - prefix, l)
  {
    hunk := new Hunk(l - prefix + 1, r - prefix + 1);
    var i := prefix;
    while i > 0
      invariant 0 <= i <= prefix && hunk.Valid() && hunk.Shown() == PrefixView(left, l - prefix, l - i)
    {
      PrefixNext(left, l - prefix, l - i);
      hunk.PushLine(' ', left[l - i]);
      i := i - 1;
    }
  }

  /** Finds the next change; it is far when it lies context or more edits ahead, or does not exist. */
  method NextChange(edits: seq<EditType>, e: nat, context: nat) returns (far: bool, ghost at: nat)
    requires e < |edits|
    ensures e <= at <= |edits| && Quiet(edits, e, at - e) && (at < |edits| ==> edits[at] != Match)
    ensures far <==> at == |edits| || at - e >= context
    ensures far <==> Quiet(edits, e, context)
  {
    var it := e;
    while it < |edits| && edits[it] == Match
      invariant e <= it <= |edits| && Quiet(edits, e, it - e)
    {
      it := it + 1;
    }
    at := it;
    far := it == |edits| || it - e >= context;
  }

  /** A view after the lines of one edit. */
  ghost function AfterEdit(v: View, edit: EditType, left: Lines, l: nat, right: Lines, r: nat): View
    requires l + TakesLeft(edit) <= |left| && r + TakesRight(edit) <= |right|
  {
    match edit
    case Match => v.Push(' ', left[l])
    case Remove => v.Push('-', left[l])
    case Add => v.Push('+', right[r])
    case Replace => v.Push('-', left[l]).Push('+', right[r])
  }

  lemma AfterEditCovers(v: View, edit: EditType, left: Lines, ls: nat, l: nat, right: Lines, rs: nat, r: nat)
    requires Covers(v, left, ls, l, right, rs, r)
    requires l + TakesLeft(edit) <= |left| && r + TakesRight(edit) <= |right|
    requires edit == Match ==> left[l] == right[r]
    ensures var v' := AfterEdit(v, edit, left, l, right, r);
            Covers(v', left, ls, l + TakesLeft(edit), right, rs, r + TakesRight(edit))
  {
    if edit != Add {
      SliceSnoc(left, ls, l);
    }
    if edit != Remove {
      SliceSnoc(right, rs, r);
    }
  }

  method PushEdit(hunk: Hunk, edit: EditType, left: Lines, l: nat, right: Lines, r: nat)
    requires l + TakesLeft(edit) <= |left| && r + TakesRight(edit) <= |right|
    requires hunk.Valid()
    modifies hunk
    ensures hunk.Valid()
    ensures hunk.Shown() == AfterEdit(old(hunk.Shown()), edit, left, l, right, r)
  {
    if edit == Match || edit == Remove || edit == Replace {
      hunk.PushLine(if edit == Match then ' ' else '-', left[l]);
    }
    if edit == Add || edit == Replace {
      hunk.PushLine('+', right[r]);
    }
  }

  /** The runs in a hunk that has taken the edits from e to e': when the context has already been
      shown after the last change, the next change is known to be near. */
  ghost predicate RunsBounded(v: View, edits: seq<EditType>, context: nat, e: nat, e': nat, near: nat) {
    && (v.Changed() <==> e < e')
    && (v.Changed() ==> context > 0 && v.tail <= e' - e)
    && (context > 0 ==> v.longest < 2 * context)
    && (v.Changed() && v.tail > context ==>
          e' <= near < |edits| && edits[near] != Match && v.tail + near - e' < 2 * context)
  }

  /** The state of a hunk that shows left[ls..l] and right[rs..r] after the edits from e to e'. */
  ghost predicate Filling(v: View, edits: seq<EditType>, left: Lines, right: Lines, context: nat, e: nat,
                          ls: nat, rs: nat, e': nat, l: nat, r: nat, near: nat, nSuffix: nat) {
    && Covers(v, left, ls, l, right, rs, r)
    && RunsBounded(v, edits, context, e, e', near)
    && nSuffix == (if e < e' then v.tail else 0) && nSuffix <= r
  }

  lemma FillingNext(v: View, edits: seq<EditType>, left: Lines, right: Lines, w: seq<Pos>, context: nat, e: nat,
                    ls: nat, rs: nat, e': nat, l: nat, r: nat, near: nat, nSuffix: nat)
    requires Filling(v, edits, left, right, context, e, ls, rs, e', l, r, near, nSuffix)
    requires Walks(edits, left, right, w) && e <= e' < |edits| && At(w, e', l, r) && edits[e] != Match
    requires nSuffix >= context ==>
               e' <= near < |edits| && edits[near] != Match && Quiet(edits, e', near - e') && near - e' < context
    ensures var edit := edits[e'];
            var v' := AfterEdit(v, edit, left, l, right, r);
            && v'.lead == v.lead && At(w, e' + 1, l + TakesLeft(edit), r + TakesRight(edit))
            && Filling(v', edits, left, right, context, e, ls, rs, e' + 1, l + TakesLeft(edit), r + TakesRight(edit),
                       near,
                       if edit == Match then nSuffix + 1 else 0)
  {
    AfterEditCovers(v, edits[e'], left, ls, l, right, rs, r);
  }

  /** A hunk ready to be printed: it has taken the edits from e to e', with the context that is due. */
  ghost predicate Complete(v: View, edits: seq<EditType>, left: Lines, right: Lines, context: nat, e: nat,
                           ls: nat, rs: nat, e': nat, l: nat, r: nat) {
    && e < e' && Covers(v, left, ls, l, right, rs, r)
    && v.longest < 2 * context && v.tail <= context && (v.tail < context ==> e' == |edits|)
  }

  /** The hunk ends with the script, or where the next change is far: then enough unchanged lines lie
      behind and ahead. */
  lemma FillingEnds(v: View, edits: seq<EditType>, left: Lines, right: Lines, context: nat, e: nat,
                    ls: nat, rs: nat, e': nat, l: nat, r: nat, near: nat, nSuffix: nat, next: nat)
    requires e < |edits| && edits[e] != Match && e <= e' <= next <= |edits|
    requires Filling(v, edits, left, right, context, e, ls, rs, e', l, r, near, nSuffix)
    requires Quiet(edits, e', next - e') && (next < |edits| ==> nSuffix >= context && next - e' >= context)
    requires e' < |edits| ==> nSuffix >= context
    ensures v.Changed() <==> context > 0
    ensures v.Changed() ==> Complete(v, edits, left, right, context, e, ls, rs, e', l, r)
    ensures e' == |edits| || (Quiet(edits, e', context) && context <= r)
  {
  }

  /** Takes one edit into the hunk. */
  method FillOne(edits: seq<EditType>, left: Lines, right: Lines, ghost w: seq<Pos>, ghost context: nat, ghost e: nat,
                 e': nat, l: nat, r: nat, nSuffix: nat, hunk: Hunk, ghost ls: nat, ghost rs: nat, ghost near: nat)
    returns (l': nat, r': nat, nSuffix': nat)
    requires Walks(edits, left, right, w) && e <= e' < |edits| && At(w, e', l, r) && edits[e] != Match
    requires hunk.Valid() && Filling(hunk.Shown(), edits, left, right, context, e, ls, rs, e', l, r, near, nSuffix)
    requires nSuffix >= context ==>
               e' <= near < |edits| && edits[near] != Match && Quiet(edits, e', near - e') && near - e' < context
    modifies hunk
    ensures hunk.Valid() && hunk.Shown().lead == old(hunk.Shown().lead) && At(w, e' + 1, l', r')
    ensures Filling(hunk.Shown(), edits, left, right, context, e, ls, rs, e' + 1, l', r', near, nSuffix')
  {
    var edit := edits[e'];
    FillingNext(hunk.Shown(), edits, left, right, w, context, e, ls, rs, e', l, r, near, nSuffix);
    nSuffix' := if edit == Match then nSuffix + 1 else 0;
    PushEdit(hunk, edit, left, l, right, r);
    l' := l + TakesLeft(edit);
    r' := r + TakesRight(edit);
  }

  /** Fills a hunk from the first change on, until enough unchanged lines follow. */
  method FillHunk(edits: seq<EditType>, left: Lines, right: Lines, ghost w: seq<Pos>, context: nat, e: nat, l: nat,
                  r: nat,
                  hunk: Hunk, ghost ls: nat, ghost rs: nat)
    returns (e': nat, l': nat, r': nat)
    requires Walks(edits, left, right, w) && e < |edits| && At(w, e, l, r) && edits[e] != Match
    requires hunk.Valid() && Filling(hunk.Shown(), edits, left, right, context, e, ls, rs, e, l, r, e, 0)
    modifies hunk
    ensures e <= e' <= |edits| && At(w, e', l', r')
    ensures hunk.Valid() && hunk.Shown().lead == old(hunk.Shown().lead) && (hunk.Shown().Changed() <==> context > 0)
    ensures context > 0 ==> Complete(hunk.Shown(), edits, left, right, context, e, ls, rs, e', l', r')
    ensures e' == |edits| || (Quiet(edits, e', context) && context <= r')
  {
    e', l', r' := e, l, r;
    var nSuffix: nat := 0;
    ghost var near := e;
    while e' < |edits|
      invariant e <= e' <= |edits| && At(w, e', l', r')
      invariant hunk.Valid() && hunk.Shown().lead == old(hunk.Shown().lead)
      invariant Filling(hunk.Shown(), edits, left, right, context, e, ls, rs, e', l', r', near, nSuffix)
      decreases |edits| - e'
    {
      if nSuffix >= context {
        var far;
        ghost var next;
        far, next := NextChange(edits, e', context);
        if far {
          FillingEnds(hunk.Shown(), edits, left, right, context, e, ls, rs, e', l', r', near, nSuffix, next);
          return;
        }
        near := next;
      }
      l', r', nSuffix := FillOne(edits, left, right, w, context, e, e', l', r', nSuffix, hunk, ls, rs, near);
      e' := e' + 1;
    }
    FillingEnds(hunk.Shown(), edits, left, right, context, e, ls, rs, e', l', r', near, nSuffix, e');
  }

  /** A hunk that shows left[ls..l2] and right[rs..r2], where what precedes it since the last hunk
      is unchanged, takes the patch from one position to the other. */
  lemma HunkApplies(left: Lines, right: Lines, l0: nat, r0: nat, ls: nat, rs: nat, l2: nat, r2: nat, h: PrintedHunk)
    requires l0 <= ls <= l2 <= |left| && r0 <= rs <= r2 <= |right|
    requires left[l0..ls] == right[r0..rs]
    requires ShownBy(h.body).left == left[ls..l2] && ShownBy(h.body).right == right[rs..r2]
    requires h.left == None || h.left == Some(Range(ls + 1, l2 - ls))
    requires h.right == None || h.right == Some(Range(rs + 1, r2 - rs))
    requires h.left.Some? || h.right.Some?
    ensures ApplyHunk(left, h, Progress(l0, right[..r0])) == Some(Progress(l2, right[..r2]))
  {
    assert |left[l0..ls]| == |right[r0..rs]|;
    assert right[..r0] + right[r0..rs] + right[rs..r2] == right[..r2];
  }

  method PrintHunk(hunk: Hunk, ghost left: Lines, ghost right: Lines, ghost l0: nat, ghost r0: nat,
                   ghost ls: nat, ghost rs: nat, ghost l2: nat, ghost r2: nat, ghost context: nat)
    returns (printed: PrintedHunk)
    requires l0 <= ls && r0 <= rs && Covers(hunk.Shown(), left, ls, l2, right, rs, r2)
    requires left[l0..ls] == right[r0..rs]
    requires hunk.Valid() && hunk.HasEdits() && hunk.leftStart == ls + 1 && hunk.rightStart == rs + 1
    requires hunk.Shown().lead <= context && hunk.Shown().tail <= context && hunk.Shown().longest < 2 * context
    requires hunk.Shown().lead < context ==> ls == rs == 0
    requires hunk.Shown().tail < context ==> l2 == |left| && r2 == |right|
    modifies hunk
    ensures RemovesFirst(printed.body) && HeadersFit(printed) && WellFramed(printed, |left|, |right|, context)
    ensures ApplyHunk(left, printed, Progress(l0, right[..r0])) == Some(Progress(l2, right[..r2]))
  {
    ghost var v := hunk.Shown();
    printed := hunk.Print();
    PrintedApplies(v, left, right, l0, r0, ls, rs, l2, r2, context, printed);
  }

  /** A hunk printed from a view is accepted, and framed as the view is. */
  lemma PrintedApplies(v: View, left: Lines, right: Lines, l0: nat, r0: nat, ls: nat, rs: nat, l2: nat, r2: nat,
                       context: nat, h: PrintedHunk)
    requires l0 <= ls && r0 <= rs && Covers(v, left, ls, l2, right, rs, r2) && left[l0..ls] == right[r0..rs]
    requires v.lead <= context && v.tail <= context && v.longest < 2 * context
    requires v.lead < context ==> ls == rs == 0
    requires v.tail < context ==> l2 == |left| && r2 == |right|
    requires ShownBy(h.body) == v
    requires h.left == None || h.left == Some(Range(ls + 1, |v.left|))
    requires h.right == None || h.right == Some(Range(rs + 1, |v.right|))
    requires h.left.Some? || h.right.Some?
    ensures WellFramed(h, |left|, |right|, context)
    ensures ApplyHunk(left, h, Progress(l0, right[..r0])) == Some(Progress(l2, right[..r2]))
  {
    HunkApplies(left, right, l0, r0, ls, rs, l2, r2, h);
  }

  lemma SliceOfSlice(s: Lines, from: nat, to: nat, n: nat)
    requires from <= to <= |s| && n <= to - from
    ensures s[from..to - n] == s[from..to][..to - n - from] && s[to - n..to] == s[from..to][to - n - from..]
  {
  }

  lemma SameTail(left: Lines, right: Lines, l0: nat, r0: nat, l: nat, r: nat, n: nat)
    requires l0 <= l <= |left| && r0 <= r <= |right| && n <= l - l0
    requires left[l0..l] == right[r0..r]
    ensures n <= r - r0 && left[l0..l - n] == right[r0..r - n] && left[l - n..l] == right[r - n..r]
  {
    assert |left[l0..l]| == |right[r0..r]|;
    SliceOfSlice(left, l0, l, n);
    SliceOfSlice(right, r0, r, n);
  }

  /** After the last hunk only unchanged lines follow. */
  lemma PatchCompletes(left: Lines, right: Lines, hunks: seq<PrintedHunk>, l: nat, r: nat)
    requires l <= |left| && r <= |right| && left[l..] == right[r..]
    requires ApplyHunks(left, hunks) == Some(Progress(l, right[..r]))
    ensures Patch(left, hunks) == Some(right)
  {
    assert right[..r] + right[r..] == right;
  }

  /** Where one hunk ends and the search for the next begins: at the start, at the end, or with
      enough unchanged lines on both sides. */
  ghost predicate BetweenHunks(edits: seq<EditType>, w: seq<Pos>, context: nat, e: nat, l: nat, r: nat) {
    && e <= |edits| && At(w, e, l, r)
    && (e == l == r == 0 || e == |edits| || (Quiet(edits, e, context) && context <= r))
  }

  /** Enough unchanged lines have been skipped before a change for the context of its hunk. */
  lemma OpenCovers(v: View, edits: seq<EditType>, left: Lines, right: Lines, w: seq<Pos>, context: nat, e: nat,
                   l: nat, r: nat, e': nat, l': nat, r': nat, prefix: nat)
    requires Walks(edits, left, right, w) && BetweenHunks(edits, w, context, e, l, r)
    requires e <= e' < |edits| && edits[e'] != Match
    requires At(w, e', l', r') && e' - e == l' - l == r' - r && left[l..l'] == right[r..r']
    requires prefix == (if l' < context then l' else context)
    requires v == PrefixView(left, l' - prefix, l')
    ensures prefix <= l' - l && left[l..l' - prefix] == right[r..r' - prefix]
    ensures Filling(v, edits, left, right, context, e', l' - prefix, r' - prefix, e', l', r', e', 0)
    ensures v.lead < context ==> l' == r' == prefix
  {
    SameTail(left, right, l, r, l', r', prefix);
  }

  /** Skips to the next change and opens a hunk with the unchanged lines before it. */
  method OpenHunk(edits: seq<EditType>, left: Lines, right: Lines, ghost w: seq<Pos>, context: nat, e: nat, l: nat,
                  r: nat)
    returns (e': nat, l': nat, r': nat, hunk: Hunk, ghost ls: nat, ghost rs: nat)
    requires Walks(edits, left, right, w) && BetweenHunks(edits, w, context, e, l, r) && e < |edits|
    ensures e <= e' <= |edits| && At(w, e', l', r') && (e' < |edits| ==> edits[e'] != Match)
    ensures fresh(hunk) && hunk.Valid() && !hunk.HasEdits()
    ensures hunk.leftStart == ls + 1 && hunk.rightStart == rs + 1
    ensures e' < |edits| ==> Filling(hunk.Shown(), edits, left, right, context, e', ls, rs, e', l', r', e', 0)
    ensures e' < |edits| ==> l <= ls && r <= rs && left[l..ls] == right[r..rs]
    ensures e' < |edits| && hunk.Shown().lead < context ==> ls == rs == 0
    ensures hunk.Shown().lead <= context
    ensures e' == |edits| ==> Quiet(edits, e, |edits| - e) && left[l..] == right[r..]
  {
    e', l', r' := SkipMatches(edits, left, right, w, e, l, r);
    var prefix := if l' < context then l' else context;
    ls, rs := l' - prefix, r' - prefix;
    hunk := StartHunk(left, l', r', prefix);
    if e' < |edits| {
      OpenCovers(hunk.Shown(), edits, left, right, w, context, e, l, r, e', l', r', prefix);
    } else {
      SliceToEnd(left, l);
      SliceToEnd(right, r);
    }
  }

  /** One round of the outer loop. */
  method NextHunk(edits: seq<EditType>, left: Lines, right: Lines, ghost w: seq<Pos>, context: nat, e: nat, l: nat,
                  r: nat)
    returns (e': nat, l': nat, r': nat, printed: Option<PrintedHunk>)
    requires Walks(edits, left, right, w) && BetweenHunks(edits, w, context, e, l, r) && e < |edits|
    ensures BetweenHunks(edits, w, context, e', l', r')
    ensures printed.Some? ==>
              && e < e' && context > 0 && (exists edit :: edit in edits && edit != Match)
              && RemovesFirst(printed.value.body) && HeadersFit(printed.value)
              && WellFramed(printed.value, |left|, |right|, context)
              && ApplyHunk(left, printed.value, Progress(l, right[..r])) == Some(Progress(l', right[..r']))
    ensures printed.None? ==> context == 0 || (Quiet(edits, e, |edits| - e) && left[l..] == right[r..])
  {
    var e1, l1, r1, hunk, ls, rs := OpenHunk(edits, left, right, w, context, e, l, r);
    e', l', r' := e1, l1, r1;
    if e1 < |edits| {
      e', l', r' := FillHunk(edits, left, right, w, context, e1, l1, r1, hunk, ls, rs);
    }
    if !hunk.HasEdits() {
      printed := None;
      return;
    }
    assert edits[e1] in edits;
    var p := PrintHunk(hunk, left, right, l, r, ls, rs, l', r', context);
    printed := Some(p);
  }

  lemma ScriptWalks(edits: seq<EditType>, left: Lines, right: Lines) returns (w: seq<Pos>)
    requires IsScript(edits, left, right)
    ensures Walks(edits, left, right, w)
  {
    assert left[0..] == left && right[0..] == right;
    w := WalkFrom(edits, left, right, Pos(0, 0));
  }

  ghost predicate AllMatches(edits: seq<EditType>) {
    forall e :: e in edits ==> e == Match
  }

  lemma QuietIsAllMatches(edits: seq<EditType>)
    ensures Quiet(edits, 0, |edits|) <==> AllMatches(edits)
  {
    if AllMatches(edits) {
      assert forall k :: 0 <= k < |edits| ==> edits[k] in edits;
    }
  }

  /** The hunks of any script, optimal or not, patch the left lines into the right ones, except that
      with a context of zero no change is ever reported. */
  method DiffOfScript(edits: seq<EditType>, left: Lines, right: Lines, context: nat) returns (hunks: seq<PrintedHunk>)
    requires IsScript(edits, left, right)
    ensures Patch(left, hunks) == Some(right) <==> context > 0 || left == right
    ensures hunks == [] <==> context == 0 || AllMatches(edits)
    ensures forall h :: h in hunks ==> RemovesFirst(h.body) && HeadersFit(h) && WellFramed(h, |left|, |right|, context)
  {
    ghost var w := ScriptWalks(edits, left, right);
    QuietIsAllMatches(edits);
    hunks := [];
    var e: nat, l: nat, r: nat := 0, 0, 0;
    while e < |edits|
      invariant BetweenHunks(edits, w, context, e, l, r)
      invariant ApplyHunks(left, hunks) == Some(Progress(l, right[..r]))
      invariant hunks == [] ==> e == 0
      invariant hunks != [] ==> context > 0 && !AllMatches(edits)
      invariant forall h :: h in hunks ==>
                              RemovesFirst(h.body) && HeadersFit(h) && WellFramed(h, |left|, |right|, context)
      decreases |edits| - e
    {
      var e', l', r', printed := NextHunk(edits, left, right, w, context, e, l, r);
      if printed.None? {
        if context > 0 {
          PatchCompletes(left, right, hunks, l, r);
        } else {
          assert hunks == [] && [] + left[0..] == left;
        }
        return;
      }
      assert (hunks + [printed.value])[..|hunks|] == hunks;
      hunks := hunks + [printed.value];
      e, l, r := e', l', r';
    }
    PatchCompletes(left, right, hunks, l, r);
  }

  /** Applying the diff to the left lines gives the right ones, except that with a context of zero
      no change is ever reported. */
  method CreateUnifiedDiff(left: Lines, right: Lines, context: nat := 2) returns (hunks: seq<PrintedHunk>)
    ensures Patch(left, hunks) == Some(right) <==> context > 0 || left == right
    ensures hunks == [] <==> context == 0 || left == right
    ensures forall h :: h in hunks ==> RemovesFirst(h.body) && HeadersFit(h) && WellFramed(h, |left|, |right|, context)
  {
    var edits := CalculateOptimalEdits(left, right);
    BestPathIsScript(left, right);
    AllMatchesIffEqual(left, right);
    hunks := DiffOfScript(edits, left, right, context);
  }
}
