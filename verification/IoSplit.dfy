/** Splitting large disk requests into parts of bounded length. */
module IoSplit {
  import opened Arithmetic
  import opened Sequences
  import opened Wrappers

  datatype OpType = Read | Readv | Write | Writev | Fdatasync | Recv | Recvmsg | Send | Sendmsg
                  | Accept | Connect | PollAdd | PollRemove | Cancel

  datatype Iovec = Iovec(base: nat, len: nat)

  /** The variants of the source's union that Split looks at: read and write share one layout, readv
      and writev another. */
  datatype IoRequest =
    | BufferOp(op: OpType, nowaitWorks: bool, fd: int, pos: nat, addr: nat, size: nat)
    | VecOp(op: OpType, nowaitWorks: bool, fd: int, pos: nat, iovecs: seq<Iovec>)
    | OtherOp(op: OpType)
  {
    /** The tag agrees with the layout. */
    ghost predicate Valid() {
      match this
      case BufferOp(op, _, _, _, _, _) => op == Read || op == Write
      case VecOp(op, _, _, _, _) => op == Readv || op == Writev
      case OtherOp(op) => op != Read && op != Write && op != Readv && op != Writev
    }

    function SubReqBuffer(off: nat, len: nat): IoRequest
      requires BufferOp?
    {
      BufferOp(op, nowaitWorks, fd, pos + off, addr + off, len)
    }

    function SubReqIovec(off: nat, iov: seq<Iovec>): IoRequest
      requires VecOp?
    {
      VecOp(op, nowaitWorks, fd, pos + off, iov)
    }
  }

  datatype IoPart = IoPart(req: IoRequest, size: nat, iovecs: seq<Iovec>)

  // ----- The bytes a request touches -----

  /** Consecutive byte addresses. */
  ghost function Run(base: nat, len: nat): (s: seq<nat>)
    ensures |s| == len && forall i :: 0 <= i < len ==> s[i] == base + i
  {
    seq(len, i requires 0 <= i => base + i)
  }

  lemma RunConcat(base: nat, m: nat, n: nat)
    ensures Run(base, m + n) == Run(base, m) + Run(base + m, n)
  {
  }

  /** The addresses from the i-th iovec on, in transfer order. */
  ghost function AddressesFrom(iovecs: seq<Iovec>, i: nat): seq<nat>
    requires i <= |iovecs|
    decreases |iovecs| - i
  {
    if i == |iovecs| then [] else Run(iovecs[i].base, iovecs[i].len) + AddressesFrom(iovecs, i + 1)
  }

  ghost function Addresses(iovecs: seq<Iovec>): seq<nat> {
    AddressesFrom(iovecs, 0)
  }

  lemma {:induction false} AddressesSnoc(iovecs: seq<Iovec>, v: Iovec, i: nat)
    requires i <= |iovecs|
    ensures AddressesFrom(iovecs + [v], i) == AddressesFrom(iovecs, i) + Run(v.base, v.len)
    decreases |iovecs| - i
  {
    if i < |iovecs| {
      AddressesSnoc(iovecs, v, i + 1);
    }
  }

  /** The memory bytes of a request in transfer order; the i-th goes with file position pos + i. */
  ghost function Target(req: IoRequest): seq<nat> {
    match req
    case BufferOp(_, _, _, _, addr, size) => Run(addr, size)
    case VecOp(_, _, _, _, iovecs) => Addresses(iovecs)
    case OtherOp(_) => []
  }

  // ----- What a split is -----

  ghost function Flatten(parts: seq<IoPart>): seq<nat> {
    if parts == [] then [] else Flatten(parts[..|parts| - 1]) + Target(parts[|parts| - 1].req)
  }

  /** A part of the given request that begins off bytes into it. */
  ghost predicate IsPartAt(req: IoRequest, off: nat, part: IoPart) {
    && part.size == |Target(part.req)|
    && match req
       case BufferOp(op, nowait, fd, pos, addr, _) =>
         part == IoPart(BufferOp(op, nowait, fd, pos + off, addr + off, part.size), part.size, [])
       case VecOp(op, nowait, fd, pos, _) =>
         part.req == VecOp(op, nowait, fd, pos + off, part.iovecs)
       case OtherOp(_) => false
  }

  /** Parts of the maximum length, each beginning where the one before ends. */
  ghost predicate FullParts(req: IoRequest, maxLength: nat, parts: seq<IoPart>) {
    parts == [] ||
    (var front, last := parts[..|parts| - 1], parts[|parts| - 1];
     && FullParts(req, maxLength, front)
     && IsPartAt(req, |Flatten(front)|, last) && last.size == maxLength)
  }

  /** The parts together transfer the same bytes in the same order, each at its own place in the file.
      All but the last have the maximum length; the last is empty only if it is the only one. */
  ghost predicate IsSplit(req: IoRequest, maxLength: nat, parts: seq<IoPart>) {
    && Flatten(parts) == Target(req)
    && (parts == [] <==> req.VecOp? && req.iovecs == [])
    && (parts != [] ==>
          var front, last := parts[..|parts| - 1], parts[|parts| - 1];
          && FullParts(req, maxLength, front)
          && IsPartAt(req, |Flatten(front)|, last)
          && last.size <= maxLength && (front != [] ==> last.size > 0))
  }

  lemma FullPartsSnoc(req: IoRequest, maxLength: nat, parts: seq<IoPart>, part: IoPart)
    requires FullParts(req, maxLength, parts) && IsPartAt(req, |Flatten(parts)|, part) && part.size == maxLength
    ensures FullParts(req, maxLength, parts + [part])
    ensures Flatten(parts + [part]) == Flatten(parts) + Target(part.req)
  {
    assert (parts + [part])[..|parts|] == parts;
  }

  lemma SplitEnds(req: IoRequest, maxLength: nat, parts: seq<IoPart>, part: IoPart)
    requires FullParts(req, maxLength, parts) && IsPartAt(req, |Flatten(parts)|, part)
    requires part.size <= maxLength && (parts != [] ==> part.size > 0)
    requires Flatten(parts) + Target(part.req) == Target(req) && (req.VecOp? ==> req.iovecs != [])
    ensures IsSplit(req, maxLength, parts + [part])
  {
    assert (parts + [part])[..|parts|] == parts;
  }

  // ----- Splitting -----

  lemma BufferPiece(req: IoRequest, parts: seq<IoPart>, off: nat, len: nat)
    requires req.BufferOp? && off + len <= req.size && Flatten(parts) == Run(req.addr, off)
    ensures var part := IoPart(req.SubReqBuffer(off, len), len, []);
            IsPartAt(req, |Flatten(parts)|, part) && Flatten(parts) + Target(part.req) == Run(req.addr, off + len)
  {
    RunConcat(req.addr, off, len);
  }

  method SplitBuffer(req: IoRequest, maxLength: nat) returns (parts: seq<IoPart>)
    requires req.BufferOp? && maxLength > 0
    ensures IsSplit(req, maxLength, parts)
  {
    parts := [];
    var off := 0;
    while true
      invariant off <= req.size && (parts != [] ==> off < req.size)
      invariant FullParts(req, maxLength, parts)
      invariant Flatten(parts) == Run(req.addr, off)
      decreases req.size - off
    {
      var len := if req.size - off < maxLength then req.size - off else maxLength;
      var part := IoPart(req.SubReqBuffer(off, len), len, []);
      BufferPiece(req, parts, off, len);
      if off + len == req.size {
        SplitEnds(req, maxLength, parts, part);
      } else {
        FullPartsSnoc(req, maxLength, parts, part);
      }
      parts := parts + [part];
      off := off + len;
      if off >= req.size {
        break;
      }
    }
  }

  /** The iovecs of all parts, in order. */
  ghost function Pieces(parts: seq<IoPart>): seq<Iovec> {
    if parts == [] then [] else Pieces(parts[..|parts| - 1]) + parts[|parts| - 1].iovecs
  }

  /** The pieces are the first cur iovecs and off bytes of the next one, none of them dropped, merged or
      reordered: each is a whole iovec, an empty one included, or a stretch of one. */
  ghost predicate Cuts(iovecs: seq<Iovec>, cur: nat, off: nat, pieces: seq<Iovec>) {
    if pieces == [] then cur == 0 && off == 0
    else
      var front, last := pieces[..|pieces| - 1], pieces[|pieces| - 1];
      if off > 0 then
        && cur < |iovecs| && off < iovecs[cur].len && 0 < last.len <= off
        && last.base + last.len == iovecs[cur].base + off
        && Cuts(iovecs, cur, off - last.len, front)
      else
        && 0 < cur <= |iovecs| && last.len <= iovecs[cur - 1].len
        && last.base + last.len == iovecs[cur - 1].base + iovecs[cur - 1].len
        && Cuts(iovecs, cur - 1, iovecs[cur - 1].len - last.len, front)
  }

  lemma CutsSnoc(iovecs: seq<Iovec>, cur: nat, off: nat, pieces: seq<Iovec>, iov: Iovec)
    requires Cuts(iovecs, cur, off, pieces) && cur < |iovecs|
    requires iov.base == iovecs[cur].base + off && off + iov.len <= iovecs[cur].len
    requires iov.len > 0 || off + iov.len == iovecs[cur].len
    ensures off + iov.len == iovecs[cur].len ==> Cuts(iovecs, cur + 1, 0, pieces + [iov])
    ensures off + iov.len < iovecs[cur].len ==> Cuts(iovecs, cur, off + iov.len, pieces + [iov])
  {
    assert (pieces + [iov])[..|pieces|] == pieces;
  }

  /** The split of the whole list of iovecs. */
  ghost predicate CutsAll(req: IoRequest, parts: seq<IoPart>)
    requires req.VecOp?
  {
    CutSoFar(req.iovecs, |req.iovecs|, 0, parts, [])
  }

  ghost predicate CutSoFar(iovecs: seq<Iovec>, cur: nat, off: nat, parts: seq<IoPart>, vecs: seq<Iovec>) {
    Cuts(iovecs, cur, off, Pieces(parts) + vecs)
  }

  lemma CutNext(iovecs: seq<Iovec>, cur: nat, off: nat, parts: seq<IoPart>, vecs: seq<Iovec>, iov: Iovec)
    requires CutSoFar(iovecs, cur, off, parts, vecs) && cur < |iovecs|
    requires iov.base == iovecs[cur].base + off && off + iov.len <= iovecs[cur].len
    requires iov.len > 0 || off + iov.len == iovecs[cur].len
    ensures off + iov.len == iovecs[cur].len ==> CutSoFar(iovecs, cur + 1, 0, parts, vecs + [iov])
    ensures off + iov.len < iovecs[cur].len ==> CutSoFar(iovecs, cur, off + iov.len, parts, vecs + [iov])
  {
    CutsSnoc(iovecs, cur, off, Pieces(parts) + vecs, iov);
    assert Pieces(parts) + vecs + [iov] == Pieces(parts) + (vecs + [iov]);
  }

  lemma CutClosed(iovecs: seq<Iovec>, cur: nat, off: nat, parts: seq<IoPart>, vecs: seq<Iovec>, part: IoPart)
    requires CutSoFar(iovecs, cur, off, parts, vecs) && part.iovecs == vecs
    ensures CutSoFar(iovecs, cur, off, parts + [part], [])
  {
    assert (parts + [part])[..|parts|] == parts;
    assert Pieces(parts + [part]) + [] == Pieces(parts) + vecs;
  }

  /** What is still to be taken from the iovecs. */
  ghost function Rest(iovecs: seq<Iovec>, cur: nat, off: nat): seq<nat>
    requires cur <= |iovecs| && (cur < |iovecs| ==> off <= iovecs[cur].len)
  {
    if cur == |iovecs| then []
    else Run(iovecs[cur].base + off, iovecs[cur].len - off) + AddressesFrom(iovecs, cur + 1)
  }

  /** The loop state of SplitIovec. The bytes taken are those in parts followed by those in vecs, and
      with the rest they make up the whole; pos is where the part under construction begins, and
      remaining is the room left in it. */
  ghost predicate Progress(req: IoRequest, maxLength: nat, cur: nat, off: nat, pos: nat, remaining: nat,
                           vecs: seq<Iovec>, parts: seq<IoPart>, taken: seq<nat>)
    requires req.VecOp?
  {
    && cur <= |req.iovecs| && (off > 0 ==> cur < |req.iovecs| && off < req.iovecs[cur].len)
    && remaining <= maxLength && (vecs == [] && cur == |req.iovecs| ==> cur == 0)
    && taken + Rest(req.iovecs, cur, off) == Target(req)
    && Flatten(parts) + Addresses(vecs) == taken && |taken| == pos + maxLength - remaining
    && FullParts(req, maxLength, parts) && |Flatten(parts)| == pos && (parts != [] ==> pos < |Target(req)|)
    && CutSoFar(req.iovecs, cur, off, parts, vecs)
  }

  lemma RestSplits(iovecs: seq<Iovec>, cur: nat, off: nat, len: nat)
    requires cur < |iovecs| && off + len <= iovecs[cur].len
    ensures Rest(iovecs, cur, off) == Run(iovecs[cur].base + off, len) + Rest(iovecs, cur, off + len)
  {
    var base, left := iovecs[cur].base + off, iovecs[cur].len - off - len;
    RunConcat(base, len, left);
    Assoc(Run(base, len), Run(base + len, left), AddressesFrom(iovecs, cur + 1));
  }

  lemma RestMovesOn(iovecs: seq<Iovec>, cur: nat)
    requires cur < |iovecs|
    ensures Rest(iovecs, cur, iovecs[cur].len) == Rest(iovecs, cur + 1, 0)
  {
    assert Run(iovecs[cur].base + iovecs[cur].len, 0) == [];
    assert AddressesFrom(iovecs, cur + 1) == Rest(iovecs, cur + 1, 0);
  }

  /** The next bytes of the current iovec move from the rest to the part under construction. */
  lemma TakePiece(iovecs: seq<Iovec>, cur: nat, off: nat, iov: Iovec, vecs: seq<Iovec>, before: seq<nat>,
                  taken: seq<nat>, all: seq<nat>)
    requires cur < |iovecs| && iov.base == iovecs[cur].base + off && off + iov.len <= iovecs[cur].len
    requires before + Addresses(vecs) == taken && taken + Rest(iovecs, cur, off) == all
    ensures var now := taken + Run(iov.base, iov.len);
            && before + Addresses(vecs + [iov]) == now && now + Rest(iovecs, cur, off + iov.len) == all
            && |now| == |taken| + iov.len
  {
    var piece := Run(iov.base, iov.len);
    RestSplits(iovecs, cur, off, iov.len);
    Assoc(taken, piece, Rest(iovecs, cur, off + iov.len));
    AddressesSnoc(vecs, iov, 0);
    Assoc(before, Addresses(vecs), piece);
  }

  /** The rest of the current iovec fits: it is taken whole. */
  lemma TakeRest(req: IoRequest, maxLength: nat, cur: nat, off: nat, pos: nat, remaining: nat,
                 vecs: seq<Iovec>, parts: seq<IoPart>, taken: seq<nat>, iov: Iovec)
    requires req.VecOp? && Progress(req, maxLength, cur, off, pos, remaining, vecs, parts, taken)
    requires cur < |req.iovecs| && iov.len <= remaining
    requires iov.base == req.iovecs[cur].base + off && off + iov.len == req.iovecs[cur].len
    ensures Progress(req, maxLength, cur + 1, 0, pos, remaining - iov.len, vecs + [iov], parts,
                     taken + Run(iov.base, iov.len))
  {
    TakePiece(req.iovecs, cur, off, iov, vecs, Flatten(parts), taken, Target(req));
    RestMovesOn(req.iovecs, cur);
    CutNext(req.iovecs, cur, off, parts, vecs, iov);
  }

  /** It does not fit: the part is filled up. */
  lemma TakeSome(req: IoRequest, maxLength: nat, cur: nat, off: nat, pos: nat, remaining: nat,
                 vecs: seq<Iovec>, parts: seq<IoPart>, taken: seq<nat>, iov: Iovec)
    requires req.VecOp? && Progress(req, maxLength, cur, off, pos, remaining, vecs, parts, taken)
    requires cur < |req.iovecs| && iov.len == remaining > 0
    requires iov.base == req.iovecs[cur].base + off && off + iov.len < req.iovecs[cur].len
    ensures Progress(req, maxLength, cur, off + iov.len, pos, 0, vecs + [iov], parts, taken + Run(iov.base, iov.len))
  {
    TakePiece(req.iovecs, cur, off, iov, vecs, Flatten(parts), taken, Target(req));
    CutNext(req.iovecs, cur, off, parts, vecs, iov);
  }

  /** The full part is closed, with some of the current iovec left. */
  lemma ClosePart(req: IoRequest, maxLength: nat, cur: nat, off: nat, pos: nat,
                  vecs: seq<Iovec>, parts: seq<IoPart>, taken: seq<nat>, part: IoPart)
    requires req.VecOp? && Progress(req, maxLength, cur, off, pos, 0, vecs, parts, taken)
    requires cur < |req.iovecs| && off < req.iovecs[cur].len
    requires part == IoPart(req.SubReqIovec(pos, vecs), maxLength, vecs)
    ensures Progress(req, maxLength, cur, off, pos + maxLength, maxLength, [], parts + [part], taken)
  {
    FullPartIsPart(req, maxLength, vecs, parts, taken, part);
    FullPartsSnoc(req, maxLength, parts, part);
    CutClosed(req.iovecs, cur, off, parts, vecs, part);
    RestNonEmpty(req.iovecs, cur, off);
    assert taken + [] == taken;
  }

  lemma FullPartIsPart(req: IoRequest, maxLength: nat, vecs: seq<Iovec>, parts: seq<IoPart>, taken: seq<nat>,
                       part: IoPart)
    requires req.VecOp? && Flatten(parts) + Addresses(vecs) == taken && |taken| == |Flatten(parts)| + maxLength
    requires part == IoPart(req.SubReqIovec(|Flatten(parts)|, vecs), maxLength, vecs)
    ensures IsPartAt(req, |Flatten(parts)|, part) && Flatten(parts) + Target(part.req) == taken
  {
  }

  lemma RestNonEmpty(iovecs: seq<Iovec>, cur: nat, off: nat)
    requires cur < |iovecs| && off < iovecs[cur].len
    ensures |Rest(iovecs, cur, off)| > 0
  {
  }

  /** All iovecs are taken: what is under construction is the last part. */
  lemma Finish(req: IoRequest, maxLength: nat, cur: nat, off: nat, pos: nat, remaining: nat,
               vecs: seq<Iovec>, parts: seq<IoPart>, taken: seq<nat>)
    requires req.VecOp? && Progress(req, maxLength, cur, off, pos, remaining, vecs, parts, taken)
    requires cur == |req.iovecs|
    ensures var part := IoPart(req.SubReqIovec(pos, vecs), maxLength - remaining, vecs);
            var all := if |vecs| > 0 then parts + [part] else parts;
            IsSplit(req, maxLength, all) && CutsAll(req, all)
  {
    assert req.iovecs == [] ==> Pieces(parts) + vecs == [];
    assert taken + [] == taken;
    if |vecs| > 0 {
      CutClosed(req.iovecs, cur, off, parts, vecs, IoPart(req.SubReqIovec(pos, vecs), maxLength - remaining, vecs));
      SplitEnds(req, maxLength, parts, IoPart(req.SubReqIovec(pos, vecs), maxLength - remaining, vecs));
    }
  }

  /** Takes as much of an iovec as there is room for, if there is any. */
  method FillUp(req: IoRequest, maxLength: nat, cur: nat, off: nat, ghost pos: nat, remaining: nat,
                vecs: seq<Iovec>, ghost parts: seq<IoPart>, ghost taken: seq<nat>, iov: Iovec)
    returns (off': nat, vecs': seq<Iovec>, ghost taken': seq<nat>)
    requires req.VecOp? && Progress(req, maxLength, cur, off, pos, remaining, vecs, parts, taken)
    requires cur < |req.iovecs| && remaining < iov.len
    requires iov.base == req.iovecs[cur].base + off && off + iov.len == req.iovecs[cur].len
    ensures Progress(req, maxLength, cur, off', pos, 0, vecs', parts, taken')
    ensures off' == off + remaining < req.iovecs[cur].len
  {
    off', vecs', taken' := off, vecs, taken;
    if remaining > 0 {
      var piece := iov.(len := remaining);
      TakeSome(req, maxLength, cur, off, pos, remaining, vecs, parts, taken, piece);
      taken' := taken + Run(piece.base, piece.len);
      off' := off + remaining;
      vecs' := vecs + [piece];
    }
  }

  method SplitIovec(req: IoRequest, maxLength: nat) returns (parts: seq<IoPart>)
    requires req.VecOp? && maxLength > 0
    ensures IsSplit(req, maxLength, parts) && CutsAll(req, parts)
  {
    parts := [];
    var vecs := [];
    var cur: nat, remaining: nat, pos: nat, off: nat := 0, maxLength, 0, 0;
    ghost var taken: seq<nat> := [];
    while cur != |req.iovecs|
      invariant Progress(req, maxLength, cur, off, pos, remaining, vecs, parts, taken)
      decreases |req.iovecs| - cur, if cur < |req.iovecs| then req.iovecs[cur].len - off else 0,
                if remaining == 0 then 1 else 0
    {
      var iov := Iovec(req.iovecs[cur].base + off, req.iovecs[cur].len - off);
      if iov.len <= remaining {
        TakeRest(req, maxLength, cur, off, pos, remaining, vecs, parts, taken, iov);
        taken := taken + Run(iov.base, iov.len);
        remaining := remaining - iov.len;
        vecs := vecs + [iov];
        cur := cur + 1;
        off := 0;
        continue;
      }
      off, vecs, taken := FillUp(req, maxLength, cur, off, pos, remaining, vecs, parts, taken, iov);
      var part := IoPart(req.SubReqIovec(pos, vecs), maxLength, vecs);
      ClosePart(req, maxLength, cur, off, pos, vecs, parts, taken, part);
      parts := parts + [part];
      vecs := [];
      pos := pos + maxLength;
      remaining := maxLength;
    }
    Finish(req, maxLength, cur, off, pos, remaining, vecs, parts, taken);
    if |vecs| > 0 {
      parts := parts + [IoPart(req.SubReqIovec(pos, vecs), maxLength - remaining, vecs)];
    }
  }

  /** Requests of other kinds cannot be split: the source aborts. */
  method Split(req: IoRequest, maxLength: nat) returns (parts: Option<seq<IoPart>>)
    requires req.Valid() && maxLength > 0
    ensures parts.None? <==> req.OtherOp?
    ensures parts.Some? ==> IsSplit(req, maxLength, parts.value) && (req.VecOp? ==> CutsAll(req, parts.value))
  {
    if req.op == Read || req.op == Write {
      var ps := SplitBuffer(req, maxLength);
      return Some(ps);
    }
    if req.op == Readv || req.op == Writev {
      var ps := SplitIovec(req, maxLength);
      return Some(ps);
    }
    return None;
  }

  // ----- What a split looks like, part by part -----

  lemma {:induction false} FullPartsSize(req: IoRequest, maxLength: nat, parts: seq<IoPart>)
    requires FullParts(req, maxLength, parts)
    ensures |Flatten(parts)| == |parts| * maxLength
  {
    if parts != [] {
      FullPartsSize(req, maxLength, parts[..|parts| - 1]);
      assert |parts| * maxLength == (|parts| - 1) * maxLength + maxLength;
    }
  }

  lemma {:induction false} FullPartsAt(req: IoRequest, maxLength: nat, parts: seq<IoPart>, k: nat)
    requires FullParts(req, maxLength, parts) && k < |parts|
    ensures FullParts(req, maxLength, parts[..k])
    ensures IsPartAt(req, |Flatten(parts[..k])|, parts[k]) && parts[k].size == maxLength
    ensures Flatten(parts[..k]) + Target(parts[k].req) <= Flatten(parts)
  {
    var front := parts[..|parts| - 1];
    if k < |front| {
      FullPartsAt(req, maxLength, front, k);
      assert front[..k] == parts[..k];
    }
  }

  lemma PartBeforeLast(req: IoRequest, maxLength: nat, parts: seq<IoPart>, k: nat)
    requires IsSplit(req, maxLength, parts) && k < |parts| - 1
    ensures IsPartAt(req, |Flatten(parts[..k])|, parts[k]) && parts[k].size == maxLength
    ensures Flatten(parts[..k]) + Target(parts[k].req) <= Target(req)
  {
    var front := parts[..|parts| - 1];
    FullPartsAt(req, maxLength, front, k);
    assert front[..k] == parts[..k];
  }

  lemma LastPart(req: IoRequest, maxLength: nat, parts: seq<IoPart>)
    requires IsSplit(req, maxLength, parts) && parts != []
    ensures var front, last := parts[..|parts| - 1], parts[|parts| - 1];
            && IsPartAt(req, |Flatten(front)|, last) && last.size <= maxLength
            && Flatten(front) + Target(last.req) == Target(req)
  {
  }

  /** Part k takes the bytes that follow those of the parts before it: the maximum length, or in the
      last part all that is left. */
  lemma PartOfSplit(req: IoRequest, maxLength: nat, parts: seq<IoPart>, k: nat)
    requires IsSplit(req, maxLength, parts) && k < |parts|
    ensures IsPartAt(req, |Flatten(parts[..k])|, parts[k])
    ensures Flatten(parts[..k]) + Target(parts[k].req) <= Target(req)
    ensures if k + 1 < |parts| then parts[k].size == maxLength
            else parts[k].size == |Target(req)| - |Flatten(parts[..k])| <= maxLength
  {
    if k < |parts| - 1 {
      PartBeforeLast(req, maxLength, parts, k);
    } else {
      LastPart(req, maxLength, parts);
    }
  }

  /** Those are k times the maximum length. */
  lemma PartOffset(req: IoRequest, maxLength: nat, parts: seq<IoPart>, k: nat)
    requires IsSplit(req, maxLength, parts) && k < |parts|
    ensures |Flatten(parts[..k])| == k * maxLength
  {
    var front := parts[..|parts| - 1];
    if k < |front| {
      FullPartsAt(req, maxLength, front, k);
      assert front[..k] == parts[..k];
    }
    FullPartsSize(req, maxLength, parts[..k]);
  }

  /** n parts of the maximum length are needed for the total, and at least one. */
  ghost predicate RoundedUp(n: nat, maxLength: nat, total: nat) {
    if total == 0 then n == 1 else (n - 1) * maxLength < total <= n * maxLength
  }

  /** How many parts there are: one for an empty request (none if it has no iovec at all), otherwise
      the total divided by the maximum length, rounded up. */
  lemma PartCount(req: IoRequest, maxLength: nat, parts: seq<IoPart>)
    requires maxLength > 0 && IsSplit(req, maxLength, parts) && parts != []
    ensures RoundedUp(|parts|, maxLength, |Target(req)|)
  {
    var last := |parts| - 1;
    PartOfSplit(req, maxLength, parts, last);
    PartOffset(req, maxLength, parts, last);
    assert |parts| * maxLength == last * maxLength + maxLength;
  }

  lemma RoundedUpUnique(m: nat, n: nat, maxLength: nat, total: nat)
    requires RoundedUp(m, maxLength, total) && RoundedUp(n, maxLength, total)
    ensures m == n
  {
    if n < m {
      MulMonotone(n, m - 1, maxLength);
    } else if m < n {
      MulMonotone(m, n - 1, maxLength);
    }
  }

  lemma PartsAgree(a: IoRequest, b: IoRequest, maxLength: nat, ps: seq<IoPart>, qs: seq<IoPart>, k: nat)
    requires IsSplit(a, maxLength, ps) && IsSplit(b, maxLength, qs)
    requires Target(a) == Target(b) && k < |ps| == |qs|
    ensures ps[k].size == qs[k].size && Target(ps[k].req) == Target(qs[k].req)
    ensures exists off :: IsPartAt(a, off, ps[k]) && IsPartAt(b, off, qs[k])
  {
    PartOffset(a, maxLength, ps, k);
    PartOffset(b, maxLength, qs, k);
    PartOfSplit(a, maxLength, ps, k);
    PartOfSplit(b, maxLength, qs, k);
    SamePlace(Flatten(ps[..k]), Target(ps[k].req), Flatten(qs[..k]), Target(qs[k].req), Target(a));
  }

  lemma SamePlace<T>(a: seq<T>, b: seq<T>, c: seq<T>, d: seq<T>, all: seq<T>)
    requires a + b <= all && c + d <= all && |a| == |c| && |b| == |d|
    ensures b == d
  {
    forall i | 0 <= i < |b| ensures b[i] == d[i] {
      assert (a + b)[|a| + i] == all[|a| + i] == (c + d)[|a| + i];
    }
  }

  lemma SameCount(a: IoRequest, b: IoRequest, maxLength: nat, ps: seq<IoPart>, qs: seq<IoPart>)
    requires maxLength > 0 && IsSplit(a, maxLength, ps) && IsSplit(b, maxLength, qs)
    requires Target(a) == Target(b) && a.BufferOp? && b.VecOp? && b.iovecs != []
    ensures |ps| == |qs|
  {
    PartCount(a, maxLength, ps);
    PartCount(b, maxLength, qs);
    RoundedUpUnique(|ps|, |qs|, maxLength, |Target(a)|);
  }

  /** Two requests for the same bytes are split alike, whatever their layout: in particular a single
      iovec is split as the buffer it describes. */
  lemma SplitsAgree(a: IoRequest, b: IoRequest, maxLength: nat, ps: seq<IoPart>, qs: seq<IoPart>)
    requires maxLength > 0 && IsSplit(a, maxLength, ps) && IsSplit(b, maxLength, qs)
    requires Target(a) == Target(b) && a.BufferOp? && b.VecOp? && b.iovecs != [] && a.pos == b.pos
    ensures |ps| == |qs|
    ensures forall k :: 0 <= k < |ps| ==>
              && ps[k].size == qs[k].size && Target(ps[k].req) == Target(qs[k].req)
              && ps[k].req.BufferOp? && qs[k].req.VecOp? && ps[k].req.pos == qs[k].req.pos
  {
    SameCount(a, b, maxLength, ps, qs);
    forall k | 0 <= k < |ps|
      ensures && ps[k].size == qs[k].size && Target(ps[k].req) == Target(qs[k].req)
              && ps[k].req.BufferOp? && qs[k].req.VecOp? && ps[k].req.pos == qs[k].req.pos
    {
      PartsAgree(a, b, maxLength, ps, qs, k);
    }
  }

  lemma SingleIovecIsBuffer(addr: nat, size: nat)
    ensures Addresses([Iovec(addr, size)]) == Run(addr, size)
  {
    var iovecs := [Iovec(addr, size)];
    assert AddressesFrom(iovecs, 1) == [];
  }
}
