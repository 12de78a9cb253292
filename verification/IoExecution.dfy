/** What executing the parts of a split request does to the file or to memory, whatever the order in
    which they complete. Every transfer is complete: as many bytes move as were asked for. */
module IoExecution {
  import opened Arithmetic
  import opened IoSplit

  /** Bytes by file position or by memory address; absent where nothing has been stored. */
  type Store = map<nat, int>

  /** What a request moves: the i-th byte of its memory goes with file position pos + i. */
  datatype Transfer = Transfer(pos: nat, target: seq<nat>)

  ghost function TransferOf(req: IoRequest): Transfer {
    Transfer(if req.OtherOp? then 0 else req.pos, Target(req))
  }

  ghost function Transfers(parts: seq<IoPart>): (ts: seq<Transfer>)
    ensures |ts| == |parts|
  {
    seq(|parts|, k requires 0 <= k < |parts| => TransferOf(parts[k].req))
  }

  /** The transfers cut the given addresses into consecutive pieces, in memory as in the file. */
  ghost predicate Consecutive(ts: seq<Transfer>, pos: nat, all: seq<nat>) {
    if ts == [] then all == []
    else
      var last, n := ts[|ts| - 1], |ts| - 1;
      var cut := |all| - |last.target|;
      && 0 <= cut && last.pos == pos + cut && last.target == all[cut..]
      && Consecutive(ts[..n], pos, all[..cut])
  }

  ghost predicate Touches(t: Transfer, p: nat) {
    t.pos <= p < t.pos + |t.target|
  }

  lemma {:induction false} PieceAt(ts: seq<Transfer>, pos: nat, all: seq<nat>, k: nat) returns (off: nat)
    requires Consecutive(ts, pos, all) && k < |ts|
    ensures ts[k].pos == pos + off && off + |ts[k].target| <= |all|
    ensures forall i :: 0 <= i < |ts[k].target| ==> ts[k].target[i] == all[off + i]
  {
    var n := |ts| - 1;
    off := |all| - |ts[n].target|;
    if k < n {
      off := PieceAt(ts[..n], pos, all[..off], k);
    }
  }

  lemma {:induction false} PieceOf(ts: seq<Transfer>, pos: nat, all: seq<nat>, p: nat) returns (k: nat)
    requires Consecutive(ts, pos, all) && pos <= p < pos + |all|
    ensures k < |ts| && Touches(ts[k], p)
  {
    k := |ts| - 1;
    if !Touches(ts[k], p) {
      k := PieceOf(ts[..k], pos, all[..|all| - |ts[k].target|], p);
    }
  }

  /** Different pieces touch different positions. */
  lemma {:induction false} PiecesApart(ts: seq<Transfer>, pos: nat, all: seq<nat>, j: nat, k: nat)
    requires Consecutive(ts, pos, all) && j < k < |ts|
    ensures ts[j].pos + |ts[j].target| <= ts[k].pos
  {
    var n := |ts| - 1;
    var cut := |all| - |ts[n].target|;
    if k < n {
      PiecesApart(ts[..n], pos, all[..cut], j, k);
    } else {
      var off := PieceAt(ts[..n], pos, all[..cut], j);
    }
  }

  /** Completion orders: every transfer completes exactly once. */
  ghost predicate IsOrder(order: seq<nat>, n: nat) {
    && (forall i :: 0 <= i < |order| ==> order[i] < n)
    && (forall i, j :: 0 <= i < j < |order| ==> order[i] != order[j])
    && (forall k: nat :: k < n ==> k in order)
  }

  ghost predicate Below(order: seq<nat>, n: nat) {
    forall i :: 0 <= i < |order| ==> order[i] < n
  }

  // ----- Writing -----

  ghost function Stored(memory: nat -> int, pos: nat, target: seq<nat>): (m: Store)
    ensures forall p: nat :: p in m <==> pos <= p < pos + |target|
    ensures forall p: nat :: p in m ==> m[p] == memory(target[p - pos])
  {
    map p: nat | pos <= p < pos + |target| && Touches(Transfer(pos, target), p) :: memory(target[p - pos])
  }

  ghost function ExecWrite(file: Store, memory: nat -> int, t: Transfer): Store {
    file + Stored(memory, t.pos, t.target)
  }

  ghost function RunWrites(file: Store, memory: nat -> int, ts: seq<Transfer>, order: seq<nat>): Store
    requires Below(order, |ts|)
  {
    if order == [] then file
    else ExecWrite(RunWrites(file, memory, ts, order[..|order| - 1]), memory, ts[order[|order| - 1]])
  }

  /** Each piece writes what the whole writes at the same position. */
  lemma PieceWritesItsShare(memory: nat -> int, ts: seq<Transfer>, pos: nat, all: seq<nat>, k: nat, p: nat)
    requires Consecutive(ts, pos, all) && k < |ts| && Touches(ts[k], p)
    ensures p in Stored(memory, pos, all)
    ensures Stored(memory, ts[k].pos, ts[k].target)[p] == Stored(memory, pos, all)[p]
  {
    var off := PieceAt(ts, pos, all, k);
    ShareOfWhole(memory, pos, all, off, ts[k].target, p);
  }

  lemma ShareOfWhole(memory: nat -> int, pos: nat, all: seq<nat>, off: nat, target: seq<nat>, p: nat)
    requires off + |target| <= |all| && forall i :: 0 <= i < |target| ==> target[i] == all[off + i]
    requires pos + off <= p < pos + off + |target|
    ensures p in Stored(memory, pos, all)
    ensures Stored(memory, pos + off, target)[p] == Stored(memory, pos, all)[p]
  {
    assert target[p - pos - off] == all[p - pos];
  }

  /** The file after some of the writes, position by position. */
  lemma {:induction false} WrittenSoFar(file: Store, memory: nat -> int, ts: seq<Transfer>, pos: nat, all: seq<nat>,
                                        order: seq<nat>, p: nat)
    requires Consecutive(ts, pos, all) && Below(order, |ts|)
    ensures var result := RunWrites(file, memory, ts, order);
            if exists k :: k in order && Touches(ts[k], p)
            then p in result && p in Stored(memory, pos, all) && result[p] == Stored(memory, pos, all)[p]
            else (p in result <==> p in file) && (p in file ==> result[p] == file[p])
  {
    if order != [] {
      var front, last := order[..|order| - 1], order[|order| - 1];
      WrittenSoFar(file, memory, ts, pos, all, front, p);
      assert order == front + [last];
      if Touches(ts[last], p) {
        PieceWritesItsShare(memory, ts, pos, all, last, p);
      }
    }
  }

  lemma WritePiecesInAnyOrder(file: Store, memory: nat -> int, ts: seq<Transfer>, pos: nat, all: seq<nat>,
                              order: seq<nat>)
    requires Consecutive(ts, pos, all) && IsOrder(order, |ts|)
    ensures RunWrites(file, memory, ts, order) == ExecWrite(file, memory, Transfer(pos, all))
  {
    var result, whole := RunWrites(file, memory, ts, order), ExecWrite(file, memory, Transfer(pos, all));
    forall p: nat
      ensures (p in result <==> p in whole) && (p in whole ==> result[p] == whole[p])
    {
      WrittenSoFar(file, memory, ts, pos, all, order, p);
      if pos <= p < pos + |all| {
        var k := PieceOf(ts, pos, all, p);
      }
    }
  }

  // ----- Reading -----

  /** A read stores the file's bytes one after the other, so that of two stores to one address the
      later stays. */
  ghost function ReadInto(memory: Store, file: nat -> int, pos: nat, target: seq<nat>): Store {
    if target == [] then memory
    else
      var last := |target| - 1;
      ReadInto(memory, file, pos, target[..last])[target[last] := file(pos + last)]
  }

  ghost function ExecRead(memory: Store, file: nat -> int, t: Transfer): Store {
    ReadInto(memory, file, t.pos, t.target)
  }

  ghost function RunReads(memory: Store, file: nat -> int, ts: seq<Transfer>, order: seq<nat>): Store
    requires Below(order, |ts|)
  {
    if order == [] then memory
    else ExecRead(RunReads(memory, file, ts, order[..|order| - 1]), file, ts[order[|order| - 1]])
  }

  /** The last index at which an address occurs. */
  ghost function LastIndex(target: seq<nat>, a: nat): (i: nat)
    requires a in target
    ensures i < |target| && target[i] == a
  {
    if target[|target| - 1] == a then |target| - 1 else LastIndex(target[..|target| - 1], a)
  }

  lemma {:induction false} ReadAt(memory: Store, file: nat -> int, pos: nat, target: seq<nat>, a: nat)
    ensures var result := ReadInto(memory, file, pos, target);
            if a in target then a in result && result[a] == file(pos + LastIndex(target, a))
            else (a in result <==> a in memory) && (a in memory ==> result[a] == memory[a])
  {
    if target != [] {
      ReadAt(memory, file, pos, target[..|target| - 1], a);
    }
  }

  lemma {:induction false} ReadConcat(memory: Store, file: nat -> int, pos: nat, a: seq<nat>, b: seq<nat>)
    ensures ReadInto(memory, file, pos, a + b) == ReadInto(ReadInto(memory, file, pos, a), file, pos + |a|, b)
  {
    if b == [] {
      assert a + b == a;
    } else {
      var last := |b| - 1;
      assert (a + b)[..|a| + last] == a + b[..last];
      ReadConcat(memory, file, pos, a, b[..last]);
    }
  }

  ghost function InSequence(n: nat): (order: seq<nat>)
    ensures |order| == n && forall i :: 0 <= i < n ==> order[i] == i
  {
    seq(n, i requires 0 <= i => i)
  }

  lemma RunReadsNext(memory: Store, file: nat -> int, ts: seq<Transfer>, n: nat)
    requires 0 < n <= |ts|
    ensures RunReads(memory, file, ts, InSequence(n))
            == ExecRead(RunReads(memory, file, ts, InSequence(n - 1)), file, ts[n - 1])
  {
    assert InSequence(n)[..n - 1] == InSequence(n - 1);
  }

  lemma LastPiece(ts: seq<Transfer>, pos: nat, all: seq<nat>, n: nat) returns (cut: nat)
    requires 0 < n <= |ts| && Consecutive(ts[..n], pos, all)
    ensures cut <= |all| && ts[n - 1] == Transfer(pos + cut, all[cut..])
    ensures Consecutive(ts[..n - 1], pos, all[..cut])
  {
    cut := |all| - |ts[n - 1].target|;
    assert ts[..n][..n - 1] == ts[..n - 1];
  }

  /** Reading the rest into what reading the first bytes left is reading the whole. */
  lemma ReadRest(memory: Store, file: nat -> int, pos: nat, all: seq<nat>, cut: nat, t: Transfer)
    requires cut <= |all| && t == Transfer(pos + cut, all[cut..])
    ensures ExecRead(ReadInto(memory, file, pos, all[..cut]), file, t) == ReadInto(memory, file, pos, all)
  {
    ReadConcat(memory, file, pos, all[..cut], all[cut..]);
    assert all[..cut] + all[cut..] == all;
  }

  /** Completed in the order they were issued, the parts of a read do what the whole does. */
  lemma {:induction false} ReadPiecesInSequence(memory: Store, file: nat -> int, ts: seq<Transfer>, pos: nat,
                                                all: seq<nat>, n: nat)
    requires n <= |ts| && Consecutive(ts[..n], pos, all)
    ensures RunReads(memory, file, ts, InSequence(n)) == ReadInto(memory, file, pos, all)
    decreases n
  {
    if n > 0 {
      var cut := LastPiece(ts, pos, all, n);
      ReadPiecesInSequence(memory, file, ts, pos, all[..cut], n - 1);
      RunReadsNext(memory, file, ts, n);
      ReadRest(memory, file, pos, all, cut, ts[n - 1]);
    }
  }

  /** No two transfers read into the same address. */
  ghost predicate NoSharedAddress(ts: seq<Transfer>) {
    forall j, k, a :: 0 <= j < k < |ts| && a in ts[j].target ==> a !in ts[k].target
  }

  /** Then an address ends up with what its only reader stores there. */
  lemma {:induction false} ReadSoFar(memory: Store, file: nat -> int, ts: seq<Transfer>, order: seq<nat>, a: nat,
                                     k: nat)
    requires NoSharedAddress(ts) && Below(order, |ts|) && k < |ts| && a in ts[k].target
    ensures var result := RunReads(memory, file, ts, order);
            if k in order then a in result && result[a] == file(ts[k].pos + LastIndex(ts[k].target, a))
            else (a in result <==> a in memory) && (a in memory ==> result[a] == memory[a])
  {
    if order != [] {
      var front, last := order[..|order| - 1], order[|order| - 1];
      ReadSoFar(memory, file, ts, front, a, k);
      assert order == front + [last];
      ReadAt(RunReads(memory, file, ts, front), file, ts[last].pos, ts[last].target, a);
    }
  }

  lemma {:induction false} NotRead(memory: Store, file: nat -> int, ts: seq<Transfer>, order: seq<nat>, a: nat)
    requires Below(order, |ts|) && forall k :: 0 <= k < |ts| ==> a !in ts[k].target
    ensures var result := RunReads(memory, file, ts, order);
            (a in result <==> a in memory) && (a in memory ==> result[a] == memory[a])
  {
    if order != [] {
      var front, last := order[..|order| - 1], order[|order| - 1];
      NotRead(memory, file, ts, front, a);
      ReadAt(RunReads(memory, file, ts, front), file, ts[last].pos, ts[last].target, a);
    }
  }

  lemma ReadOrdersAgree(memory: Store, file: nat -> int, ts: seq<Transfer>, o1: seq<nat>, o2: seq<nat>)
    requires NoSharedAddress(ts) && IsOrder(o1, |ts|) && IsOrder(o2, |ts|)
    ensures RunReads(memory, file, ts, o1) == RunReads(memory, file, ts, o2)
  {
    var r1, r2 := RunReads(memory, file, ts, o1), RunReads(memory, file, ts, o2);
    forall a: nat
      ensures (a in r1 <==> a in r2) && (a in r1 ==> r1[a] == r2[a])
    {
      if k :| 0 <= k < |ts| && a in ts[k].target {
        ReadSoFar(memory, file, ts, o1, a, k);
        ReadSoFar(memory, file, ts, o2, a, k);
      } else {
        NotRead(memory, file, ts, o1, a);
        NotRead(memory, file, ts, o2, a);
      }
    }
  }

  /** The indices below n except j. */
  ghost function Others(n: nat, j: nat): (order: seq<nat>)
    requires j < n
    ensures |order| == n - 1 && forall i :: 0 <= i < |order| ==> order[i] == if i < j then i else i + 1
  {
    seq(n - 1, i requires 0 <= i => if i < j then i else i + 1)
  }

  lemma FirstOrLast(n: nat, j: nat)
    requires j < n
    ensures IsOrder([j] + Others(n, j), n) && IsOrder(Others(n, j) + [j], n)
    ensures forall k: nat :: k < n && k != j ==> k in Others(n, j)
  {
    forall k: nat | k < n && k != j
      ensures k in Others(n, j)
    {
      assert Others(n, j)[if k < j then k else k - 1] == k;
    }
  }

  /** Reads that never touch one file position leave no trace of its contents. */
  lemma {:induction false} ReadWithout(memory: Store, ts: seq<Transfer>, order: seq<nat>, a: nat, q: nat)
    requires Below(order, |ts|) && forall i :: 0 <= i < |order| ==> !Touches(ts[order[i]], q)
    ensures var result := RunReads(memory, (p: nat) => if p == q then 1 else 0, ts, order);
            if exists k :: k in order && a in ts[k].target then a in result && result[a] == 0
            else (a in result <==> a in memory) && (a in memory ==> result[a] == memory[a])
  {
    if order != [] {
      var front, last := order[..|order| - 1], order[|order| - 1];
      var file := (p: nat) => if p == q then 1 else 0;
      ReadWithout(memory, ts, front, a, q);
      assert order == front + [last];
      ReadAt(RunReads(memory, file, ts, front), file, ts[last].pos, ts[last].target, a);
    }
  }

  lemma {:induction false} RunReadsConcat(memory: Store, file: nat -> int, ts: seq<Transfer>, o1: seq<nat>,
                                          o2: seq<nat>)
    requires Below(o1, |ts|) && Below(o2, |ts|)
    ensures RunReads(memory, file, ts, o1 + o2) == RunReads(RunReads(memory, file, ts, o1), file, ts, o2)
  {
    if o2 == [] {
      assert o1 + o2 == o1;
    } else {
      assert (o1 + o2)[..|o1 + o2| - 1] == o1 + o2[..|o2| - 1];
      RunReadsConcat(memory, file, ts, o1, o2[..|o2| - 1]);
    }
  }

  /** Two pieces that share an address: which of them completes last can be told from memory. */
  lemma SharedAddressTells(ts: seq<Transfer>, pos: nat, all: seq<nat>, j: nat, k: nat, a: nat)
    requires Consecutive(ts, pos, all) && j < k < |ts| && a in ts[j].target && a in ts[k].target
    ensures exists file: nat -> int ::
              RunReads(map[], file, ts, [j] + Others(|ts|, j)) != RunReads(map[], file, ts, Others(|ts|, j) + [j])
  {
    var n, q := |ts|, ts[j].pos + LastIndex(ts[j].target, a);
    var others, file := Others(n, j), (p: nat) => if p == q then 1 else 0;
    forall i | 0 <= i < |others|
      ensures !Touches(ts[others[i]], q)
    {
      if others[i] < j {
        PiecesApart(ts, pos, all, others[i], j);
      } else {
        PiecesApart(ts, pos, all, j, others[i]);
      }
    }
    FirstOrLast(n, j);
    assert k in others;
    RunReadsConcat(map[], file, ts, [j], others);
    RunReadsConcat(map[], file, ts, others, [j]);
    ReadWithout(RunReads(map[], file, ts, [j]), ts, others, a, q);
    var before := RunReads(map[], file, ts, others);
    assert [j][..0] == [];
    assert RunReads(before, file, ts, [j]) == ReadInto(before, file, ts[j].pos, ts[j].target);
    ReadAt(before, file, ts[j].pos, ts[j].target, a);
  }

  /** The order in which the parts of a read complete does not matter exactly when no two parts read
      into the same address. */
  lemma ReadOrderIrrelevantIff(ts: seq<Transfer>, pos: nat, all: seq<nat>)
    requires Consecutive(ts, pos, all)
    ensures NoSharedAddress(ts) <==>
            forall memory: Store, file: nat -> int, order | IsOrder(order, |ts|) ::
              RunReads(memory, file, ts, order) == ReadInto(memory, file, pos, all)
  {
    var n := |ts|;
    assert ts[..n] == ts;
    forall k: nat | k < n
      ensures k in InSequence(n)
    {
      assert InSequence(n)[k] == k;
    }
    if NoSharedAddress(ts) {
      forall memory: Store, file: nat -> int, order | IsOrder(order, n)
        ensures RunReads(memory, file, ts, order) == ReadInto(memory, file, pos, all)
      {
        ReadPiecesInSequence(memory, file, ts, pos, all, n);
        ReadOrdersAgree(memory, file, ts, order, InSequence(n));
      }
    } else {
      var j, k, a :| 0 <= j < k < n && a in ts[j].target && a in ts[k].target;
      SharedAddressTells(ts, pos, all, j, k, a);
      FirstOrLast(n, j);
    }
  }

  // ----- Split requests -----

  lemma ConsecutiveSnoc(ts: seq<Transfer>, pos: nat, all: seq<nat>, t: Transfer)
    requires Consecutive(ts, pos, all) && t.pos == pos + |all|
    ensures Consecutive(ts + [t], pos, all + t.target)
  {
    assert (ts + [t])[..|ts|] == ts && (all + t.target)[..|all|] == all;
  }

  /** A list of parts is consecutive when all but the last are and the last goes on where they end. */
  lemma PartsConsecutive(req: IoRequest, parts: seq<IoPart>, part: IoPart)
    requires !req.OtherOp? && IsPartAt(req, |Flatten(parts)|, part)
    requires Consecutive(Transfers(parts), req.pos, Flatten(parts))
    ensures Consecutive(Transfers(parts + [part]), req.pos, Flatten(parts) + Target(part.req))
    ensures Flatten(parts + [part]) == Flatten(parts) + Target(part.req)
  {
    ConsecutiveSnoc(Transfers(parts), req.pos, Flatten(parts), TransferOf(part.req));
    assert Transfers(parts + [part]) == Transfers(parts) + [TransferOf(part.req)];
    assert (parts + [part])[..|parts|] == parts;
  }

  lemma LastOf<T>(s: seq<T>)
    requires s != []
    ensures s == s[..|s| - 1] + [s[|s| - 1]]
  {
  }

  lemma {:induction false} FullPartsConsecutive(req: IoRequest, maxLength: nat, parts: seq<IoPart>)
    requires !req.OtherOp? && FullParts(req, maxLength, parts)
    ensures Consecutive(Transfers(parts), req.pos, Flatten(parts))
  {
    if parts != [] {
      var front, last := parts[..|parts| - 1], parts[|parts| - 1];
      FullPartsConsecutive(req, maxLength, front);
      PartsConsecutive(req, front, last);
      LastOf(parts);
    }
  }

  lemma SplitConsecutive(req: IoRequest, maxLength: nat, parts: seq<IoPart>)
    requires !req.OtherOp? && IsSplit(req, maxLength, parts)
    ensures Consecutive(Transfers(parts), req.pos, Target(req))
  {
    if parts != [] {
      var front, last := parts[..|parts| - 1], parts[|parts| - 1];
      FullPartsConsecutive(req, maxLength, front);
      PartsConsecutive(req, front, last);
      LastOf(parts);
    }
  }

  /** In whatever order the parts of a split write complete, the file ends up as if the request had
      not been split. */
  lemma SplitWriteInAnyOrder(file: Store, memory: nat -> int, req: IoRequest, maxLength: nat, parts: seq<IoPart>,
                             order: seq<nat>)
    requires !req.OtherOp? && IsSplit(req, maxLength, parts) && IsOrder(order, |parts|)
    ensures RunWrites(file, memory, Transfers(parts), order) == ExecWrite(file, memory, TransferOf(req))
  {
    SplitConsecutive(req, maxLength, parts);
    WritePiecesInAnyOrder(file, memory, Transfers(parts), req.pos, Target(req), order);
  }

  /** Byte x of part k is byte i of the request. */
  lemma PartByte(req: IoRequest, maxLength: nat, parts: seq<IoPart>, k: nat, x: nat, i: nat)
    requires IsSplit(req, maxLength, parts) && k < |parts| && x < |Target(parts[k].req)| && i == k * maxLength + x
    ensures x < maxLength && i < |Target(req)| && Target(parts[k].req)[x] == Target(req)[i]
  {
    var off := PartBegins(req, maxLength, parts, k);
    PrefixByte(Flatten(parts[..k]), Target(parts[k].req), Target(req), x);
  }

  lemma PartBegins(req: IoRequest, maxLength: nat, parts: seq<IoPart>, k: nat) returns (off: nat)
    requires IsSplit(req, maxLength, parts) && k < |parts|
    ensures off == k * maxLength == |Flatten(parts[..k])|
    ensures Flatten(parts[..k]) + Target(parts[k].req) <= Target(req) && |Target(parts[k].req)| <= maxLength
  {
    PartOfSplit(req, maxLength, parts, k);
    PartOffset(req, maxLength, parts, k);
    off := k * maxLength;
  }

  lemma PrefixByte<T>(a: seq<T>, b: seq<T>, all: seq<T>, x: nat)
    requires a + b <= all && x < |b|
    ensures |a| + x < |all| && b[x] == all[|a| + x]
  {
    assert (a + b)[|a| + x] == b[x];
  }

  /** And every byte of the request lies in the part its position says. */
  lemma ByteInPart(req: IoRequest, maxLength: nat, parts: seq<IoPart>, q: nat, x: nat, i: nat)
    requires IsSplit(req, maxLength, parts) && x < maxLength && i == q * maxLength + x && i < |Target(req)|
    ensures q < |parts| && x < |Target(parts[q].req)|
  {
    assert parts != [];
    PartCount(req, maxLength, parts);
    if q >= |parts| {
      MulMonotone(|parts|, q, maxLength);
      assert false;
    }
    PartOfSplit(req, maxLength, parts, q);
    PartOffset(req, maxLength, parts, q);
  }

  /** Two positions in the same stretch of maxLength bytes. */
  predicate SameStretch(i: nat, j: nat, maxLength: nat)
    requires maxLength > 0
  {
    i / maxLength == j / maxLength
  }

  /** An address repeated in the request is repeated within one stretch only. */
  ghost predicate RepeatsStayTogether(all: seq<nat>, maxLength: nat)
    requires maxLength > 0
  {
    forall i, j :: 0 <= i < j < |all| && all[i] == all[j] ==> SameStretch(i, j, maxLength)
  }

  /** An address repeated in different stretches is shared by the two parts. */
  lemma RepeatIsShared(req: IoRequest, maxLength: nat, parts: seq<IoPart>, i: nat, j: nat, q: nat, x: nat, r: nat,
                       y: nat)
    requires IsSplit(req, maxLength, parts) && i == q * maxLength + x && j == r * maxLength + y
    requires x < maxLength && y < maxLength && q < r
    requires i < |Target(req)| && j < |Target(req)| && Target(req)[i] == Target(req)[j]
    ensures !NoSharedAddress(Transfers(parts))
  {
    ByteInPart(req, maxLength, parts, q, x, i);
    ByteInPart(req, maxLength, parts, r, y, j);
    PartByte(req, maxLength, parts, q, x, i);
    PartByte(req, maxLength, parts, r, y, j);
    var ts, a := Transfers(parts), Target(req)[i];
    assert ts[q].target[x] == a && ts[r].target[y] == a;
    assert a in ts[q].target && a in ts[r].target;
  }

  /** An address shared by two parts is repeated in the request. */
  lemma SharedIsRepeat(req: IoRequest, maxLength: nat, parts: seq<IoPart>, q: nat, x: nat, r: nat, y: nat, i: nat,
                       j: nat)
    requires IsSplit(req, maxLength, parts) && q < |parts| && r < |parts|
    requires x < |Target(parts[q].req)| && y < |Target(parts[r].req)|
    requires Target(parts[q].req)[x] == Target(parts[r].req)[y]
    requires i == q * maxLength + x && j == r * maxLength + y
    ensures x < maxLength && y < maxLength
    ensures i < |Target(req)| && j < |Target(req)| && Target(req)[i] == Target(req)[j]
  {
    PartByte(req, maxLength, parts, q, x, i);
    PartByte(req, maxLength, parts, r, y, j);
  }

  function Position(q: nat, x: nat, d: nat): nat {
    MulMonotone(0, q, d);
    q * d + x
  }

  /** Positions in different stretches. */
  lemma DifferentStretches(q: nat, x: nat, r: nat, y: nat, i: nat, j: nat, d: nat)
    requires x < d && y < d && q < r && i == q * d + x && j == r * d + y
    ensures i < j && !SameStretch(i, j, d)
  {
    QuotientUnique(i, d, q, x);
    QuotientUnique(j, d, r, y);
    MulMonotone(q + 1, r, d);
  }

  /** The stretch of each of two positions, and the place in it. */
  lemma Stretches(i: nat, j: nat, d: nat) returns (q: nat, x: nat, r: nat, y: nat)
    requires d > 0 && i < j && !SameStretch(i, j, d)
    ensures x < d && y < d && q < r && i == q * d + x && j == r * d + y
  {
    q, x := QuotientAndRest(i, d);
    r, y := QuotientAndRest(j, d);
    if r < q {
      MulMonotone(r + 1, q, d);
    }
  }

  lemma QuotientAndRest(i: nat, d: nat) returns (q: nat, x: nat)
    requires d > 0
    ensures q == i / d && x < d && i == q * d + x
  {
    q, x := i / d, i % d;
  }

  lemma RepeatedThenShared(req: IoRequest, maxLength: nat, parts: seq<IoPart>, i: nat, j: nat)
    requires IsSplit(req, maxLength, parts) && maxLength > 0 && !SameStretch(i, j, maxLength)
    requires i < j < |Target(req)| && Target(req)[i] == Target(req)[j]
    ensures !NoSharedAddress(Transfers(parts))
  {
    var q, x, r, y := Stretches(i, j, maxLength);
    RepeatIsShared(req, maxLength, parts, i, j, q, x, r, y);
  }

  lemma SharedThenRepeated(req: IoRequest, maxLength: nat, parts: seq<IoPart>, q: nat, x: nat, r: nat, y: nat)
    returns (i: nat, j: nat)
    requires IsSplit(req, maxLength, parts) && maxLength > 0 && q < r < |parts|
    requires x < |Target(parts[q].req)| && y < |Target(parts[r].req)|
    requires Target(parts[q].req)[x] == Target(parts[r].req)[y]
    ensures i < j < |Target(req)| && Target(req)[i] == Target(req)[j] && !SameStretch(i, j, maxLength)
  {
    i, j := Position(q, x, maxLength), Position(r, y, maxLength);
    SharedIsRepeat(req, maxLength, parts, q, x, r, y, i, j);
    DifferentStretches(q, x, r, y, i, j, maxLength);
  }

  /** Whether parts share an address can be read off the request and the maximum length. */
  lemma SharedIffRepeated(req: IoRequest, maxLength: nat, parts: seq<IoPart>)
    requires IsSplit(req, maxLength, parts) && maxLength > 0
    ensures NoSharedAddress(Transfers(parts)) <==> RepeatsStayTogether(Target(req), maxLength)
  {
    var ts, all := Transfers(parts), Target(req);
    if !RepeatsStayTogether(all, maxLength) {
      var i: nat, j: nat :| i < j < |all| && all[i] == all[j] && !SameStretch(i, j, maxLength);
      RepeatedThenShared(req, maxLength, parts, i, j);
    }
    if !NoSharedAddress(ts) {
      var q: nat, r: nat, a :| q < r < |ts| && a in ts[q].target && a in ts[r].target;
      var x: nat :| x < |ts[q].target| && ts[q].target[x] == a;
      var y: nat :| y < |ts[r].target| && ts[r].target[y] == a;
      var i, j := SharedThenRepeated(req, maxLength, parts, q, x, r, y);
    }
  }

  /** For a split read this holds exactly when the request repeats no address in two different
      stretches of the maximum length. */
  lemma SplitReadInAnyOrderIff(req: IoRequest, maxLength: nat, parts: seq<IoPart>)
    requires !req.OtherOp? && maxLength > 0 && IsSplit(req, maxLength, parts)
    ensures RepeatsStayTogether(Target(req), maxLength) <==>
            forall memory: Store, file: nat -> int, order | IsOrder(order, |parts|) ::
              RunReads(memory, file, Transfers(parts), order) == ExecRead(memory, file, TransferOf(req))
  {
    SplitConsecutive(req, maxLength, parts);
    SharedIffRepeated(req, maxLength, parts);
    ReadOrderIrrelevantIff(Transfers(parts), req.pos, Target(req));
  }

  /** The smallest request that fails: one address read twice, a byte at a time. */
  lemma RepeatedAddressDependsOnOrder(nowait: bool, fd: int, pos: nat, a: nat, parts: seq<IoPart>)
    requires var req := VecOp(Readv, nowait, fd, pos, [Iovec(a, 1), Iovec(a, 1)]);
             IsSplit(req, 1, parts)
    ensures var req := VecOp(Readv, nowait, fd, pos, [Iovec(a, 1), Iovec(a, 1)]);
            !forall memory: Store, file: nat -> int, order | IsOrder(order, |parts|) ::
              RunReads(memory, file, Transfers(parts), order) == ExecRead(memory, file, TransferOf(req))
  {
    var iovecs := [Iovec(a, 1), Iovec(a, 1)];
    var req := VecOp(Readv, nowait, fd, pos, iovecs);
    assert Run(a, 1) == [a];
    assert AddressesFrom(iovecs, 2) == [] && AddressesFrom(iovecs, 1) == [a] && Target(req) == [a, a];
    assert Target(req)[0] == Target(req)[1] && !SameStretch(0, 1, 1);
    SplitReadInAnyOrderIff(req, 1, parts);
  }

  /** So the order never matters for a plain buffer, nor for iovecs that do not overlap. */
  lemma SplitReadOfDistinctAddresses(memory: Store, file: nat -> int, req: IoRequest, maxLength: nat,
                                     parts: seq<IoPart>, order: seq<nat>)
    requires !req.OtherOp? && maxLength > 0 && IsSplit(req, maxLength, parts) && IsOrder(order, |parts|)
    requires req.BufferOp? || forall i, j :: 0 <= i < j < |Target(req)| ==> Target(req)[i] != Target(req)[j]
    ensures RunReads(memory, file, Transfers(parts), order) == ExecRead(memory, file, TransferOf(req))
  {
    SplitReadInAnyOrderIff(req, maxLength, parts);
  }
}
