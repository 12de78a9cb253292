/** The single-producer ring buffer over a doubly mapped region: grants, commits, and what may alias. */
module RingBuffer {
  import opened Arithmetic
  import opened Wrappers

  const BUFFER_SIZE := 8 * 1024 * 1024
  const BUFFER_SIZE_MASK := BUFFER_SIZE - 1

  /** The values a size_t counter runs through before it wraps. */
  const WORD := 0x1_0000_0000_0000_0000

  newtype SizeT = x: int | 0 <= x < WORD

  // ----- Counters that wrap -----

  function Plus(a: SizeT, b: SizeT): SizeT {
    ((a as int + b as int) % WORD) as SizeT
  }

  function Minus(a: SizeT, b: SizeT): SizeT {
    ((a as int - b as int) % WORD) as SizeT
  }

  /** Bitwise and, bit by bit. */
  function And(a: nat, b: nat): nat {
    if a == 0 || b == 0 then 0
    else 2 * And(a / 2, b / 2) + if a % 2 == 1 && b % 2 == 1 then 1 else 0
  }

  function Pow2(k: nat): (p: nat)
    ensures p >= 1
  {
    if k == 0 then 1 else 2 * Pow2(k - 1)
  }

  lemma AndOddMask(a: nat, half: nat)
    requires half >= 1
    ensures And(a, 2 * half - 1) == 2 * And(a / 2, half - 1) + a % 2
  {
    assert (2 * half - 1) / 2 == half - 1 && (2 * half - 1) % 2 == 1;
  }

  /** Masking with a power of two less one is the remainder. */
  lemma {:induction false} MaskIsRemainder(a: nat, k: nat)
    ensures And(a, Pow2(k) - 1) == a % Pow2(k)
    decreases k
  {
    if k > 0 {
      AndOddMask(a, Pow2(k - 1));
      MaskIsRemainder(a / 2, k - 1);
      HalveRemainder(a, Pow2(k - 1));
    }
  }

  lemma HalveRemainder(a: nat, m: nat)
    requires m >= 1
    ensures a % (2 * m) == 2 * ((a / 2) % m) + a % 2
  {
    var q, r := (a / 2) / m, (a / 2) % m;
    assert a / 2 == m * q + r && a == 2 * (a / 2) + a % 2;
    assert a == q * (2 * m) + (2 * r + a % 2) by {
      assert 2 * (m * q) == q * (2 * m);
    }
    QuotientUnique(a, 2 * m, q, 2 * r + a % 2);
  }

  lemma BufferSizeIsPow2()
    ensures Pow2(23) == BUFFER_SIZE
  {
    assert Pow2(5) == 32;
    assert Pow2(10) == 1024;
    assert Pow2(15) == 32 * 1024;
    assert Pow2(20) == 1024 * 1024;
  }

  // ----- The buffer -----

  /** Size bytes granted when start bytes had been granted before. */
  datatype Slice = Slice(start: nat, size: nat)

  /** The byte of shared memory behind an offset into the double mapping. */
  function Physical(offset: nat): nat {
    offset % BUFFER_SIZE
  }

  /** The slices follow each other from zero to the total. */
  ghost predicate Consecutive(slices: seq<Slice>, total: nat) {
    if slices == [] then total == 0
    else
      var last := slices[|slices| - 1];
      last.start + last.size == total && Consecutive(slices[..|slices| - 1], last.start)
  }

  lemma {:induction false} LaterSliceStartsLater(slices: seq<Slice>, total: nat, i: nat, j: nat)
    requires Consecutive(slices, total) && i < j < |slices|
    ensures slices[i].start + slices[i].size <= slices[j].start && slices[j].start + slices[j].size <= total
  {
    var front := slices[..|slices| - 1];
    if j == |slices| - 1 {
      SliceWithinTotal(front, slices[j].start, i);
    } else {
      LaterSliceStartsLater(front, slices[|slices| - 1].start, i, j);
    }
  }

  lemma {:induction false} SliceWithinTotal(slices: seq<Slice>, total: nat, i: nat)
    requires Consecutive(slices, total) && i < |slices|
    ensures slices[i].start + slices[i].size <= total
  {
    if i < |slices| - 1 {
      SliceWithinTotal(slices[..|slices| - 1], slices[|slices| - 1].start, i);
    }
  }

  /** A stream position before the total lies in one of the slices. */
  lemma {:induction false} SliceHolding(slices: seq<Slice>, total: nat, q: nat) returns (j: nat)
    requires Consecutive(slices, total) && q < total
    ensures j < |slices| && slices[j].start <= q < slices[j].start + slices[j].size
  {
    j := |slices| - 1;
    if q < slices[j].start {
      j := SliceHolding(slices[..j], slices[j].start, q);
    }
  }

  /** What a request is judged by: the free space as computed from the counters. */
  function FreeSpace(head: SizeT, tail: SizeT): SizeT {
    var usedSpace := Minus(head, tail);
    Minus(BUFFER_SIZE as SizeT, usedSpace)
  }

  /** Whether a grant of this size can come next. */
  predicate Fits(granted: nat, committed: nat, size: nat) {
    granted + size <= committed + BUFFER_SIZE
  }

  class SPSCRingBuffer {
    var tail: SizeT
    var head: SizeT
    ghost var granted: nat
    ghost var committed: nat
    ghost var slices: seq<Slice>

    /** The counters are the totals modulo the word size, and no more is outstanding than fits. The
        slices make up all that was granted, none of them larger than the buffer. */
    ghost predicate Valid()
      reads this
    {
      && head as int == granted % WORD && tail as int == committed % WORD
      && committed <= granted <= committed + BUFFER_SIZE
      && Consecutive(slices, granted) && forall i :: 0 <= i < |slices| ==> slices[i].size <= BUFFER_SIZE
    }

    constructor ()
      ensures Valid() && granted == committed == 0 && slices == []
    {
      tail, head := 0, 0;
      granted, committed, slices := 0, 0, [];
    }

    /** Space is granted exactly when it fits, as the next slice; it lies inside the double mapping at
        the place its position in the stream of bytes has modulo the size of the buffer. */
    method RequestWriteSpace(size: SizeT) returns (r: Option<nat>)
      requires Valid()
      modifies this
      ensures Valid() && committed == old(committed) && tail == old(tail)
      ensures r.Some? <==> Fits(old(granted), committed, size as nat)
      ensures r.None? ==> granted == old(granted) && slices == old(slices) && head == old(head)
      ensures r.Some? ==>
                && granted == old(granted) + size as int
                && slices == old(slices) + [Slice(old(granted), size as nat)]
                && r.value == old(granted) % BUFFER_SIZE && r.value + size as int <= 2 * BUFFER_SIZE
    {
      FreeSpaceIsRoom(head, tail, granted, committed);
      if FreeSpace(head, tail) < size {
        return None;
      }
      var headIndex := And(head as nat, BUFFER_SIZE_MASK);
      HeadIndex(granted, head as nat);
      PlusWraps(head, size, granted);
      head := Plus(head, size);
      NextSlice(slices, granted, size as nat);
      slices := slices + [Slice(granted, size as nat)];
      granted := granted + size as nat;
      return Some(headIndex);
    }

    /** The caller commits no more than was granted. */
    method CommitWrite(size: SizeT)
      requires Valid() && committed + size as int <= granted
      modifies this
      ensures Valid() && committed == old(committed) + size as int
      ensures granted == old(granted) && head == old(head) && slices == old(slices)
    {
      PlusWraps(tail, size, committed);
      tail := Plus(tail, size);
      committed := committed + size as nat;
    }
  }

  lemma FreeSpaceIsRoom(head: SizeT, tail: SizeT, granted: nat, committed: nat)
    requires head as int == granted % WORD && tail as int == committed % WORD
    requires committed <= granted <= committed + BUFFER_SIZE
    ensures FreeSpace(head, tail) as int == BUFFER_SIZE - (granted - committed)
  {
    assert (granted % WORD - committed % WORD) % WORD == granted - committed;
  }

  lemma PlusWraps(a: SizeT, size: SizeT, total: nat)
    requires a as int == total % WORD
    ensures Plus(a, size) as int == (total + size as nat) % WORD
  {
  }

  lemma NextSlice(slices: seq<Slice>, total: nat, size: nat)
    requires Consecutive(slices, total)
    ensures Consecutive(slices + [Slice(total, size)], total + size)
  {
    assert (slices + [Slice(total, size)])[..|slices|] == slices;
  }

  /** The word size is a multiple of the buffer size, so wrapping does not move the index. */
  lemma WrapKeepsIndex(granted: nat)
    ensures granted % WORD % BUFFER_SIZE == granted % BUFFER_SIZE
  {
    var head := granted % WORD;
    var q := (WORD / BUFFER_SIZE) * (granted / WORD) + head / BUFFER_SIZE;
    assert granted == q * BUFFER_SIZE + head % BUFFER_SIZE;
    QuotientUnique(granted, BUFFER_SIZE, q, head % BUFFER_SIZE);
  }

  lemma HeadIndex(granted: nat, head: nat)
    requires head == granted % WORD
    ensures And(head, BUFFER_SIZE_MASK) == granted % BUFFER_SIZE
  {
    BufferSizeIsPow2();
    MaskIsRemainder(head, 23);
    WrapKeepsIndex(granted);
  }

  // ----- What may alias -----

  lemma SamePlaceAround(p: nat)
    ensures Physical(p) == Physical(p + BUFFER_SIZE)
  {
  }

  lemma SamePlaceApart(p: nat, q: nat)
    requires p < q < p + BUFFER_SIZE
    ensures Physical(p) != Physical(q)
  {
  }

  lemma PhysicalOfSum(start: nat, a: nat)
    ensures Physical(start % BUFFER_SIZE + a) == Physical(start + a)
  {
  }

  /** Byte a of one slice and byte b of another (or of the same one), both beyond what is committed,
      are never the same byte of memory. */
  lemma UncommittedBytesDoNotAlias(buffer: SPSCRingBuffer, i: nat, a: nat, j: nat, b: nat)
    requires buffer.Valid() && i < |buffer.slices| && j < |buffer.slices|
    requires a < buffer.slices[i].size && b < buffer.slices[j].size && (i, a) != (j, b)
    requires buffer.slices[i].start + a >= buffer.committed && buffer.slices[j].start + b >= buffer.committed
    ensures Physical(buffer.slices[i].start % BUFFER_SIZE + a) != Physical(buffer.slices[j].start % BUFFER_SIZE + b)
  {
    var p, q := buffer.slices[i].start + a, buffer.slices[j].start + b;
    SliceWithinTotal(buffer.slices, buffer.granted, i);
    SliceWithinTotal(buffer.slices, buffer.granted, j);
    if i < j {
      LaterSliceStartsLater(buffer.slices, buffer.granted, i, j);
    } else if j < i {
      LaterSliceStartsLater(buffer.slices, buffer.granted, j, i);
    }
    PhysicalOfSum(buffer.slices[i].start, a);
    PhysicalOfSum(buffer.slices[j].start, b);
    if p < q {
      SamePlaceApart(p, q);
    } else {
      SamePlaceApart(q, p);
    }
  }

  /** A grant of this size that can come next covers the memory of byte p of the stream. */
  ghost predicate Overwrites(granted: nat, committed: nat, size: nat, k: nat, p: nat) {
    Fits(granted, committed, size) && k < size && Physical(granted + k) == Physical(p)
  }

  /** A byte granted among the last BUFFER_SIZE ones is out of reach of every grant that can come next
      exactly when the committed total has not passed it. */
  lemma SparedByNextGrantIff(granted: nat, committed: nat, p: nat)
    requires committed <= granted <= committed + BUFFER_SIZE && p < granted <= p + BUFFER_SIZE
    ensures (exists size: nat, k: nat :: Overwrites(granted, committed, size, k, p)) <==> p < committed
  {
    if size: nat, k: nat :| Overwrites(granted, committed, size, k, p) {
      if committed <= p {
        SamePlaceApart(p, granted + k);
      }
    }
    if p < committed {
      SamePlaceAround(p);
      assert Overwrites(granted, committed, committed + BUFFER_SIZE - granted, p + BUFFER_SIZE - granted, p);
    }
  }

  /** Byte b of the later slice j lies in the memory of byte a of slice i. */
  ghost predicate Reuses(slices: seq<Slice>, i: nat, a: nat, j: nat, b: nat) {
    && i < j < |slices| && a < slices[i].size && b < slices[j].size
    && Physical(slices[i].start + a) == Physical(slices[j].start + b)
  }

  /** A grant of this size that can come next covers the memory of byte a of slice i. */
  ghost predicate Exposes(buffer: SPSCRingBuffer, i: nat, a: nat, size: nat, k: nat)
    reads buffer
  {
    && i < |buffer.slices| && a < buffer.slices[i].size
    && Overwrites(buffer.granted, buffer.committed, size, k, buffer.slices[i].start + a)
  }

  lemma UncommittedIsSafe(buffer: SPSCRingBuffer, i: nat)
    requires buffer.Valid() && i < |buffer.slices| && buffer.committed <= buffer.slices[i].start
    ensures !exists a: nat, j: nat, b: nat :: Reuses(buffer.slices, i, a, j, b)
    ensures !exists a: nat, size: nat, k: nat :: Exposes(buffer, i, a, size, k)
  {
    SliceWithinTotal(buffer.slices, buffer.granted, i);
    if a: nat, j: nat, b: nat :| Reuses(buffer.slices, i, a, j, b) {
      LaterSliceStartsLater(buffer.slices, buffer.granted, i, j);
      SamePlaceApart(buffer.slices[i].start + a, buffer.slices[j].start + b);
    }
    if a: nat, size: nat, k: nat :| Exposes(buffer, i, a, size, k) {
      SparedByNextGrantIff(buffer.granted, buffer.committed, buffer.slices[i].start + a);
    }
  }

  /** Commits only count bytes: the memory of a slice has been granted again, or the next grant can
      cover it, exactly when the committed total has passed the slice's first byte, whichever slices
      the commits were for. Finishing slices out of order exposes the ones still being written. */
  lemma SliceExposedIff(buffer: SPSCRingBuffer, i: nat)
    requires buffer.Valid() && i < |buffer.slices| && buffer.slices[i].size > 0
    ensures (exists a: nat, j: nat, b: nat :: Reuses(buffer.slices, i, a, j, b))
            || (exists a: nat, size: nat, k: nat :: Exposes(buffer, i, a, size, k))
            <==> buffer.slices[i].start < buffer.committed
  {
    var start := buffer.slices[i].start;
    if buffer.committed <= start {
      UncommittedIsSafe(buffer, i);
    } else if start + BUFFER_SIZE < buffer.granted {
      var j := SliceHolding(buffer.slices, buffer.granted, start + BUFFER_SIZE);
      if j < i {
        LaterSliceStartsLater(buffer.slices, buffer.granted, j, i);
      }
      SamePlaceAround(start);
      assert Reuses(buffer.slices, i, 0, j, start + BUFFER_SIZE - buffer.slices[j].start);
    } else {
      SliceWithinTotal(buffer.slices, buffer.granted, i);
      SparedByNextGrantIff(buffer.granted, buffer.committed, start);
      var size: nat, k: nat :| Overwrites(buffer.granted, buffer.committed, size, k, start);
      assert Exposes(buffer, i, 0, size, k);
    }
  }

  /** Two slices are granted and only the second is finished: the next grant is the memory of the first. */
  method FinishSecondSliceFirst() returns (first: Option<nat>, second: Option<nat>, next: Option<nat>)
    ensures first == Some(0) && second == Some(10) && next == Some(0)
  {
    var buffer := new SPSCRingBuffer();
    first := buffer.RequestWriteSpace(10);
    second := buffer.RequestWriteSpace(BUFFER_SIZE as SizeT - 10);
    buffer.CommitWrite(BUFFER_SIZE as SizeT - 10);
    next := buffer.RequestWriteSpace(10);
  }

  /** Committing more than was granted makes the free space exceed the buffer by the excess: every
      request up to that size is granted. */
  lemma OverCommitOverGrants(granted: nat, committed: nat, size: SizeT)
    requires granted < committed <= granted + WORD - BUFFER_SIZE - 1
    ensures size <= FreeSpace((granted % WORD) as SizeT, (committed % WORD) as SizeT)
            <==> size as int <= BUFFER_SIZE + (committed - granted)
  {
  }
}
