/** `seqlock_solution`: the block ring with one sequence counter per block.
    The writer makes a block's counter odd for the duration of its copy and
    even again, two higher, once the copy is complete; a reader accepts its
    copy only when the counter read before and after it is the same even
    value. This module gives the sequential meaning of both operations; the
    module `SeqlockInterleaving` interleaves their steps. */
module Seqlock {
  import opened Memory
  import Aligned
  import Ring

  // ---------------------------------------------------------------------------
  // Counter layout
  // ---------------------------------------------------------------------------

  /** `sizeof(std::atomic<std::size_t>)` on the 64-bit targets the code is
      built for. */
  const CounterBytes: nat := 8

  /** The default `false_sharing_range` of `cursor<>`. */
  const DefaultFalseSharingRange: nat := 128

  /** Length of `cursor::padding_`, `(range - sizeof(seq)) % range`, for a
      range the template admits: the counter and its padding fill exactly one
      false-sharing range. */
  function PaddingLength(range: nat): (p: nat)
    requires range > CounterBytes
    ensures CounterBytes + p == range
  {
    (range - CounterBytes) % range
  }

  /** `seqlock_solution` holds `cursor<>`, the default range: each counter is
      followed by 120 bytes of padding. */
  lemma DefaultCursorPadding()
    ensures DefaultFalseSharingRange > CounterBytes
    ensures PaddingLength(DefaultFalseSharingRange) == 120
  {
  }

  // ---------------------------------------------------------------------------
  // State
  // ---------------------------------------------------------------------------

  datatype Seqlock = Seqlock(
    nBlocks: nat,
    bSize: nat,
    cursors: seq<nat>,   // `cursors[i].seq`, the counter of block i
    offsetWrite: nat,
    a: Aligned.AlignedArray)

  predicate CountersEven(cursors: seq<nat>) {
    forall i :: 0 <= i < |cursors| ==> cursors[i] % 2 == 0
  }

  /** Between operations: the ring layout, one counter per block, and no
      write in flight. */
  predicate Valid(s: Seqlock) {
    && Ring.Layout(s.nBlocks, s.bSize, s.offsetWrite, s.a)
    && |s.cursors| == s.nBlocks
    && CountersEven(s.cursors)
  }

  /** `seqlock_solution(num_blocks, block_size)`: one zeroed counter per
      block, storage for every block, cursor 0. */
  function New(nb: nat, bs: nat, unspecified: nat -> int): (s: Seqlock)
    ensures Valid(s) && s.offsetWrite == 0 && s.nBlocks == nb && s.bSize == bs
    ensures |s.cursors| == nb && forall i :: 0 <= i < nb ==> s.cursors[i] == 0
    ensures Aligned.Size(s.a) == nb * bs
  {
    Seqlock(nb, bs, seq(nb, _ => 0), 0, Aligned.Sized(nb * bs, unspecified))
  }

  /** `size()`: the capacity, which is also the length of the storage. */
  function Size(s: Seqlock): (n: nat)
    ensures Valid(s) ==> n == Aligned.Size(s.a)
  {
    s.nBlocks * s.bSize
  }

  /** `fill(value)` via the free `fill`; counters and cursor stay. */
  function Fill(s: Seqlock, value: int): (r: Result<Seqlock>)
    requires Valid(s)
    ensures r.Ok? <==> Size(s) > 0
    ensures r.Err? ==> r.error == OutOfRange
    ensures r.Ok? ==> Valid(r.value) && r.value.offsetWrite == s.offsetWrite && r.value.cursors == s.cursors
    ensures r.Ok? ==> Aligned.Size(r.value.a) == Aligned.Size(s.a)
    ensures r.Ok? ==> forall i :: 0 <= i < Aligned.Size(r.value.a) ==> r.value.a.elems[i] == value
  {
    var a :- Aligned.Fill(s.a, value);
    Ok(s.(a := a))
  }

  // ---------------------------------------------------------------------------
  // Write
  // ---------------------------------------------------------------------------

  /** What `write` needs from its caller beyond the checks it makes: `src`
      holds a block, `offset_write / size` does not divide by zero, and
      `cursors[index]` exists. */
  predicate WriteRequires(s: Seqlock, src: Ptr, size: nat) {
    Ring.ValidCall(src, size, s.bSize) ==>
      size <= |src.buf| && size > 0 && s.offsetWrite / size < |s.cursors|
  }

  /** On every valid non-empty ring the counter a write uses exists. */
  lemma WriteIndexInRange(s: Seqlock)
    requires Valid(s) && Size(s) > 0
    ensures s.bSize > 0 && s.offsetWrite / s.bSize < |s.cursors|
  {
    Ring.CapacityFactors(s.nBlocks, s.bSize);
    Ring.BlockIndexBelowCount(s.offsetWrite, s.nBlocks, s.bSize);
  }

  /** Step (2) of the write protocol: store `seq0 + 1`. While the copy runs
      the counter of the block is odd and nothing else has changed. */
  function BeginWrite(s: Seqlock, index: nat): (t: Seqlock)
    requires Valid(s) && index < |s.cursors|
    ensures |t.cursors| == |s.cursors|
    ensures t.cursors[index] % 2 == 1 && t.cursors[index] > s.cursors[index]
    ensures forall j :: 0 <= j < |s.cursors| && j != index ==> t.cursors[j] == s.cursors[j]
    ensures t.a == s.a && t.offsetWrite == s.offsetWrite
  {
    s.(cursors := s.cursors[index := s.cursors[index] + 1])
  }

  /** `write(src, size)`: counter `s -> s + 1`, copy the block at the
      cursor, counter `-> s + 2`, then advance the cursor round the ring. */
  function Write(s: Seqlock, src: Ptr, size: nat): (r: Result<Seqlock>)
    requires Valid(s) && WriteRequires(s, src, size)
    ensures r.Err? <==> !Ring.ValidCall(src, size, s.bSize)
    ensures r.Err? ==> r.error == RuntimeError
    ensures r.Ok? ==> Valid(r.value) && r.value.nBlocks == s.nBlocks && r.value.bSize == s.bSize
    ensures r.Ok? ==> var index := s.offsetWrite / s.bSize;
                      && index < |s.cursors|
                      && r.value.cursors[index] == s.cursors[index] + 2
                      && forall j :: 0 <= j < |s.cursors| && j != index ==> r.value.cursors[j] == s.cursors[j]
    ensures r.Ok? ==> SameBlock(r.value.a.elems, s.offsetWrite, src.buf, 0, s.bSize)
    ensures r.Ok? ==> SameOutside(r.value.a.elems, s.a.elems, s.offsetWrite, s.bSize)
    ensures r.Ok? ==> r.value.offsetWrite == (s.offsetWrite + s.bSize) % Size(s)
  {
    if !Ring.ValidCall(src, size, s.bSize) then Err(RuntimeError)
    else
      var index := s.offsetWrite / size;
      var seq0 := s.cursors[index];
      var inFlight := BeginWrite(s, index);
      // `cursors[offset_write / size]` exists, so the ring is not empty
      Ring.CapacityFactors(s.nBlocks, s.bSize);
      assert Size(s) > 0;
      Ring.BlockIndexBelowCount(s.offsetWrite, s.nBlocks, s.bSize);
      Ring.CursorBlockFits(s.offsetWrite, s.nBlocks, s.bSize);
      match Ring.StoreBlock(inFlight.a, inFlight.offsetWrite, src.buf, size)
      case Err(e) => Err(e)  // unreachable: the ring is not empty
      case Ok(a) =>
        var published := inFlight.(a := a, cursors := inFlight.cursors[index := seq0 + 2]);
        Ring.StoreAndAdvanceKeepLayout(s.nBlocks, s.bSize, s.offsetWrite, s.a, a);
        Ok(published.(offsetWrite := Ring.Advance(s.offsetWrite, size, Aligned.Size(a))))
  }

  // ---------------------------------------------------------------------------
  // Read
  // ---------------------------------------------------------------------------

  /** What `read` needs from its caller: `dst` has room for a block, the
      divisor is non-zero, `cursors[offset / size]` exists (it is indexed
      before the storage checks the offset), and the block fits. */
  predicate ReadRequires(s: Seqlock, dst: Ptr, size: nat, offset: nat) {
    Ring.ValidCall(dst, size, s.bSize) ==>
      && size <= |dst.buf| && size > 0 && offset / size < |s.cursors|
      && (offset < Aligned.Size(s.a) ==> offset + size <= Aligned.Size(s.a))
  }

  /** The counter index of a read exists exactly when the offset is inside the
      buffer, so a read the caller may make never reaches `out_of_range`. */
  lemma ReadIndexInRange(s: Seqlock, offset: nat)
    requires Valid(s) && s.bSize > 0
    ensures offset / s.bSize < |s.cursors| <==> offset < Size(s)
  {
    Ring.BlockIndexBelowCount(offset, s.nBlocks, s.bSize);
  }

  /** One pass of the reader's loop: the counter, the copy, the counter again. */
  datatype Snapshot = Snapshot(seq0: nat, copy: seq<int>, seq1: nat)

  /** `seq0 != seq1 || seq0 & 1`: the two counter loads around a copy differ,
      or a write was in flight at the first one, so the copy may be torn and
      is discarded. */
  predicate Retry(seq0: nat, seq1: nat) {
    seq0 != seq1 || seq0 % 2 == 1
  }

  function Attempt(s: Seqlock, dst: Ptr, size: nat, offset: nat): (snap: Snapshot)
    requires Valid(s) && Ring.ValidCall(dst, size, s.bSize) && ReadRequires(s, dst, size, offset)
    ensures SameBlock(snap.copy, 0, s.a.elems, offset, s.bSize)
    ensures SameOutside(snap.copy, dst.buf, 0, s.bSize)
  {
    var index := offset / size;
    ReadIndexInRange(s, offset);
    var seq0 := s.cursors[index];
    var copy := Ring.LoadBlock(s.a, offset, dst.buf, size).value;
    var seq1 := s.cursors[index];
    Snapshot(seq0, copy, seq1)
  }

  /** With no writer running, the counter is even and cannot change during
      the copy: the reader's loop exits after its first pass. */
  lemma SingleThreadedReadNeverRetries(s: Seqlock, dst: Ptr, size: nat, offset: nat)
    requires Valid(s) && Ring.ValidCall(dst, size, s.bSize) && ReadRequires(s, dst, size, offset)
    ensures var snap := Attempt(s, dst, size, offset); !Retry(snap.seq0, snap.seq1)
  {
  }

  /** `read(dst, size, offset)`: the new contents of `dst`, holding the block
      at `offset`, taken from the first snapshot the retry test accepts. */
  function Read(s: Seqlock, dst: Ptr, size: nat, offset: nat): (r: Result<seq<int>>)
    requires Valid(s) && ReadRequires(s, dst, size, offset)
    ensures r.Err? <==> !Ring.ValidCall(dst, size, s.bSize)
    ensures r.Err? ==> r.error == RuntimeError
    ensures r.Ok? ==> SameBlock(r.value, 0, s.a.elems, offset, s.bSize)
    ensures r.Ok? ==> SameOutside(r.value, dst.buf, 0, s.bSize)
  {
    if !Ring.ValidCall(dst, size, s.bSize) then Err(RuntimeError)
    else
      // the loop repeats while `Retry` holds; with no writer running its
      // first pass is accepted, so `read` returns that pass's copy
      var snap := Attempt(s, dst, size, offset);
      SingleThreadedReadNeverRetries(s, dst, size, offset);
      Ok(snap.copy)
  }

  /** A read at an offset that is not a multiple of the block size is
      admitted whenever its copy ends inside the buffer. That copy covers the
      tail of block `offset / size` and the head of the next block, yet the
      read loads only the counter of the first: the retry test cannot see a
      write to the second. */
  lemma UnalignedReadSpansTwoBlocks(s: Seqlock, dst: seq<int>, offset: nat)
    requires Valid(s) && s.bSize > 0 && |dst| >= s.bSize
    requires offset % s.bSize != 0 && offset + s.bSize <= Size(s)
    ensures ReadRequires(s, NonNull(dst), s.bSize, offset)
    ensures Read(s, NonNull(dst), s.bSize, offset).Ok?
    ensures var snap := Attempt(s, NonNull(dst), s.bSize, offset);
            snap.seq0 == snap.seq1 == s.cursors[offset / s.bSize]
    ensures var first := offset / s.bSize;
            && first + 1 < s.nBlocks
            && offset < (first + 1) * s.bSize < offset + s.bSize
  {
    var bs := s.bSize;
    var q, r := offset / bs, offset % bs;
    Ring.ModUnique(offset, q, bs, r);
    assert (q + 1) * bs == offset - r + bs;
    ReadIndexInRange(s, offset);
  }

  /** Write a block, then read the block it landed in: the reader gets
      exactly what was written. */
  lemma SeqlockWriteThenReadRoundTrip(s: Seqlock, src: seq<int>, dst: seq<int>)
    requires Valid(s) && Size(s) > 0
    requires |src| >= s.bSize && |dst| >= s.bSize
    ensures WriteRequires(s, NonNull(src), s.bSize)
    ensures Write(s, NonNull(src), s.bSize).Ok?
    ensures ReadRequires(Write(s, NonNull(src), s.bSize).value, NonNull(dst), s.bSize, s.offsetWrite)
    ensures var r := Read(Write(s, NonNull(src), s.bSize).value, NonNull(dst), s.bSize, s.offsetWrite);
            r.Ok? && r.value[..s.bSize] == src[..s.bSize]
  {
    WriteIndexInRange(s);
    Ring.CursorBlockFits(s.offsetWrite, s.nBlocks, s.bSize);
    var w := Write(s, NonNull(src), s.bSize).value;
    var r := Read(w, NonNull(dst), s.bSize, s.offsetWrite);
    assert r.value[..s.bSize] == w.a.elems[s.offsetWrite..s.offsetWrite + s.bSize];
  }

  // ---------------------------------------------------------------------------
  // Counters count writes
  // ---------------------------------------------------------------------------

  /** Writes one block from each source in turn. */
  function WriteEach(s: Seqlock, srcs: seq<seq<int>>): (r: Result<Seqlock>)
    requires Valid(s) && Size(s) > 0
    requires forall k :: 0 <= k < |srcs| ==> |srcs[k]| >= s.bSize
    ensures r.Ok? ==> Valid(r.value) && r.value.nBlocks == s.nBlocks && r.value.bSize == s.bSize
    decreases |srcs|
  {
    if srcs == [] then Ok(s)
    else
      var t :- WriteEach(s, srcs[..|srcs| - 1]);
      WriteIndexInRange(t);
      Write(t, NonNull(srcs[|srcs| - 1]), s.bSize)
  }

  /** How many of writes `0 .. k - 1` land in block `i` when write `j` lands
      in block `j mod nb`. */
  function WritesTo(k: nat, nb: nat, i: nat): nat
    requires nb > 0
  {
    if k == 0 then 0
    else WritesTo(k - 1, nb, i) + (if (k - 1) % nb == i then 1 else 0)
  }

  /** From construction, after any `k` writes the cursor is at block
      `k mod num_blocks` and every counter is twice the number of writes that
      targeted its block. */
  lemma {:induction false} CountersCountWrites(nb: nat, bs: nat, unspecified: nat -> int, srcs: seq<seq<int>>)
    requires nb > 0 && bs > 0
    requires forall k :: 0 <= k < |srcs| ==> |srcs[k]| >= bs
    ensures Size(New(nb, bs, unspecified)) > 0
    ensures WriteEach(New(nb, bs, unspecified), srcs).Ok?
    ensures var t := WriteEach(New(nb, bs, unspecified), srcs).value;
            && t.offsetWrite == (|srcs| % nb) * bs
            && forall i :: 0 <= i < nb ==> t.cursors[i] == 2 * WritesTo(|srcs|, nb, i)
    decreases |srcs|
  {
    var s := New(nb, bs, unspecified);
    Ring.CapacityFactors(nb, bs);
    var k := |srcs|;
    if k == 0 {
      Ring.ModUnique(0, 0, nb, 0);
    } else {
      CountersCountWrites(nb, bs, unspecified, srcs[..k - 1]);
      var t := WriteEach(s, srcs[..k - 1]).value;
      var j := (k - 1) % nb;
      Ring.ModUnique(j * bs, j, bs, 0);
      assert t.offsetWrite / bs == j;
      WriteIndexInRange(t);
      Ring.CursorAfterClosedForm(k - 1, nb, bs);
      Ring.CursorAfterClosedForm(k, nb, bs);
      assert WriteEach(s, srcs) == Write(t, NonNull(srcs[k - 1]), bs);
    }
  }

  // ---------------------------------------------------------------------------
  // Writing one block over and over
  // ---------------------------------------------------------------------------

  /** A non-zero block-aligned cursor lies past the first block. */
  lemma CursorPastFirstBlock(cursor: nat, bs: nat)
    requires bs > 0 && cursor % bs == 0 && cursor > 0
    ensures cursor >= bs
  {
    Ring.ModUnique(cursor, cursor / bs, bs, 0);
    Ring.MulAtLeast(cursor / bs, bs);
  }

  /** One write of `src` keeps `src` in block 0 once it is there: a write at
      cursor 0 puts it there again, and a write anywhere else leaves block 0
      alone. */
  lemma WriteKeepsFirstBlock(t: Seqlock, src: seq<int>)
    requires Valid(t) && Size(t) > 0 && |src| >= t.bSize
    requires t.offsetWrite == 0 || SameBlock(t.a.elems, 0, src, 0, t.bSize)
    ensures Write(t, NonNull(src), t.bSize).Ok?
    ensures SameBlock(Write(t, NonNull(src), t.bSize).value.a.elems, 0, src, 0, t.bSize)
  {
    WriteIndexInRange(t);
    var r := Write(t, NonNull(src), t.bSize).value;
    if t.offsetWrite != 0 {
      CursorPastFirstBlock(t.offsetWrite, t.bSize);
      assert r.a.elems[..t.bSize] == t.a.elems[..t.bSize];
    }
  }

  /** From a zero cursor, writing the same source `|srcs| >= 1` times leaves
      that source in block 0: the first write puts it there and every later
      write either rewrites block 0 with it or leaves block 0 alone. */
  lemma {:induction false} RepeatedWritesKeepFirstBlock(s: Seqlock, src: seq<int>, srcs: seq<seq<int>>)
    requires Valid(s) && Size(s) > 0 && s.offsetWrite == 0 && |src| >= s.bSize
    requires forall k :: 0 <= k < |srcs| ==> srcs[k] == src
    ensures WriteEach(s, srcs).Ok?
    ensures |srcs| > 0 ==> SameBlock(WriteEach(s, srcs).value.a.elems, 0, src, 0, s.bSize)
    decreases |srcs|
  {
    if srcs != [] {
      var n := |srcs|;
      RepeatedWritesKeepFirstBlock(s, src, srcs[..n - 1]);
      var t := WriteEach(s, srcs[..n - 1]).value;
      WriteKeepsFirstBlock(t, src);
      assert WriteEach(s, srcs) == Write(t, NonNull(src), s.bSize);
    }
  }

  /** The loop of the seqlock test: after each of any number of writes of the
      same source, a read of offset 0 returns that source. */
  lemma RepeatedWriteThenReadFirstBlock(s: Seqlock, src: seq<int>, srcs: seq<seq<int>>, dst: seq<int>)
    requires Valid(s) && Size(s) > 0 && s.offsetWrite == 0
    requires |src| >= s.bSize && |dst| >= s.bSize
    requires |srcs| > 0 && forall k :: 0 <= k < |srcs| ==> srcs[k] == src
    ensures WriteEach(s, srcs).Ok?
    ensures ReadRequires(WriteEach(s, srcs).value, NonNull(dst), s.bSize, 0)
    ensures var r := Read(WriteEach(s, srcs).value, NonNull(dst), s.bSize, 0);
            r.Ok? && r.value[..s.bSize] == src[..s.bSize]
  {
    RepeatedWritesKeepFirstBlock(s, src, srcs);
    var t := WriteEach(s, srcs).value;
    WriteIndexInRange(t);
    Ring.CursorBlockFits(0, t.nBlocks, t.bSize);
    Ring.CapacityFactors(t.nBlocks, t.bSize);
    var r := Read(t, NonNull(dst), s.bSize, 0);
    assert r.value[..s.bSize] == t.a.elems[..s.bSize];
  }
}
