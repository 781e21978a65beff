/** `unsynchronised_solution<data_type, alignment_bytes, storage>`: the block
    ring over a pluggable storage back end, with the aliases `unsync_solution`
    (over `ring_buffer`) and `memcpy_solution` (over `memcpy_test_buffer`).
    Its cursor update is modelled exactly as written, operator precedence
    included. */
module Unsynchronised {
  import opened Memory
  import Storage
  import Ring

  datatype Unsynchronised = Unsynchronised(nBlocks: nat, bSize: nat, offsetWrite: nat, storage: Storage.Storage)

  predicate Valid(s: Unsynchronised) {
    && Storage.Valid(s.storage)
    && Storage.Capacity(s.storage) == Ring.Capacity(s.nBlocks, s.bSize)
    && Ring.CursorOk(s.offsetWrite, s.nBlocks, s.bSize)
  }

  /** `unsync_solution(num_blocks, block_size)`. */
  function NewUnsyncSolution(nb: nat, bs: nat, unspecified: nat -> int): (s: Unsynchronised)
    ensures Valid(s) && s.offsetWrite == 0 && s.storage.RingBuffer?
    ensures s.nBlocks == nb && s.bSize == bs
  {
    Unsynchronised(nb, bs, 0, Storage.NewRingBuffer(nb * bs, unspecified))
  }

  /** `memcpy_solution(num_blocks, block_size)`: constructing the test buffer
      fills its read side, which throws when there are no elements. */
  function NewMemcpySolution(nb: nat, bs: nat, unspecified: nat -> int): (r: Result<Unsynchronised>)
    ensures r.Ok? <==> nb * bs > 0
    ensures r.Err? ==> r.error == OutOfRange
    ensures r.Ok? ==> Valid(r.value) && r.value.offsetWrite == 0 && r.value.storage.MemcpyTestBuffer?
    ensures r.Ok? ==> r.value.nBlocks == nb && r.value.bSize == bs
    ensures r.Ok? ==> forall i :: 0 <= i < nb * bs ==> Storage.ReadSide(r.value.storage)[i] == 0
  {
    var st :- Storage.NewMemcpyTestBuffer(nb * bs, unspecified);
    Ok(Unsynchronised(nb, bs, 0, st))
  }

  /** `size()`: the capacity, which is also the length of the storage. */
  function Size(s: Unsynchronised): (n: nat)
    ensures Valid(s) ==> n == Storage.Capacity(s.storage)
  {
    s.nBlocks * s.bSize
  }

  /** `fill(value)`: delegated to the storage, so only the write side is
      filled. */
  function Fill(s: Unsynchronised, value: int): (r: Result<Unsynchronised>)
    requires Valid(s)
    ensures r.Ok? <==> Size(s) > 0
    ensures r.Err? ==> r.error == OutOfRange
    ensures r.Ok? ==> Valid(r.value) && r.value.offsetWrite == s.offsetWrite
    ensures r.Ok? ==> Storage.Capacity(r.value.storage) == Storage.Capacity(s.storage)
    ensures r.Ok? ==> forall i :: 0 <= i < Storage.Capacity(r.value.storage) ==> Storage.WriteSide(r.value.storage)[i] == value
    ensures r.Ok? && s.storage.MemcpyTestBuffer? ==> Storage.ReadSide(r.value.storage) == Storage.ReadSide(s.storage)
  {
    var st :- Storage.Fill(s.storage, value);
    Ok(s.(storage := st))
  }

  /** `offset_write % n_blocks * b_size` after `offset_write += size`: the
      remainder is taken modulo the number of blocks and then scaled. */
  function PrecedenceAdvance(cursor: nat, bs: nat, nb: nat): (next: nat)
    requires nb > 0
    ensures bs > 0 ==> next % bs == 0 && next / bs == (cursor + bs) % nb
  {
    var j := (cursor + bs) % nb;
    Ring.ScaledBlockIndex(j, bs);
    j * bs
  }

  /** The literal update still lands on a block boundary inside the buffer. */
  lemma PrecedenceAdvanceInRange(cursor: nat, nb: nat, bs: nat)
    requires nb > 0 && bs > 0
    ensures Ring.CursorOk(PrecedenceAdvance(cursor, bs, nb), nb, bs)
  {
    var j := (cursor + bs) % nb;
    Ring.ModUnique(j * bs, j, bs, 0);
    Ring.MulStrictlyMonotonic(j, nb, bs);
    Ring.CapacityFactors(nb, bs);
  }

  /** `write(src, size)` as written: copy one block through `write_offset`,
      then move the cursor with the literal precedence formula. */
  function Write(s: Unsynchronised, src: Ptr, size: nat): (r: Result<Unsynchronised>)
    requires Valid(s) && Ring.SourceHoldsBlock(src, size, s.bSize)
    ensures r.Err? <==> !Ring.ValidCall(src, size, s.bSize) || Size(s) == 0
    ensures !Ring.ValidCall(src, size, s.bSize) ==> r == Err(RuntimeError)
    ensures Ring.ValidCall(src, size, s.bSize) && Size(s) == 0 ==> r == Err(OutOfRange)
    ensures r.Ok? ==> Valid(r.value) && r.value.nBlocks == s.nBlocks && r.value.bSize == s.bSize
    ensures r.Ok? ==> SameBlock(Storage.WriteSide(r.value.storage), s.offsetWrite, src.buf, 0, s.bSize)
    ensures r.Ok? ==> SameOutside(Storage.WriteSide(r.value.storage), Storage.WriteSide(s.storage), s.offsetWrite, s.bSize)
    ensures r.Ok? && s.storage.MemcpyTestBuffer? ==> Storage.ReadSide(r.value.storage) == Storage.ReadSide(s.storage)
    ensures r.Ok? ==> r.value.offsetWrite == ((s.offsetWrite + s.bSize) % s.nBlocks) * s.bSize
  {
    if !Ring.ValidCall(src, size, s.bSize) then Err(RuntimeError)
    else
      var p :- Storage.WriteOffset(s.storage, s.offsetWrite);
      Ring.CursorBlockFits(s.offsetWrite, s.nBlocks, s.bSize);
      Ring.CapacityFactors(s.nBlocks, s.bSize);
      PrecedenceAdvanceInRange(s.offsetWrite, s.nBlocks, s.bSize);
      var st := Storage.Store(s.storage, p, src.buf[..size]);
      Ok(s.(storage := st, offsetWrite := PrecedenceAdvance(s.offsetWrite, size, s.nBlocks)))
  }

  /** `write` with the cursor update the other strategies use,
      `(offset_write + size) % size()`. */
  function WriteIntended(s: Unsynchronised, src: Ptr, size: nat): (r: Result<Unsynchronised>)
    requires Valid(s) && Ring.SourceHoldsBlock(src, size, s.bSize)
    ensures r.Err? <==> !Ring.ValidCall(src, size, s.bSize) || Size(s) == 0
    ensures r.Ok? ==> Valid(r.value) && r.value.nBlocks == s.nBlocks && r.value.bSize == s.bSize
    ensures r.Ok? ==> SameBlock(Storage.WriteSide(r.value.storage), s.offsetWrite, src.buf, 0, s.bSize)
    ensures r.Ok? ==> r.value.offsetWrite / s.bSize == (s.offsetWrite / s.bSize + 1) % s.nBlocks
  {
    if !Ring.ValidCall(src, size, s.bSize) then Err(RuntimeError)
    else
      var p :- Storage.WriteOffset(s.storage, s.offsetWrite);
      Ring.CursorBlockFits(s.offsetWrite, s.nBlocks, s.bSize);
      Ring.AdvanceKeepsCursorOk(s.offsetWrite, s.nBlocks, s.bSize);
      var st := Storage.Store(s.storage, p, src.buf[..size]);
      Ok(s.(storage := st, offsetWrite := Ring.Advance(s.offsetWrite, size, Size(s))))
  }

  /** What `read` needs from its caller: room in `dst` for a block, and a
      whole block after any start offset that passes the bounds check. */
  predicate ReadRequires(s: Unsynchronised, dst: Ptr, size: nat, offset: nat) {
    Ring.ValidCall(dst, size, s.bSize) ==>
      size <= |dst.buf| && (offset < Storage.Capacity(s.storage) ==> offset + size <= Storage.Capacity(s.storage))
  }

  /** `read(dst, size, offset)`: the new contents of `dst`, holding the block
      `read_offset(offset)` designates. */
  function Read(s: Unsynchronised, dst: Ptr, size: nat, offset: nat): (r: Result<seq<int>>)
    requires Valid(s) && ReadRequires(s, dst, size, offset)
    ensures r.Err? <==> !Ring.ValidCall(dst, size, s.bSize) || offset >= Size(s)
    ensures !Ring.ValidCall(dst, size, s.bSize) ==> r == Err(RuntimeError)
    ensures Ring.ValidCall(dst, size, s.bSize) && offset >= Size(s) ==> r == Err(OutOfRange)
    ensures r.Ok? ==> SameBlock(r.value, 0, Storage.ReadSide(s.storage), offset, s.bSize)
    ensures r.Ok? ==> SameOutside(r.value, dst.buf, 0, s.bSize)
  {
    if !Ring.ValidCall(dst, size, s.bSize) then Err(RuntimeError)
    else
      var p :- Storage.ReadOffset(s.storage, offset);
      Ok(CopyInto(dst.buf, 0, Storage.ReadSide(s.storage)[p..p + size]))
  }

  /** Over a `ring_buffer`, reading the offset a write just used returns the
      block written. */
  lemma UnsyncWriteThenReadRoundTrip(s: Unsynchronised, src: seq<int>, dst: seq<int>)
    requires Valid(s) && s.storage.RingBuffer? && Size(s) > 0
    requires |src| >= s.bSize && |dst| >= s.bSize
    ensures Write(s, NonNull(src), s.bSize).Ok?
    ensures ReadRequires(Write(s, NonNull(src), s.bSize).value, NonNull(dst), s.bSize, s.offsetWrite)
    ensures var r := Read(Write(s, NonNull(src), s.bSize).value, NonNull(dst), s.bSize, s.offsetWrite);
            r.Ok? && r.value[..s.bSize] == src[..s.bSize]
  {
    Ring.CursorBlockFits(s.offsetWrite, s.nBlocks, s.bSize);
    var w := Write(s, NonNull(src), s.bSize).value;
    var r := Read(w, NonNull(dst), s.bSize, s.offsetWrite);
    assert r.value[..s.bSize] == Storage.ReadSide(w.storage)[s.offsetWrite..s.offsetWrite + s.bSize];
  }

  // ---------------------------------------------------------------------------
  // `memcpy_solution` never shows a reader anything written
  // ---------------------------------------------------------------------------

  /** A writer-side operation. */
  datatype Op = WriteOp(src: Ptr, size: nat) | FillOp(value: int)

  /** Runs writer-side operations in order; a call that throws leaves the
      object as it was and the run carries on. */
  function Run(s: Unsynchronised, ops: seq<Op>): (t: Unsynchronised)
    requires Valid(s)
    requires forall k :: 0 <= k < |ops| && ops[k].WriteOp? ==> Ring.SourceHoldsBlock(ops[k].src, ops[k].size, s.bSize)
    ensures Valid(t) && t.nBlocks == s.nBlocks && t.bSize == s.bSize
    ensures s.storage.MemcpyTestBuffer? ==> t.storage.MemcpyTestBuffer? && Storage.ReadSide(t.storage) == Storage.ReadSide(s.storage)
    decreases |ops|
  {
    if ops == [] then s
    else
      var t := Run(s, ops[..|ops| - 1]);
      var op := ops[|ops| - 1];
      var r := match op
        case WriteOp(src, size) => Write(t, src, size)
        case FillOp(value) => Fill(t, value);
      if r.Ok? then r.value else t
  }

  /** Whatever is written or filled, every read of a `memcpy_solution`
      returns default (zero) elements. */
  lemma MemcpySolutionReadsZero(nb: nat, bs: nat, unspecified: nat -> int, ops: seq<Op>, dst: seq<int>, offset: nat)
    requires NewMemcpySolution(nb, bs, unspecified).Ok?
    requires forall k :: 0 <= k < |ops| && ops[k].WriteOp? ==> Ring.SourceHoldsBlock(ops[k].src, ops[k].size, bs)
    requires |dst| >= bs && (offset < nb * bs ==> offset + bs <= nb * bs)
    ensures var s := Run(NewMemcpySolution(nb, bs, unspecified).value, ops);
            var r := Read(s, NonNull(dst), bs, offset);
            r.Ok? ==> forall i :: 0 <= i < bs ==> r.value[i] == 0
  {
    var s0 := NewMemcpySolution(nb, bs, unspecified).value;
    var s := Run(s0, ops);
    ReadOfZeroSideIsZero(s, dst, offset);
  }

  /** A read copies from the read side, so an all-zero read side reads as
      zeros. */
  lemma ReadOfZeroSideIsZero(s: Unsynchronised, dst: seq<int>, offset: nat)
    requires Valid(s) && ReadRequires(s, NonNull(dst), s.bSize, offset)
    requires forall i :: 0 <= i < Size(s) ==> Storage.ReadSide(s.storage)[i] == 0
    ensures var r := Read(s, NonNull(dst), s.bSize, offset);
            r.Ok? ==> forall i :: 0 <= i < s.bSize ==> r.value[i] == 0
  {
    var r := Read(s, NonNull(dst), s.bSize, offset);
    if r.Ok? {
      forall i | 0 <= i < s.bSize
        ensures r.value[i] == 0
      {
        assert r.value[i] == r.value[0..s.bSize][i] == Storage.ReadSide(s.storage)[offset..offset + s.bSize][i];
      }
    }
  }

  // ---------------------------------------------------------------------------
  // The precedence cursor skips blocks
  // ---------------------------------------------------------------------------

  /** The literal cursor after `k` writes starting from 0. */
  function PrecedenceCursorAfter(k: nat, nb: nat, bs: nat): nat
    requires nb > 0
  {
    if k == 0 then 0 else PrecedenceAdvance(PrecedenceCursorAfter(k - 1, nb, bs), bs, nb)
  }

  /** With ten blocks of sixteen elements the first write moves the cursor to
      96 instead of 16, and the cursor only ever visits 0, 32, 64, 96 and 128:
      blocks 1, 3, 5, 7 and 9 are never written. */
  lemma {:induction false} PrecedenceCursorSkipsBlocks(k: nat)
    ensures PrecedenceCursorAfter(1, 10, 16) == 96 != Ring.Advance(0, 16, 160)
    ensures PrecedenceCursorAfter(k, 10, 16) in {0, 32, 64, 96, 128}
  {
    if k > 0 {
      PrecedenceCursorSkipsBlocks(k - 1);
    }
  }

  /** With the intended update, `k` writes from a zero cursor put it at block
      `k mod num_blocks`, so the first `num_blocks` writes visit every block. */
  lemma IntendedCursorVisitsEveryBlock(nb: nat, bs: nat)
    requires nb > 0 && bs > 0
    ensures forall j :: 0 <= j < nb ==> Ring.CursorAfter(j, nb, bs) / bs == j
  {
    Ring.CapacityFactors(nb, bs);
    forall j | 0 <= j < nb
      ensures Ring.CursorAfter(j, nb, bs) / bs == j
    {
      Ring.CursorAfterClosedForm(j, nb, bs);
      Ring.ModUnique(j, 0, nb, j);
      Ring.ModUnique(j * bs, j, bs, 0);
    }
  }
}
