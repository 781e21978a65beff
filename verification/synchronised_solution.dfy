/** `synchronised_solution<..., mutex_class, write_lock, read_lock>`: the
    block ring with one mutex per block, and its aliases `shared_solution`
    (`std::shared_mutex`, unique lock to write, shared lock to read) and
    `exclusive_solution` (`std::mutex` for both). Locking does not change what
    a sequence of calls computes, so the locks are kept only as the vector
    `mus` whose index every call must keep in range. */
module Synchronised {
  import opened Memory
  import Aligned
  import Ring

  /** The lock classes the two aliases instantiate. */
  datatype LockPolicy = ExclusiveLocks | SharedLocks

  datatype Synchronised = Synchronised(
    policy: LockPolicy,
    nBlocks: nat,
    bSize: nat,
    offsetWrite: nat,
    locks: nat,   // the length of `mus`
    a: Aligned.AlignedArray)

  predicate Valid(s: Synchronised) {
    Ring.Layout(s.nBlocks, s.bSize, s.offsetWrite, s.a) && s.locks == s.nBlocks
  }

  /** The constructor: one lock per block, storage for every block, cursor 0. */
  function New(policy: LockPolicy, nb: nat, bs: nat, unspecified: nat -> int): (s: Synchronised)
    ensures Valid(s) && s.offsetWrite == 0 && s.locks == nb
    ensures s.policy == policy && s.nBlocks == nb && s.bSize == bs && Aligned.Size(s.a) == nb * bs
  {
    Synchronised(policy, nb, bs, 0, nb, Aligned.Sized(nb * bs, unspecified))
  }

  /** `size()`: the capacity, which is also the length of the storage. */
  function Size(s: Synchronised): (n: nat)
    ensures Valid(s) ==> n == Aligned.Size(s.a)
  {
    s.nBlocks * s.bSize
  }

  /** `fill(value)` via `fill_array`, the free `fill` of `aligned_array`. */
  function Fill(s: Synchronised, value: int): (r: Result<Synchronised>)
    requires Valid(s)
    ensures r.Ok? <==> Size(s) > 0
    ensures r.Err? ==> r.error == OutOfRange
    ensures r.Ok? ==> Valid(r.value) && r.value.offsetWrite == s.offsetWrite
    ensures r.Ok? ==> Aligned.Size(r.value.a) == Aligned.Size(s.a)
    ensures r.Ok? ==> forall i :: 0 <= i < Aligned.Size(r.value.a) ==> r.value.a.elems[i] == value
  {
    var a :- Aligned.Fill(s.a, value);
    Ok(s.(a := a))
  }

  /** What `write` needs from its caller beyond the checks it makes: `src`
      holds a block, `offset_write / size` does not divide by zero, and
      `mus[index]` exists. */
  predicate WriteRequires(s: Synchronised, src: Ptr, size: nat) {
    Ring.ValidCall(src, size, s.bSize) ==>
      size <= |src.buf| && size > 0 && s.offsetWrite / size < s.locks
  }

  /** On every valid non-empty ring the lock index of a write is in range. */
  lemma WriteLockIndexInRange(s: Synchronised)
    requires Valid(s) && Size(s) > 0
    ensures s.offsetWrite / s.bSize < s.locks
  {
    Ring.CapacityFactors(s.nBlocks, s.bSize);
    Ring.BlockIndexBelowCount(s.offsetWrite, s.nBlocks, s.bSize);
  }

  /** `write(src, size)`: under the lock of block `offset_write / size`, copy
      one block to the cursor; then advance the cursor round the ring. */
  function Write(s: Synchronised, src: Ptr, size: nat): (r: Result<Synchronised>)
    requires Valid(s) && WriteRequires(s, src, size)
    ensures r.Err? <==> !Ring.ValidCall(src, size, s.bSize)
    ensures r.Err? ==> r.error == RuntimeError
    ensures r.Ok? ==> Valid(r.value) && r.value.nBlocks == s.nBlocks && r.value.bSize == s.bSize
    ensures r.Ok? ==> SameBlock(r.value.a.elems, s.offsetWrite, src.buf, 0, s.bSize)
    ensures r.Ok? ==> SameOutside(r.value.a.elems, s.a.elems, s.offsetWrite, s.bSize)
    ensures r.Ok? ==> r.value.offsetWrite == (s.offsetWrite + s.bSize) % Size(s)
  {
    if !Ring.ValidCall(src, size, s.bSize) then Err(RuntimeError)
    else
      // `mus[offset_write / size]` exists, so the ring is not empty
      Ring.CapacityFactors(s.nBlocks, s.bSize);
      assert Size(s) > 0;
      Ring.CursorBlockFits(s.offsetWrite, s.nBlocks, s.bSize);
      match Ring.StoreBlock(s.a, s.offsetWrite, src.buf, size)
      case Err(e) => Err(e)  // unreachable: the ring is not empty
      case Ok(a) =>
        Ring.StoreAndAdvanceKeepLayout(s.nBlocks, s.bSize, s.offsetWrite, s.a, a);
        Ok(s.(a := a, offsetWrite := Ring.Advance(s.offsetWrite, size, Aligned.Size(a))))
  }

  /** What `read` needs from its caller: `dst` has room for a block, the
      divisor is non-zero, `mus[offset / size]` exists (it is indexed before
      the storage checks the offset), and the block fits. */
  predicate ReadRequires(s: Synchronised, dst: Ptr, size: nat, offset: nat) {
    Ring.ValidCall(dst, size, s.bSize) ==>
      && size <= |dst.buf| && size > 0 && offset / size < s.locks
      && (offset < Aligned.Size(s.a) ==> offset + size <= Aligned.Size(s.a))
  }

  /** The lock index of a read is in range exactly when the offset is inside
      the buffer, so a read the caller may make never reaches the
      `out_of_range` check. */
  lemma ReadLockIndexInRange(s: Synchronised, offset: nat)
    requires Valid(s) && s.bSize > 0
    ensures offset / s.bSize < s.locks <==> offset < Size(s)
  {
    Ring.BlockIndexBelowCount(offset, s.nBlocks, s.bSize);
  }

  /** `read(dst, size, offset)`: under the lock of block `offset / size`, the
      new contents of `dst`, holding the block at `offset`. */
  function Read(s: Synchronised, dst: Ptr, size: nat, offset: nat): (r: Result<seq<int>>)
    requires Valid(s) && ReadRequires(s, dst, size, offset)
    ensures r.Err? <==> !Ring.ValidCall(dst, size, s.bSize)
    ensures r.Err? ==> r.error == RuntimeError
    ensures r.Ok? ==> SameBlock(r.value, 0, s.a.elems, offset, s.bSize)
    ensures r.Ok? ==> SameOutside(r.value, dst.buf, 0, s.bSize)
  {
    if !Ring.ValidCall(dst, size, s.bSize) then Err(RuntimeError)
    else
      ReadLockIndexInRange(s, offset);
      // never `out_of_range`: the lock index bounds the offset
      Ring.LoadBlock(s.a, offset, dst.buf, size)
  }

  /** Reading the offset a write just used returns exactly the block written. */
  lemma SynchronisedWriteThenReadRoundTrip(s: Synchronised, src: seq<int>, dst: seq<int>)
    requires Valid(s) && Size(s) > 0
    requires |src| >= s.bSize && |dst| >= s.bSize
    ensures WriteRequires(s, NonNull(src), s.bSize)
    ensures Write(s, NonNull(src), s.bSize).Ok?
    ensures ReadRequires(Write(s, NonNull(src), s.bSize).value, NonNull(dst), s.bSize, s.offsetWrite)
    ensures var r := Read(Write(s, NonNull(src), s.bSize).value, NonNull(dst), s.bSize, s.offsetWrite);
            r.Ok? && r.value[..s.bSize] == src[..s.bSize]
  {
    WriteLockIndexInRange(s);
    Ring.CursorBlockFits(s.offsetWrite, s.nBlocks, s.bSize);
    var w := Write(s, NonNull(src), s.bSize).value;
    var r := Read(w, NonNull(dst), s.bSize, s.offsetWrite);
    assert r.value[..s.bSize] == w.a.elems[s.offsetWrite..s.offsetWrite + s.bSize];
  }

  /** `shared_solution` and `exclusive_solution` compute the same results:
      the lock policy never affects the storage, the cursor or what is read.
      This holds because no operation of the model reads `policy`: locks are
      not modelled (they only order concurrent calls), so this says nothing
      about locking itself, only that the two aliases share every
      sequential result. */
  lemma LockPolicyIsInvisible(s: Synchronised, src: Ptr, size: nat, dst: Ptr, offset: nat)
    requires Valid(s) && WriteRequires(s, src, size) && ReadRequires(s, dst, size, offset)
    ensures var t := s.(policy := if s.policy == SharedLocks then ExclusiveLocks else SharedLocks);
            && Read(t, dst, size, offset) == Read(s, dst, size, offset)
            && Write(t, src, size).Ok? == Write(s, src, size).Ok?
            && (Write(s, src, size).Ok? ==>
                  Write(t, src, size).value.a == Write(s, src, size).value.a
                  && Write(t, src, size).value.offsetWrite == Write(s, src, size).value.offsetWrite)
  {
  }
}
