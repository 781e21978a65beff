/** `bad_solution`: a block ring over one `aligned_array` with no
    synchronisation at all. Its sequential meaning is the reference the other
    strategies are compared against. */
module BadSolution {
  import opened Memory
  import Aligned
  import Ring

  datatype BadSolution = BadSolution(nBlocks: nat, bSize: nat, offsetWrite: nat, a: Aligned.AlignedArray)

  predicate Valid(s: BadSolution) {
    Ring.Layout(s.nBlocks, s.bSize, s.offsetWrite, s.a)
  }

  /** `bad_solution(num_blocks, block_size)`: storage for every block, moved
      in from a temporary, and the cursor at 0. */
  function New(nb: nat, bs: nat, unspecified: nat -> int): (s: BadSolution)
    ensures Valid(s) && s.offsetWrite == 0
    ensures s.nBlocks == nb && s.bSize == bs && Aligned.Size(s.a) == nb * bs
  {
    BadSolution(nb, bs, 0, Aligned.MoveConstruct(Aligned.Sized(nb * bs, unspecified)).target)
  }

  /** `size()`: the capacity, which is also the length of the storage. */
  function Size(s: BadSolution): (n: nat)
    ensures Valid(s) ==> n == Aligned.Size(s.a)
  {
    s.nBlocks * s.bSize
  }

  /** `fill(value)`: every stored element becomes `value`; the cursor stays. */
  function Fill(s: BadSolution, value: int): (r: Result<BadSolution>)
    requires Valid(s)
    ensures r.Ok? <==> Size(s) > 0
    ensures r.Err? ==> r.error == OutOfRange
    ensures r.Ok? ==> Valid(r.value) && r.value.offsetWrite == s.offsetWrite
    ensures r.Ok? ==> Aligned.Size(r.value.a) == Aligned.Size(s.a)
    ensures r.Ok? ==> forall i :: 0 <= i < Aligned.Size(r.value.a) ==> r.value.a.elems[i] == value
  {
    var a :- Aligned.Fill(s.a, value);
    Ok(s.(a := a))
  }

  /** `write(src, size)`: copy one block to the cursor, then advance the
      cursor by one block round the ring. */
  function Write(s: BadSolution, src: Ptr, size: nat): (r: Result<BadSolution>)
    requires Valid(s) && Ring.SourceHoldsBlock(src, size, s.bSize)
    ensures r.Err? <==> !Ring.ValidCall(src, size, s.bSize) || Size(s) == 0
    ensures !Ring.ValidCall(src, size, s.bSize) ==> r == Err(RuntimeError)
    ensures Ring.ValidCall(src, size, s.bSize) && Size(s) == 0 ==> r == Err(OutOfRange)
    ensures r.Ok? ==> Valid(r.value) && r.value.nBlocks == s.nBlocks && r.value.bSize == s.bSize
    ensures r.Ok? ==> SameBlock(r.value.a.elems, s.offsetWrite, src.buf, 0, s.bSize)
    ensures r.Ok? ==> SameOutside(r.value.a.elems, s.a.elems, s.offsetWrite, s.bSize)
    ensures r.Ok? ==> r.value.offsetWrite == (s.offsetWrite + s.bSize) % Size(s)
  {
    if !Ring.ValidCall(src, size, s.bSize) then Err(RuntimeError)
    else
      Ring.CursorBlockFits(s.offsetWrite, s.nBlocks, s.bSize);
      var a :- Ring.StoreBlock(s.a, s.offsetWrite, src.buf, size);
      Ring.AdvanceKeepsCursorOk(s.offsetWrite, s.nBlocks, s.bSize);
      Ok(s.(a := a, offsetWrite := Ring.Advance(s.offsetWrite, size, Aligned.Size(a))))
  }

  /** What `read` needs from its caller: `dst` has room for a block, and a
      start offset that passes the bounds check is followed by a whole block
      (only the start is checked before the `memcpy`). */
  predicate ReadRequires(s: BadSolution, dst: Ptr, size: nat, offset: nat) {
    Ring.ValidCall(dst, size, s.bSize) ==>
      size <= |dst.buf| && (offset < Aligned.Size(s.a) ==> offset + size <= Aligned.Size(s.a))
  }

  /** `read(dst, size, offset)`: the new contents of `dst`, holding the block
      at `offset`. */
  function Read(s: BadSolution, dst: Ptr, size: nat, offset: nat): (r: Result<seq<int>>)
    requires ReadRequires(s, dst, size, offset)
    ensures r.Err? <==> !Ring.ValidCall(dst, size, s.bSize) || offset >= Aligned.Size(s.a)
    ensures !Ring.ValidCall(dst, size, s.bSize) ==> r == Err(RuntimeError)
    ensures Ring.ValidCall(dst, size, s.bSize) && offset >= Aligned.Size(s.a) ==> r == Err(OutOfRange)
    ensures r.Ok? ==> SameBlock(r.value, 0, s.a.elems, offset, s.bSize)
    ensures r.Ok? ==> SameOutside(r.value, dst.buf, 0, s.bSize)
  {
    if !Ring.ValidCall(dst, size, s.bSize) then Err(RuntimeError)
    else Ring.LoadBlock(s.a, offset, dst.buf, size)
  }

  /** Reading the offset a write just used returns exactly the block written. */
  lemma WriteThenReadRoundTrip(s: BadSolution, src: seq<int>, dst: seq<int>)
    requires Valid(s) && Size(s) > 0
    requires |src| >= s.bSize && |dst| >= s.bSize
    ensures Write(s, NonNull(src), s.bSize).Ok?
    ensures ReadRequires(Write(s, NonNull(src), s.bSize).value, NonNull(dst), s.bSize, s.offsetWrite)
    ensures var r := Read(Write(s, NonNull(src), s.bSize).value, NonNull(dst), s.bSize, s.offsetWrite);
            r.Ok? && r.value[..s.bSize] == src[..s.bSize]
  {
    Ring.CursorBlockFits(s.offsetWrite, s.nBlocks, s.bSize);
    var w := Write(s, NonNull(src), s.bSize).value;
    var r := Read(w, NonNull(dst), s.bSize, s.offsetWrite);
    assert r.value[..s.bSize] == w.a.elems[s.offsetWrite..s.offsetWrite + s.bSize];
  }

  /** Writes one block from each source in turn. */
  function WriteEach(s: BadSolution, srcs: seq<seq<int>>): (r: Result<BadSolution>)
    requires Valid(s)
    requires forall k :: 0 <= k < |srcs| ==> |srcs[k]| >= s.bSize
    ensures r.Ok? ==> Valid(r.value) && r.value.nBlocks == s.nBlocks && r.value.bSize == s.bSize
    decreases |srcs|
  {
    if srcs == [] then Ok(s)
    else
      var t :- WriteEach(s, srcs[..|srcs| - 1]);
      Write(t, NonNull(srcs[|srcs| - 1]), s.bSize)
  }

  /** From a fresh cursor, `k` writes leave the cursor at block
      `k mod num_blocks`: after `num_blocks` writes it is back at block 0, and
      the next write overwrites block 0. */
  lemma {:induction false} CursorAfterWrites(s: BadSolution, srcs: seq<seq<int>>)
    requires Valid(s) && Size(s) > 0 && s.offsetWrite == 0
    requires forall k :: 0 <= k < |srcs| ==> |srcs[k]| >= s.bSize
    ensures WriteEach(s, srcs).Ok?
    ensures WriteEach(s, srcs).value.offsetWrite == (|srcs| % s.nBlocks) * s.bSize
    decreases |srcs|
  {
    Ring.CapacityFactors(s.nBlocks, s.bSize);
    var k := |srcs|;
    if k > 0 {
      CursorAfterWrites(s, srcs[..k - 1]);
      var t := WriteEach(s, srcs[..k - 1]).value;
      assert t.offsetWrite == Ring.CursorAfter(k - 1, s.nBlocks, s.bSize) by {
        Ring.CursorAfterClosedForm(k - 1, s.nBlocks, s.bSize);
      }
      Ring.CursorAfterClosedForm(k, s.nBlocks, s.bSize);
    } else {
      Ring.CursorAfterClosedForm(0, s.nBlocks, s.bSize);
    }
  }
}
