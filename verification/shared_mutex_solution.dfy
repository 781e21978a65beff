/** `shared_mutex_solution`: the block ring with one `std::shared_mutex` per
    block, taken uniquely by `write` and shared by `read`. Its `size`, `fill`,
    `write` and `read` are those of `shared_solution` (the `SharedLocks`
    instance of `synchronised_solution`) spelled with deduced lock types; only
    the constructor differs, moving its storage in from a temporary. The
    object is therefore a `Synchronised` state with the `SharedLocks` policy,
    and this module states what its own constructor adds. */
module SharedMutex {
  import opened Memory
  import Aligned
  import Ring
  import Synchronised

  /** `shared_mutex_solution(num_blocks, block_size)`: one lock per block,
      storage for every block moved in from a temporary, cursor 0. Moving the
      temporary in yields exactly the object `shared_solution` constructs. */
  function New(nb: nat, bs: nat, unspecified: nat -> int): (s: Synchronised.Synchronised)
    ensures s == Synchronised.New(Synchronised.SharedLocks, nb, bs, unspecified)
    ensures Synchronised.Valid(s) && s.offsetWrite == 0 && s.locks == nb
    ensures s.nBlocks == nb && s.bSize == bs && Aligned.Size(s.a) == nb * bs
  {
    var moved := Aligned.MoveConstruct(Aligned.Sized(nb * bs, unspecified));
    Synchronised.Synchronised(Synchronised.SharedLocks, nb, bs, 0, nb, moved.target)
  }

  /** From construction, a write of `src` followed by a read of offset 0
      returns `src`, and the cursor has moved to the second block (or back to
      0 when there is only one block). */
  lemma FirstWriteThenRead(nb: nat, bs: nat, unspecified: nat -> int, src: seq<int>, dst: seq<int>)
    requires nb > 0 && bs > 0 && |src| >= bs && |dst| >= bs
    ensures Synchronised.WriteRequires(New(nb, bs, unspecified), NonNull(src), bs)
    ensures var w := Synchronised.Write(New(nb, bs, unspecified), NonNull(src), bs);
            && w.Ok?
            && w.value.offsetWrite == (if nb == 1 then 0 else bs)
            && Synchronised.ReadRequires(w.value, NonNull(dst), bs, 0)
            && var r := Synchronised.Read(w.value, NonNull(dst), bs, 0);
               r.Ok? && r.value[..bs] == src[..bs]
  {
    var s := New(nb, bs, unspecified);
    Ring.CapacityFactors(nb, bs);
    Synchronised.WriteLockIndexInRange(s);
    Synchronised.SynchronisedWriteThenReadRoundTrip(s, src, dst);
    Ring.AdvanceKeepsCursorOk(0, nb, bs);
    Ring.CursorAfterClosedForm(1, nb, bs);
    if nb == 1 {
      Ring.ModUnique(1, 1, nb, 0);
    } else {
      Ring.ModUnique(1, 0, nb, 1);
    }
  }
}
