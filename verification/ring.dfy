/** Block ring addressing shared by every strategy: capacity, the write
    cursor and its advance, the mapping from an offset to its block, and the
    "validate, then `memcpy` one block" step each `write` and `read` performs. */
module Ring {
  import opened Memory
  import opened Aligned

  // ---------------------------------------------------------------------------
  // Arithmetic facts the addressing relies on
  // ---------------------------------------------------------------------------

  lemma {:induction false} MulAtLeast(d: int, m: int)
    requires d >= 1 && m > 0
    ensures d * m >= m
    decreases d
  {
    if d > 1 {
      MulAtLeast(d - 1, m);
      assert d * m == (d - 1) * m + m;
    }
  }

  lemma Distributes(a: int, b: int, m: int)
    ensures a * m - b * m == (a - b) * m
  {
  }

  /** Division with remainder has a unique answer. */
  lemma ModUnique(x: int, q: int, m: int, r: int)
    requires m > 0 && 0 <= r < m && x == q * m + r
    ensures x % m == r && x / m == q
  {
    var q', r' := x / m, x % m;
    assert x == q' * m + r';
    Distributes(q, q', m);
    if q > q' {
      MulAtLeast(q - q', m);
      assert false;
    } else if q < q' {
      Distributes(q', q, m);
      MulAtLeast(q' - q, m);
      assert false;
    }
  }

  lemma MulStrictlyMonotonic(a: nat, b: nat, c: nat)
    requires a < b && c > 0
    ensures a * c < b * c
  {
    Distributes(b, a, c);
    MulAtLeast(b - a, c);
  }

  /** A block-aligned offset below the capacity starts a whole block inside
      the buffer, and its block index is below the number of blocks. */
  lemma BlockIndexBelowCount(offset: nat, nb: nat, bs: nat)
    requires bs > 0
    ensures offset < nb * bs <==> offset / bs < nb
  {
    ModUnique(offset, offset / bs, bs, offset % bs);
    if offset / bs < nb {
      MulStrictlyMonotonic(offset / bs, nb, bs);
      assert (offset / bs + 1) * bs <= nb * bs by {
        if offset / bs + 1 < nb {
          MulStrictlyMonotonic(offset / bs + 1, nb, bs);
        }
      }
    } else {
      assert nb * bs <= (offset / bs) * bs by {
        if nb < offset / bs {
          MulStrictlyMonotonic(nb, offset / bs, bs);
        }
      }
    }
  }

  lemma AlignedBlockFits(offset: nat, nb: nat, bs: nat)
    requires bs > 0 && offset % bs == 0 && offset < nb * bs
    ensures offset + bs <= nb * bs
  {
    BlockIndexBelowCount(offset, nb, bs);
    var j := offset / bs;
    ModUnique(offset, j, bs, 0);
    assert offset + bs == (j + 1) * bs;
    if j + 1 < nb {
      MulStrictlyMonotonic(j + 1, nb, bs);
    }
  }

  // ---------------------------------------------------------------------------
  // The write cursor
  // ---------------------------------------------------------------------------

  function Capacity(nb: nat, bs: nat): nat {
    nb * bs
  }

  lemma CapacityFactors(nb: nat, bs: nat)
    ensures Capacity(nb, bs) > 0 <==> nb > 0 && bs > 0
  {
    if nb > 0 && bs > 0 {
      MulAtLeast(nb, bs);
    }
  }

  /** The cursor invariant: block-aligned and inside the buffer, or 0 when the
      buffer is empty. */
  predicate CursorOk(cursor: nat, nb: nat, bs: nat) {
    if Capacity(nb, bs) == 0 then cursor == 0
    else cursor < Capacity(nb, bs) && cursor % bs == 0
  }

  /** `offset_write += size; offset_write %= a.size();` with `size` equal to
      the block size. */
  function Advance(cursor: nat, bs: nat, cap: nat): (next: nat)
    requires cap > 0
    ensures next < cap
    ensures cursor + bs < cap ==> next == cursor + bs
    ensures cap <= cursor + bs < 2 * cap ==> next == cursor + bs - cap
  {
    ModBelowTwice(cursor + bs, cap);
    (cursor + bs) % cap
  }

  /** Reducing a value below twice the modulus subtracts it at most once. */
  lemma ModBelowTwice(x: nat, m: nat)
    requires m > 0
    ensures x < m ==> x % m == x
    ensures m <= x < 2 * m ==> x % m == x - m
  {
    if x < m {
      ModUnique(x, 0, m, x);
    } else if x < 2 * m {
      ModUnique(x, 1, m, x - m);
    }
  }

  /** A whole number of blocks is a block start, and its block index is that
      number. */
  lemma ScaledBlockIndex(j: nat, bs: nat)
    ensures bs > 0 ==> (j * bs) % bs == 0 && (j * bs) / bs == j
  {
    if bs > 0 {
      ModUnique(j * bs, j, bs, 0);
    }
  }

  /** Advancing the cursor of block `j` lands on block `(j + 1) % nb`. */
  lemma AdvanceByBlock(nb: nat, bs: nat, j: nat)
    requires bs > 0 && j < nb
    ensures Advance(j * bs, bs, nb * bs) == ((j + 1) % nb) * bs
  {
    var m := nb * bs;
    var x := (j + 1) * bs;
    assert j * bs + bs == x;
    if j + 1 < nb {
      MulStrictlyMonotonic(j + 1, nb, bs);
      ModUnique(x, 0, m, x);
      ModUnique(j + 1, 0, nb, j + 1);
    } else {
      ModUnique(x, 1, m, 0);
      ModUnique(j + 1, 1, nb, 0);
    }
  }

  /** Advancing keeps the cursor invariant, and the block it points at is the
      next one round the ring. */
  lemma AdvanceKeepsCursorOk(cursor: nat, nb: nat, bs: nat)
    requires Capacity(nb, bs) > 0 && CursorOk(cursor, nb, bs)
    ensures CursorOk(Advance(cursor, bs, Capacity(nb, bs)), nb, bs)
    ensures Advance(cursor, bs, Capacity(nb, bs)) / bs == (cursor / bs + 1) % nb
  {
    var j := cursor / bs;
    ModUnique(cursor, j, bs, 0);
    BlockIndexBelowCount(cursor, nb, bs);
    AdvanceByBlock(nb, bs, j);
    var next := ((j + 1) % nb) * bs;
    ModUnique(next, (j + 1) % nb, bs, 0);
    BlockIndexBelowCount(next, nb, bs);
  }

  /** The cursor after `k` writes starting from 0. */
  function CursorAfter(k: nat, nb: nat, bs: nat): nat
    requires Capacity(nb, bs) > 0
  {
    if k == 0 then 0 else Advance(CursorAfter(k - 1, nb, bs), bs, Capacity(nb, bs))
  }

  lemma SuccessorMod(k: nat, nb: nat)
    requires nb > 0
    ensures (k % nb + 1) % nb == (k + 1) % nb
  {
    ModUnique(k, k / nb, nb, k % nb);
    if k % nb + 1 < nb {
      ModUnique(k % nb + 1, 0, nb, k % nb + 1);
      ModUnique(k + 1, k / nb, nb, k % nb + 1);
    } else {
      ModUnique(nb, 1, nb, 0);
      ModUnique(k + 1, k / nb + 1, nb, 0);
    }
  }

  /** Block `k mod nb` starts at element `(k * bs) mod (nb * bs)`. */
  lemma BlockStartIsScaledMod(k: nat, nb: nat, bs: nat)
    requires nb > 0 && bs > 0
    ensures (k % nb) * bs == (k * bs) % (nb * bs)
  {
    var q, r := k / nb, k % nb;
    assert k == q * nb + r;
    assert k * bs == (q * nb + r) * bs;
    assert (q * nb + r) * bs == q * (nb * bs) + r * bs;
    MulStrictlyMonotonic(r, nb, bs);
    ModUnique(k * bs, q, nb * bs, r * bs);
  }

  /** After `k` writes the cursor is at block `k mod num_blocks`, that is at
      `(k * block_size) mod capacity`. */
  lemma {:induction false} CursorAfterClosedForm(k: nat, nb: nat, bs: nat)
    requires Capacity(nb, bs) > 0
    ensures CursorAfter(k, nb, bs) == (k % nb) * bs
    ensures CursorAfter(k, nb, bs) == (k * bs) % Capacity(nb, bs)
  {
    if k > 0 {
      CursorAfterClosedForm(k - 1, nb, bs);
      assert (k - 1) % nb < nb;
      AdvanceByBlock(nb, bs, (k - 1) % nb);
      SuccessorMod(k - 1, nb);
    }
    BlockStartIsScaledMod(k, nb, bs);
  }

  /** After `num_blocks` writes the cursor is back at block 0. */
  lemma CursorWrapsAfterEveryBlock(nb: nat, bs: nat)
    requires Capacity(nb, bs) > 0
    ensures CursorAfter(nb, nb, bs) == 0
    ensures forall k :: 0 < k < nb ==> CursorAfter(k, nb, bs) != 0
  {
    CapacityFactors(nb, bs);
    CursorAfterClosedForm(nb, nb, bs);
    ModUnique(nb, 1, nb, 0);
    forall k | 0 < k < nb
      ensures CursorAfter(k, nb, bs) != 0
    {
      CursorAfterClosedForm(k, nb, bs);
      ModUnique(k, 0, nb, k);
      MulAtLeast(k, bs);
    }
  }

  // ---------------------------------------------------------------------------
  // One validated block copy
  // ---------------------------------------------------------------------------

  /** `src != nullptr && size == b_size`, the check every `write` and `read`
      makes before touching anything. */
  predicate ValidCall(p: Ptr, size: nat, bs: nat) {
    p.NonNull? && size == bs
  }

  /** What a `write` that passes the check needs from its caller: `src`
      holds at least `size` elements for the `memcpy` to read. */
  predicate SourceHoldsBlock(src: Ptr, size: nat, bs: nat) {
    ValidCall(src, size, bs) ==> size <= |src.buf|
  }

  /** The state every block ring keeps between operations: `nb * bs`
      elements of storage and a cursor satisfying the cursor invariant. */
  predicate Layout(nb: nat, bs: nat, cursor: nat, a: AlignedArray) {
    Size(a) == Capacity(nb, bs) && CursorOk(cursor, nb, bs)
  }

  /** A write keeps the layout: the stored-into array keeps its size and the
      advanced cursor is still a block start below the capacity. */
  lemma StoreAndAdvanceKeepLayout(nb: nat, bs: nat, cursor: nat, a: AlignedArray, stored: AlignedArray)
    requires Layout(nb, bs, cursor, a) && Size(stored) == Size(a) > 0
    ensures Layout(nb, bs, Advance(cursor, bs, Size(stored)), stored)
  {
    AdvanceKeepsCursorOk(cursor, nb, bs);
  }

  /** Under the cursor invariant a block written at the cursor fits. */
  lemma CursorBlockFits(cursor: nat, nb: nat, bs: nat)
    requires CursorOk(cursor, nb, bs)
    ensures cursor < Capacity(nb, bs) ==> cursor + bs <= Capacity(nb, bs)
  {
    if cursor < Capacity(nb, bs) {
      CapacityFactors(nb, bs);
      AlignedBlockFits(cursor, nb, bs);
    }
  }

  /** `memcpy(a.offset(at), src, size)`: fails with `std::out_of_range`, and
      changes nothing, when `at` is not below the capacity. Only the start is
      checked, so the caller guarantees the rest of the block fits. */
  function StoreBlock(a: AlignedArray, at: nat, src: seq<int>, size: nat): (r: Result<AlignedArray>)
    requires size <= |src|
    requires at < Size(a) ==> at + size <= Size(a)
    ensures r.Ok? <==> at < Size(a)
    ensures r.Err? ==> r.error == OutOfRange
    ensures r.Ok? ==> SameBlock(r.value.elems, at, src, 0, size)
    ensures r.Ok? ==> SameOutside(r.value.elems, a.elems, at, size)
  {
    var p :- Offset(a, at);
    Ok(Store(a, p, src[..size]))
  }

  /** `memcpy(dst, a.offset(at), size)`: the new contents of `dst`. */
  function LoadBlock(a: AlignedArray, at: nat, dst: seq<int>, size: nat): (r: Result<seq<int>>)
    requires size <= |dst|
    requires at < Size(a) ==> at + size <= Size(a)
    ensures r.Ok? <==> at < Size(a)
    ensures r.Err? ==> r.error == OutOfRange
    ensures r.Ok? ==> SameBlock(r.value, 0, a.elems, at, size)
    ensures r.Ok? ==> SameOutside(r.value, dst, 0, size)
  {
    var p :- Offset(a, at);
    Ok(CopyInto(dst, 0, a.elems[p..p + size]))
  }
}
