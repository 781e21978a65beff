/** `aligned_array<T, alignment_bytes>`: a fixed-length, over-aligned element
    array with a bounds-checked `offset`, value-semantics copy and move, and the
    free function `fill`. The physical alignment of the allocation is not
    modelled; the compile-time alignment predicate is. */
module Aligned {
  import opened Memory

  /** `std::numeric_limits<std::size_t>::max()` on a 64-bit platform. */
  const SizeMax: nat := 0xFFFF_FFFF_FFFF_FFFF

  // ---------------------------------------------------------------------------
  // The `ValidByteAlignment` concept
  // ---------------------------------------------------------------------------

  /** Bitwise AND of two non-negative integers, bit by bit from the lowest. */
  function BitAnd(x: nat, y: nat): nat
    decreases x
  {
    if x == 0 || y == 0 then 0
    else 2 * BitAnd(x / 2, y / 2) + (if x % 2 == 1 && y % 2 == 1 then 1 else 0)
  }

  function Pow2(k: nat): (p: nat)
    ensures p >= 1
  {
    if k == 0 then 1 else 2 * Pow2(k - 1)
  }

  ghost predicate IsPowerOfTwo(a: nat) {
    exists k: nat :: Pow2(k) == a
  }

  /** `ValidByteAlignment<T, alignment_bytes>`: the element fits in one
      alignment unit, and the alignment is non-zero with a single bit set. The
      `&&` short-circuits, so `alignment - 1` is only formed when positive. */
  predicate ValidByteAlignment(elemSize: nat, alignment: nat) {
    elemSize <= alignment && alignment > 0 && BitAnd(alignment, alignment - 1) == 0
  }

  lemma {:induction false} BitAndSelf(m: nat)
    ensures BitAnd(m, m) == m
    decreases m
  {
    if m > 0 {
      BitAndSelf(m / 2);
    }
  }

  lemma {:induction false} PowerOfTwoClearsLowBits(k: nat)
    ensures BitAnd(Pow2(k), Pow2(k) - 1) == 0
  {
    if k > 0 {
      var b := Pow2(k - 1);
      assert Pow2(k) / 2 == b && (Pow2(k) - 1) / 2 == b - 1;
      PowerOfTwoClearsLowBits(k - 1);
    }
  }

  lemma {:induction false} ClearedLowBitsIsPowerOfTwo(a: nat)
    requires a > 0 && BitAnd(a, a - 1) == 0
    ensures IsPowerOfTwo(a)
    decreases a
  {
    if a == 1 {
      assert Pow2(0) == a;
    } else if a % 2 == 1 {
      // a and a - 1 share every bit above the lowest, so the AND is non-zero
      var m := a / 2;
      assert (a - 1) / 2 == m && m >= 1;
      BitAndSelf(m);
      assert false;
    } else {
      var b := a / 2;
      assert (a - 1) / 2 == b - 1 && b >= 1;
      assert BitAnd(a, a - 1) == 2 * BitAnd(b, b - 1);
      ClearedLowBitsIsPowerOfTwo(b);
      var k: nat :| Pow2(k) == b;
      assert Pow2(k + 1) == a;
    }
  }

  /** The bit test in `ValidByteAlignment` is exactly "is a power of two" for
      every positive alignment. */
  lemma AlignmentBitTestIsPowerOfTwo(a: nat)
    requires a > 0
    ensures BitAnd(a, a - 1) == 0 <==> IsPowerOfTwo(a)
  {
    if IsPowerOfTwo(a) {
      var k: nat :| Pow2(k) == a;
      PowerOfTwoClearsLowBits(k);
    }
    if BitAnd(a, a - 1) == 0 {
      ClearedLowBitsIsPowerOfTwo(a);
    }
  }

  /** What the concept admits, stated without bit arithmetic. */
  lemma ValidByteAlignmentMeaning(elemSize: nat, alignment: nat)
    ensures ValidByteAlignment(elemSize, alignment)
            <==> alignment > 0 && IsPowerOfTwo(alignment) && elemSize <= alignment
  {
    if alignment > 0 {
      AlignmentBitTestIsPowerOfTwo(alignment);
    }
  }

  // ---------------------------------------------------------------------------
  // The array
  // ---------------------------------------------------------------------------

  /** `count` is `|elems|`; `ptr` is the identity of the element sequence. */
  datatype AlignedArray = AlignedArray(elems: seq<int>)

  function Size(a: AlignedArray): nat {
    |a.elems|
  }

  /** `aligned_array()`: no elements and a null pointer. */
  function Default(): (a: AlignedArray)
    ensures Size(a) == 0
  {
    AlignedArray([])
  }

  /** `aligned_array(n)`: `new T[n]` leaves arithmetic elements
      indeterminate, so their values come from `unspecified`. */
  function Sized(n: nat, unspecified: nat -> int): (a: AlignedArray)
    ensures Size(a) == n
  {
    AlignedArray(seq(n, i requires 0 <= i < n => unspecified(i)))
  }

  /** Copy construction: allocate `other.count` fresh elements, then `memcpy`
      all of them from `other`. Whatever the allocation held is overwritten. */
  function Copy(other: AlignedArray, unspecified: nat -> int): (a: AlignedArray)
    ensures Size(a) == Size(other)
    ensures forall i :: 0 <= i < Size(a) ==> a.elems[i] == other.elems[i]
  {
    var allocation := Sized(Size(other), unspecified);
    AlignedArray(CopyInto(allocation.elems, 0, other.elems))
  }

  /** Copy assignment: reallocate only when the counts differ, then `memcpy`
      from `other`. Self-assignment returns early, which yields the same
      value as copying an array onto itself. */
  function CopyAssign(self: AlignedArray, other: AlignedArray, unspecified: nat -> int): (a: AlignedArray)
    ensures Size(a) == Size(other)
    ensures forall i :: 0 <= i < Size(a) ==> a.elems[i] == other.elems[i]
  {
    var target := if Size(self) != Size(other) then Sized(Size(other), unspecified) else self;
    AlignedArray(CopyInto(target.elems, 0, other.elems))
  }

  /** The two objects involved in a move: the one constructed or assigned to,
      and the one moved from. */
  datatype Moved = Moved(target: AlignedArray, source: AlignedArray)

  /** Move construction: `std::exchange` takes `other`'s count and pointer and
      leaves `other` as a default-constructed array. */
  function MoveConstruct(other: AlignedArray): (m: Moved)
    ensures Size(m.target) == Size(other) && m.target.elems == other.elems
    ensures Size(m.source) == 0
  {
    Moved(other, Default())
  }

  /** Move assignment: `std::swap` of count and pointer. Assigning an array
      to itself swaps it with itself, which changes nothing. */
  function MoveAssign(self: AlignedArray, other: AlignedArray): (m: Moved)
    ensures Size(m.target) == Size(other) && m.target.elems == other.elems
    ensures Size(m.source) == Size(self) && m.source.elems == self.elems
  {
    Moved(other, self)
  }

  /** `offset(d)`: a pointer to element `d`, or `std::out_of_range` when `d`
      is not below the count. The pointer is modelled by the index it
      designates. */
  function Offset(a: AlignedArray, d: nat): (r: Result<nat>)
    ensures r.Ok? <==> d < Size(a)
    ensures r.Ok? ==> r.value == d
    ensures r.Err? ==> r.error == OutOfRange
  {
    if d < Size(a) then Ok(d) else Err(OutOfRange)
  }

  /** `offset(0)` and `offset(n - 1)` are accepted and `offset(n)` is not. */
  lemma OffsetBoundary(a: AlignedArray)
    requires Size(a) > 0
    ensures Offset(a, 0) == Ok(0)
    ensures Offset(a, Size(a) - 1) == Ok(Size(a) - 1)
    ensures Offset(a, Size(a)) == Err(OutOfRange)
  {
  }

  /** `dst.size() - 1` in `std::size_t`: wraps to `SizeMax` on an empty array. */
  function LastIndex(a: AlignedArray): (last: nat)
    ensures last < Size(a) <==> Size(a) > 0
    ensures Size(a) > 0 ==> last + 1 == Size(a)
    ensures Size(a) == 0 ==> last == SizeMax
  {
    if Size(a) == 0 then SizeMax else Size(a) - 1
  }

  /** The free function `fill(dst, value)`: `std::fill` over
      `[offset(0), offset(last) + 1)`. On an empty array `offset(0)` throws. */
  function Fill(dst: AlignedArray, value: int): (r: Result<AlignedArray>)
    ensures r.Ok? <==> Size(dst) > 0
    ensures r.Err? ==> r.error == OutOfRange
    ensures r.Ok? ==> Size(r.value) == Size(dst)
    ensures r.Ok? ==> forall i :: 0 <= i < Size(r.value) ==> r.value.elems[i] == value
  {
    var first :- Offset(dst, 0);
    match Offset(dst, LastIndex(dst))
    case Err(e) => Err(e)
    case Ok(last) => Ok(AlignedArray(dst.elems[..first] + seq(last + 1 - first, _ => value) + dst.elems[last + 1..]))
  }

  /** `memcpy` of `block` to the element `offset(p)` designated. */
  function Store(a: AlignedArray, p: nat, block: seq<int>): (r: AlignedArray)
    requires p + |block| <= Size(a)
    ensures Size(r) == Size(a)
  {
    AlignedArray(CopyInto(a.elems, p, block))
  }

  /** The `memcpy` overwrites the whole fresh allocation: a copy does not
      depend on whatever `new T[n]` left there, and neither does a copy
      assignment that reallocates. */
  lemma CopyIgnoresAllocation(original: AlignedArray, self: AlignedArray, u1: nat -> int, u2: nat -> int)
    ensures Copy(original, u1) == Copy(original, u2) == original
    ensures CopyAssign(self, original, u1) == CopyAssign(self, original, u2) == original
  {
    assert Copy(original, u1).elems == original.elems;
    assert Copy(original, u2).elems == original.elems;
    assert CopyAssign(self, original, u1).elems == original.elems;
    assert CopyAssign(self, original, u2).elems == original.elems;
  }
}
