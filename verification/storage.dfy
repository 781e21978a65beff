/** The two storage back ends an `unsynchronised_solution` can be
    instantiated with: `ring_buffer`, one array that writes and reads share,
    and `memcpy_test_buffer`, which writes into one array and reads from
    another so that timing runs never race. */
module Storage {
  import opened Memory
  import opened Aligned

  datatype Storage =
    | RingBuffer(a: AlignedArray)
    | MemcpyTestBuffer(a: AlignedArray, b: AlignedArray)

  /** `ring_buffer(num_elements)`. */
  function NewRingBuffer(n: nat, unspecified: nat -> int): (st: Storage)
    ensures st.RingBuffer? && Size(st.a) == n
  {
    RingBuffer(Sized(n, unspecified))
  }

  /** `memcpy_test_buffer(num_elements)`: two arrays of the same length, the
      read side filled with `data_type{}`. Filling an empty array throws, so
      construction with zero elements fails. */
  function NewMemcpyTestBuffer(n: nat, unspecified: nat -> int): (r: Result<Storage>)
    ensures r.Ok? <==> n > 0
    ensures r.Err? ==> r.error == OutOfRange
    ensures r.Ok? ==> r.value.MemcpyTestBuffer? && Size(r.value.a) == n && Size(r.value.b) == n
    ensures r.Ok? ==> forall i :: 0 <= i < n ==> r.value.b.elems[i] == 0
  {
    var b :- Aligned.Fill(Sized(n, unspecified), 0);
    Ok(MemcpyTestBuffer(Sized(n, unspecified), b))
  }

  /** Number of elements behind the write pointer. */
  function Capacity(st: Storage): nat {
    Size(st.a)
  }

  /** Both arrays have the same length (always true of a constructed
      `memcpy_test_buffer`). */
  predicate Valid(st: Storage) {
    st.MemcpyTestBuffer? ==> Size(st.b) == Size(st.a)
  }

  /** The elements `write_offset` points into. */
  function WriteSide(st: Storage): seq<int> {
    st.a.elems
  }

  /** The elements `read_offset` points into. */
  function ReadSide(st: Storage): seq<int> {
    match st
    case RingBuffer(a) => a.elems
    case MemcpyTestBuffer(_, b) => b.elems
  }

  /** `fill(value)`: both back ends fill only the write-side array. */
  function Fill(st: Storage, value: int): (r: Result<Storage>)
    ensures r.Ok? <==> Capacity(st) > 0
    ensures r.Err? ==> r.error == OutOfRange
    ensures r.Ok? ==> Capacity(r.value) == Capacity(st)
    ensures r.Ok? ==> forall i :: 0 <= i < Capacity(st) ==> WriteSide(r.value)[i] == value
    ensures r.Ok? && st.MemcpyTestBuffer? ==> r.value.MemcpyTestBuffer? && r.value.b == st.b
    ensures r.Ok? ==> (r.value.RingBuffer? <==> st.RingBuffer?)
  {
    var a :- Aligned.Fill(st.a, value);
    Ok(st.(a := a))
  }

  /** `write_offset(d)`: the write-side element `d`. */
  function WriteOffset(st: Storage, d: nat): (r: Result<nat>)
    ensures r.Ok? <==> d < Capacity(st)
    ensures r.Ok? ==> r.value == d
    ensures r.Err? ==> r.error == OutOfRange
  {
    Offset(st.a, d)
  }

  /** `read_offset(d)`: element `d` of the array reads come from. */
  function ReadOffset(st: Storage, d: nat): (r: Result<nat>)
    requires Valid(st)
    ensures r.Ok? <==> d < Capacity(st)
    ensures r.Ok? ==> r.value == d
    ensures r.Err? ==> r.error == OutOfRange
  {
    match st
    case RingBuffer(a) => Offset(a, d)
    case MemcpyTestBuffer(_, b) => Offset(b, d)
  }

  /** `memcpy` of `block` to the write-side element `p`. */
  function Store(st: Storage, p: nat, block: seq<int>): (r: Storage)
    requires p + |block| <= Capacity(st)
    ensures Capacity(r) == Capacity(st)
    ensures WriteSide(r) == CopyInto(WriteSide(st), p, block)
    ensures st.MemcpyTestBuffer? ==> r.MemcpyTestBuffer? && r.b == st.b
    ensures r.RingBuffer? <==> st.RingBuffer?
  {
    st.(a := Aligned.Store(st.a, p, block))
  }

  /** In a `ring_buffer` both offsets designate the same element of the same
      array, and both reject `d >= num_elements`. */
  lemma RingBufferOffsetsAgree(st: Storage, d: nat)
    requires st.RingBuffer?
    ensures WriteOffset(st, d) == ReadOffset(st, d)
    ensures WriteSide(st) == ReadSide(st)
    ensures WriteOffset(st, d).Err? <==> d >= Capacity(st)
  {
  }

  /** What a `ring_buffer` stores is what it reads back. */
  lemma RingBufferReadsItsWrites(st: Storage, p: nat, block: seq<int>)
    requires st.RingBuffer? && p + |block| <= Capacity(st)
    ensures ReadSide(Store(st, p, block))[p..p + |block|] == block
  {
  }

  /** In a `memcpy_test_buffer` neither `fill` nor a store through
      `write_offset` changes what `read_offset` sees. */
  lemma MemcpyTestBufferIsolatesReads(st: Storage, p: nat, block: seq<int>, value: int)
    requires st.MemcpyTestBuffer? && p + |block| <= Capacity(st)
    ensures ReadSide(Store(st, p, block)) == ReadSide(st)
    ensures Fill(st, value).Ok? ==> ReadSide(Fill(st, value).value) == ReadSide(st)
  {
  }
}
