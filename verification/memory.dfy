/** Shared vocabulary of the block ring model: the two exception kinds the
    C++ code throws, a failure-compatible result type, raw pointers reduced to
    "null or a buffer", and `memcpy` on element sequences. */
module Memory {

  /** `std::runtime_error` (bad pointer or block size) and `std::out_of_range`
      (offset past the end of an aligned array). */
  datatype Error = RuntimeError | OutOfRange

  /** A call either returns normally with a value or throws one of the errors. */
  datatype Result<+T> = Ok(value: T) | Err(error: Error) {

    predicate IsFailure() {
      Err?
    }

    function PropagateFailure<U>(): Result<U>
      requires Err?
    {
      Err(error)
    }

    function Extract(): T
      requires Ok?
    {
      value
    }
  }

  /** A source or destination pointer handed to `write`/`read`: either
      `nullptr` or a caller-owned buffer of elements. */
  datatype Ptr = Null | NonNull(buf: seq<int>)

  /** `std::memcpy(dst + at, src, |src| * sizeof(T))`: the elements of `src`
      replace `dst[at .. at + |src|)` and nothing else changes. */
  function CopyInto(dst: seq<int>, at: nat, src: seq<int>): (r: seq<int>)
    requires at + |src| <= |dst|
    ensures |r| == |dst|
    ensures r[at..at + |src|] == src
    ensures forall i :: 0 <= i < |dst| && !(at <= i < at + |src|) ==> r[i] == dst[i]
  {
    dst[..at] + src + dst[at + |src|..]
  }

  /** `x[xAt .. xAt + n)` and `y[yAt .. yAt + n)` exist and are equal. */
  predicate SameBlock(x: seq<int>, xAt: nat, y: seq<int>, yAt: nat, n: nat) {
    xAt + n <= |x| && yAt + n <= |y| && x[xAt..xAt + n] == y[yAt..yAt + n]
  }

  /** `x` and `y` have the same length and agree outside `[at, at + n)`. */
  predicate SameOutside(x: seq<int>, y: seq<int>, at: nat, n: nat) {
    |x| == |y| && forall i :: 0 <= i < |x| && !(at <= i < at + n) ==> x[i] == y[i]
  }
}
