/** The parts of Python's runtime that the pixel driver leans on: the
    exceptions it raises, the byte type of a `bytearray`, and how a step-1
    slice `s[a:b]` of a sequence is normalised before it is read or written
    through a `memoryview`. */
module Py {

  /** An element of a `bytearray` (and of a `memoryview` over one). */
  type byte = x: int | 0 <= x < 256

  /** The exceptions the driver raises, or lets the runtime raise. */
  datatype Error = IndexError | ValueError | NotImplementedError | ZeroDivisionError

  datatype Option<T> = None | Some(value: T)

  /** A value, or the exception raised instead of returning one. */
  datatype Result<T> = Success(value: T) | Failure(error: Error) {
    predicate IsFailure() { Failure? }
    function PropagateFailure<U>(): Result<U> requires Failure? { Failure(error) }
    function Extract(): T requires Success? { value }
  }

  /** The buffer after a call that writes to it, and the exception the call
      ended with, if any. Python keeps the writes made before an exception. */
  datatype Step = Step(bytes: seq<byte>, raised: Option<Error>)

  /** One bound of a slice of a sequence of length `len`: a negative bound
      counts from the end, then the bound is clamped to [0, len]. */
  function Bound(len: nat, x: int): (r: nat)
    ensures r <= len
    ensures 0 <= x <= len ==> r == x
    ensures -(len as int) <= x < 0 ==> r as int == x + len
  {
    if x < 0 then (if x + len < 0 then 0 else x + len)
    else if x > len then len
    else x
  }

  /** The positions [lo, hi) that `s[a:b]` covers in a sequence of length
      `len`; the slice is empty (lo == hi) when the normalised stop is not
      after the normalised start. */
  function PySlice(len: nat, a: int, b: int): (r: (nat, nat))
    ensures r.0 <= r.1 <= len
    ensures 0 <= a <= b <= len ==> r == (a, b)
    ensures -(len as int) <= a <= b < 0 ==> r.0 as int == a + len && r.1 as int == b + len
  {
    var lo, hi := Bound(len, a), Bound(len, b);
    (lo, if hi < lo then lo else hi)
  }

  // ---------------------------------------------------------------------
  // Python's `//` and `%` with a positive divisor, which agree with Dafny's

  lemma MulAtLeast(n: int, k: int)
    requires n > 0 && k >= 1
    ensures n * k >= n
  {
    assert n * k == n * (k - 1) + n;
  }

  /** The quotient and remainder are the q and r of any x == n * q + r
      with 0 <= r < n. */
  lemma DivModUnique(x: int, n: int, q: int, r: int)
    requires n > 0 && 0 <= r < n && x == n * q + r
    ensures x / n == q && x % n == r
  {
    var k := x / n - q;
    assert n * k == n * (x / n) - n * q;
    assert n * k == r - x % n;
    if k > 0 {
      MulAtLeast(n, k);
    } else if k < 0 {
      MulAtLeast(n, -k);
    }
  }
}
