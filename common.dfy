// Shared vocabulary: optional values (Java's null), the exceptions the
// library throws, and the Java integer limits the code relies on.

module Common {

  /** A Java reference that may be null. */
  datatype Option<T> = None | Some(value: T)

  /** The exception kinds thrown by the modelled code. */
  datatype Exn =
    | IllegalArgument      // IllegalArgumentException
    | IllegalState         // IllegalStateException
    | Runtime              // RuntimeException raised by a state guard
    | Unsupported          // UnsupportedOperationException
    | NoSuchElement        // NoSuchElementException
    | NullPointer          // NullPointerException
    | AssertionFailed      // AssertionError
    | OutOfRange           // LMDBOutOfRangeException
    | StackOverflow        // StackOverflowError from unbounded recursion
    | NegativeArraySize    // NegativeArraySizeException
    | IndexOutOfBounds     // ArrayIndexOutOfBoundsException
    | BufferUnderflow      // java.nio.BufferUnderflowException
    | Lmdb(rc: int)        // LMDBException carrying the native return code

  /** The result of a Java call: a value, or the exception it throws. */
  datatype Outcome<T> = Ok(value: T) | Fail(error: Exn)

  const INT_MAX: int := 0x7fff_ffff
  const INT_MIN: int := -0x8000_0000
  const LONG_MAX: int := 0x7fff_ffff_ffff_ffff
  const LONG_MIN: int := -0x8000_0000_0000_0000

  /** A Java `long`. */
  predicate IsLong(x: int) { LONG_MIN <= x <= LONG_MAX }

  /** Java's `(int) x` narrowing of a long: keep the low 32 bits, signed. */
  function NarrowToInt(x: int): (r: int)
    ensures INT_MIN <= r <= INT_MAX
    ensures INT_MIN <= x <= INT_MAX ==> r == x
    ensures (r - x) % 0x1_0000_0000 == 0
  {
    var m := x % 0x1_0000_0000;
    if m <= INT_MAX then m else m - 0x1_0000_0000
  }

  /** Java's `i++` on an `int` counter: after `n` steps it holds `n` narrowed to 32 bits. */
  lemma IntCounterStep(n: nat)
    ensures NarrowToInt(NarrowToInt(n) + 1) == NarrowToInt(n + 1)
  {
    var m := n % 0x1_0000_0000;
    assert (n + 1) % 0x1_0000_0000 == if m + 1 < 0x1_0000_0000 then m + 1 else 0;
  }
}
