/**
  The few pieces of Java semantics the models below depend on: exceptions as
  values, nullable references, signed bytes and Java's truncating integer
  division. Integer overflow of Java's 32- and 64-bit types is not modelled.
 */
module JavaRuntime {

  /** A Java `byte`; only its bit pattern matters to the code modelled here. */
  type Byte = bv8

  /** The exceptions the modelled code can raise or let escape. */
  datatype Exception =
    | IllegalArgument        // IllegalArgumentException, also Buffer.position/limit out of range
    | IndexOutOfBounds       // ArrayIndexOutOfBoundsException / IndexOutOfBoundsException
    | BufferUnderflow        // BufferUnderflowException from a relative bulk get
    | BufferOverflow         // BufferOverflowException from a relative bulk put
    | NegativeArraySize      // NegativeArraySizeException from `new byte[n]`, n < 0
    | NullPointer            // NullPointerException
    | Runtime                // RuntimeException wrapping a sink failure

  /** The outcome of a Java call: a value, or an exception that escapes it. */
  datatype Result<+T> = Ok(value: T) | Throws(ex: Exception)

  /** A Java reference that may be `null`. */
  datatype Nullable<+T> = Null | NonNull(get: T)

  /** Java's `/` on integers, which truncates toward zero (Dafny's rounds down). */
  function Quot(a: int, b: int): int
    requires b > 0
  {
    if a >= 0 then a / b else -((-a) / b)
  }

  function Min(a: int, b: int): int {
    if a <= b then a else b
  }

  /** A freshly allocated Java byte array or direct buffer: all zeros. */
  function Zeros(n: nat): (z: seq<Byte>)
    ensures |z| == n
    ensures forall k | 0 <= k < n :: z[k] == 0
  {
    seq(n, _ => 0)
  }
}
