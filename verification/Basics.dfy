/** Values shared by every component: optional results, errors, and the two number types of a metric. */
module Basics {

  datatype Option<+T> = None | Some(value: T)

  datatype Result<+T, +E> = Ok(value: T) | Err(error: E)

  /** The named errors of the repository, plus one for every failure of SQL, files or codecs. */
  datatype Error = NotFound | UnknownType | InvalidId | InvalidValue | SignFailed | BadRoute | External

  /** How a call on the manager ends. Panicked is a nil dereference: net/http catches it per request, gRPC does not. */
  datatype Outcome = Done | Failed(error: Error) | Panicked

  const TWO_63: int := 0x8000_0000_0000_0000
  const TWO_64: int := 0x1_0000_0000_0000_0000

  type Int64 = n: int | -0x8000_0000_0000_0000 <= n < 0x8000_0000_0000_0000

  /** Two's-complement reduction, the meaning of `+` on int64. */
  function Wrap64(n: int): (r: Int64)
    ensures (n - r) % TWO_64 == 0
    ensures -TWO_63 <= n < TWO_63 ==> r == n
  {
    var shifted := (n + TWO_63) % TWO_64;
    assert n + TWO_63 == (n + TWO_63) / TWO_64 * TWO_64 + shifted;
    shifted - TWO_63
  }

  /** Wrapping after every addition is the same as wrapping the unbounded sum once. */
  lemma WrapAbsorbs(a: int, b: int)
    ensures Wrap64(Wrap64(a) + b) == Wrap64(a + b)
  {
  }

  /**
    * A float64 is its bit pattern, a NaN up to its payload bits; arithmetic on gauges never happens, only copying
    * and printing.
    */
  type Float64 = n: int | 0 <= n < 0x1_0000_0000_0000_0000

  /** Neither an infinity nor a NaN: the eleven exponent bits are not all set. */
  predicate IsFinite(f: Float64) {
    f / 0x10_0000_0000_0000 % 0x800 != 0x7FF
  }

  /** Without its sign bit a float is finite exactly below the pattern of infinity. */
  lemma FiniteMeans(f: Float64)
    ensures IsFinite(f) <==> (if f >= TWO_63 then f - TWO_63 else f) < 0x7FF0_0000_0000_0000
  {
    var exponent := f / 0x10_0000_0000_0000;
    assert exponent < 0x1000 && (exponent >= 0x800 <==> f >= TWO_63);
    assert exponent % 0x800 == if exponent >= 0x800 then exponent - 0x800 else exponent;
  }
}
