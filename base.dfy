/** Java value types the rest of the model is written in: 32-bit `int`,
    bytes, a nullable reference (`Option`) and a thrown-or-returned result. */
module Base {

  const MinInt: int := -0x8000_0000
  const MaxInt: int := 0x7fff_ffff

  /** A Java `int`. */
  type int32 = x: int | MinInt <= x <= MaxInt

  /** A Java `byte`, read as its unsigned value. */
  newtype byte = b: int | 0 <= b < 256

  /** A Java reference that may be `null`. */
  datatype Option<+T> = None | Some(value: T)

  /** A Java call that either returns a value or throws. */
  datatype Result<+T, +E> = Ok(value: T) | Err(error: E)

  /** Java's `a + b` on two `int`s: the mathematical sum, wrapped into 32 bits. */
  function Add32(a: int32, b: int32): (r: int32)
    ensures MinInt <= a + b <= MaxInt ==> r == a + b
    ensures (a + b - r) % 0x1_0000_0000 == 0
  {
    var s := a + b;
    if s > MaxInt then s - 0x1_0000_0000
    else if s < MinInt then s + 0x1_0000_0000
    else s
  }
}
