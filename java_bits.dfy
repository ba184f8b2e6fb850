/** Java's 32-bit `int` seen as a bit pattern. */
module JavaBits {

  const TWO_32: int := 0x1_0000_0000

  /** A value a Java `int` can hold. */
  predicate IsJavaInt(x: int) {
    -0x8000_0000 <= x < 0x8000_0000
  }

  /** A Java `int` value. */
  newtype Int32 = x: int | -0x8000_0000 <= x < 0x8000_0000

  /** `x & 0xFFFFFFFFL`: the unsigned reading of the 32 bits of `x`. */
  function ToUnsigned32(x: int): (u: nat)
    requires IsJavaInt(x)
    ensures u < TWO_32
    ensures (u - x) % TWO_32 == 0
    ensures 0 <= x ==> u == x
  {
    if x < 0 then x + TWO_32 else x
  }

  /** The Java `int` whose 32 bits read as the unsigned value `u`. */
  function ToSigned32(u: nat): (x: int)
    requires u < TWO_32
    ensures IsJavaInt(x)
    ensures ToUnsigned32(x) == u
  {
    if u < 0x8000_0000 then u else u - TWO_32
  }

  /** `isEven`: `(x & 1) == 0`, the lowest bit of the two's-complement
      pattern is clear. Dafny's `%` is Euclidean, so `x % 2` reads that bit
      for negative `x` too. */
  function IsEven(x: int): (r: bool)
    requires IsJavaInt(x)
    ensures r <==> ToUnsigned32(x) % 2 == 0
  {
    x % 2 == 0
  }

  /** 256 to the power `n`: the weight of byte `n` of a word. */
  function Pow256(n: nat): (r: nat)
    ensures r >= 1
  {
    if n == 0 then 1 else 256 * Pow256(n - 1)
  }
}
