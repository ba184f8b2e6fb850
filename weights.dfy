/** Weight helpers of FractionalUCA.java: left-justification (`MinMaxFCE.fixWeight`
    and `FractionalStatistics.leftJustify`), `sameTopByte`, the live part of
    `checkGap` with the sweep that calls it, and the variable-top value. */
module WeightUtil {
  import opened Failures
  import opened JavaBits

  /** The least left-justified non-zero weight: lead byte in bits 31..24. */
  const LEAD_BYTE_UNIT := 0x100_0000

  /** A 32-bit weight shifted left by whole bytes until bits 31..24 are
      non-zero; zero stays zero. */
  function LeftJustified(u: nat): (r: nat)
    requires u < TWO_32
    ensures r < TWO_32
    ensures u == 0 <==> r == 0
    ensures u != 0 ==> LEAD_BYTE_UNIT <= r
    decreases TWO_32 - u
  {
    if u == 0 || LEAD_BYTE_UNIT <= u then u else LeftJustified(u * 256)
  }

  /** The number of zero bytes above the highest non-zero byte of a non-zero
      32-bit weight. */
  function LeadingZeroBytes(u: nat): nat
    requires 0 < u < TWO_32
  {
    if u >= 0x100_0000 then 0
    else if u >= 0x1_0000 then 1
    else if u >= 0x100 then 2
    else 3
  }

  /** Left-justification shifts left by exactly the leading zero bytes, and
      shifting one byte less would leave bits 31..24 empty. */
  lemma LeftJustifiedIsByteShift(u: nat)
    requires 0 < u < TWO_32
    ensures LeftJustified(u) == u * Pow256(LeadingZeroBytes(u))
    ensures LeadingZeroBytes(u) > 0 ==> u * Pow256(LeadingZeroBytes(u) - 1) < LEAD_BYTE_UNIT
  {
    assert Pow256(0) == 1;
    assert Pow256(1) == 0x100;
    assert Pow256(2) == 0x1_0000;
    assert Pow256(3) == 0x100_0000;
    if u < 0x100_0000 {
      assert LeftJustified(u) == LeftJustified(u * 0x100);
      if u * 0x100 < 0x100_0000 {
        assert LeftJustified(u * 0x100) == LeftJustified(u * 0x1_0000);
        if u * 0x1_0000 < 0x100_0000 {
          assert LeftJustified(u * 0x1_0000) == LeftJustified(u * 0x100_0000);
        }
      }
    }
  }

  /** Left-justifying twice is the same as once. */
  lemma LeftJustifiedIdempotent(u: nat)
    requires u < TWO_32
    ensures LeftJustified(LeftJustified(u)) == LeftJustified(u)
  {
  }

  /** `MinMaxFCE.fixWeight`: masks the Java int to its unsigned 32-bit value,
      then shifts left by a byte while bits 31..24 are zero. */
  method FixWeight(weight: int) returns (result: nat)
    requires IsJavaInt(weight)
    ensures result == LeftJustified(ToUnsigned32(weight))
  {
    result := ToUnsigned32(weight);
    if result == 0 {
      return;
    }
    while result < LEAD_BYTE_UNIT
      invariant 0 < result < TWO_32
      invariant LeftJustified(result) == LeftJustified(ToUnsigned32(weight))
      decreases TWO_32 - result
    {
      result := result * 256;
    }
  }

  /** `FractionalStatistics.leftJustify`: the same shift on a Java int, where a
      lead byte of 0x80 or more makes the result negative. */
  method LeftJustify(key0: int) returns (r: int)
    requires IsJavaInt(key0)
    ensures IsJavaInt(r)
    ensures ToUnsigned32(r) == LeftJustified(ToUnsigned32(key0))
  {
    r := key0;
    if r != 0 {
      while ToUnsigned32(r) < LEAD_BYTE_UNIT
        invariant IsJavaInt(r) && r != 0
        invariant LeftJustified(ToUnsigned32(r)) == LeftJustified(ToUnsigned32(key0))
        decreases TWO_32 - ToUnsigned32(r)
      {
        r := ToSigned32((ToUnsigned32(r) * 256) % TWO_32);
      }
    }
  }

  /** Byte `k` (0 = lowest) of a Java int, as the mask `x & (0xFF << 8k)`
      shifted down. */
  function ByteAt(x: int, k: nat): (b: nat)
    requires IsJavaInt(x)
    ensures b < 256
  {
    ToUnsigned32(x) / Pow256(k) % 256
  }

  /** The leading byte of a primary of at most three bytes, with its position:
      byte 2 when it is non-zero, otherwise byte 1. */
  function TopBytePrefix(x: int): (int, nat)
    requires IsJavaInt(x)
  {
    if ByteAt(x, 2) != 0 then (2, ByteAt(x, 2)) else (1, ByteAt(x, 1))
  }

  /** `sameTopByte`: compares `x & 0xFF0000` with `y & 0xFF0000`, and when both
      are zero compares `x & 0xFF00` with `y & 0xFF00`. Two primaries have the
      same top byte exactly when their leading bytes sit at the same position
      and are equal, so this is an equivalence relation. */
  function SameTopByte(x: int, y: int): (r: bool)
    requires IsJavaInt(x) && IsJavaInt(y)
    ensures r <==> TopBytePrefix(x) == TopBytePrefix(y)
  {
    var x1 := ByteAt(x, 2) * 0x1_0000;
    var y1 := ByteAt(y, 2) * 0x1_0000;
    if x1 != 0 || y1 != 0 then x1 == y1
    else ByteAt(x, 1) * 0x100 == ByteAt(y, 1) * 0x100
  }

  datatype GapError = WeightsOutOfOrder(weight1: int, weight2: int)

  /** The live part of `checkGap`: a signed comparison of two left-justified
      Java ints that fails unless the first is smaller. The byte-gap
      sufficiency test after it is switched off in the source. */
  function CheckGap(weight1: int, weight2: int): (r: Outcome<GapError>)
    ensures r.Pass? <==> weight1 < weight2
    ensures r.Fail? ==> r.error == WeightsOutOfOrder(weight1, weight2)
  {
    if weight1 >= weight2 then Fail(WeightsOutOfOrder(weight1, weight2)) else Pass
  }

  /** The sweep in `FractionalStatistics.show` that calls `checkGap` on each
      pair of consecutive keys, but only once the previous key is non-negative
      (a negative previous key, lead byte 0x80 or more, skips the test). It
      passes exactly when every tested pair is in order, and otherwise fails
      on the first pair that is not. */
  method CheckGapSweep(weights: seq<int>) returns (r: Outcome<GapError>)
    ensures r.Pass? <==>
      forall i :: 0 < i < |weights| && weights[i - 1] >= 0 ==> weights[i - 1] < weights[i]
    ensures r.Fail? ==> exists i :: (0 < i < |weights| && weights[i - 1] >= 0
      && r.error == WeightsOutOfOrder(weights[i - 1], weights[i]))
  {
    var lastWeight := -1;
    var j := 0;
    while j < |weights|
      invariant 0 <= j <= |weights|
      invariant lastWeight == if j == 0 then -1 else weights[j - 1]
      invariant forall i :: 0 < i < j && weights[i - 1] >= 0 ==> weights[i - 1] < weights[i]
    {
      var weight := weights[j];
      if lastWeight >= 0 {
        r := CheckGap(lastWeight, weight);
        if r.Fail? {
          return;
        }
      }
      lastWeight := weight;
      j := j + 1;
    }
    r := Pass;
  }

  /** The keys come from a sorted map, so they are strictly increasing as
      signed values and the sweep never fails. */
  lemma SortedKeysPassSweep(weights: seq<int>)
    requires forall i, j :: 0 <= i < j < |weights| ==> weights[i] < weights[j]
    ensures forall i :: 0 < i < |weights| && weights[i - 1] >= 0 ==> weights[i - 1] < weights[i]
  {
  }

  /** The variable top: the left-justified first symbol primary with all but its
      lead byte cleared, minus one. */
  function VariableTop(firstSymbolPrimary: int): int
    requires IsJavaInt(firstSymbolPrimary)
  {
    LeftJustified(ToUnsigned32(firstSymbolPrimary)) / LEAD_BYTE_UNIT * LEAD_BYTE_UNIT - 1
  }

  /** A left-justified weight is at or below the variable top exactly when its
      lead byte is below the lead byte of the first symbol primary. */
  lemma VariableTopSeparatesLeadBytes(firstSymbolPrimary: int, w: nat)
    requires IsJavaInt(firstSymbolPrimary) && w < TWO_32
    ensures w <= VariableTop(firstSymbolPrimary)
      <==> w / LEAD_BYTE_UNIT < LeftJustified(ToUnsigned32(firstSymbolPrimary)) / LEAD_BYTE_UNIT
  {
    var l := LeftJustified(ToUnsigned32(firstSymbolPrimary)) / LEAD_BYTE_UNIT;
    var q := w / LEAD_BYTE_UNIT;
    assert w == q * LEAD_BYTE_UNIT + w % LEAD_BYTE_UNIT;
    if q < l {
      assert q * LEAD_BYTE_UNIT <= (l - 1) * LEAD_BYTE_UNIT;
    } else {
      assert q * LEAD_BYTE_UNIT >= l * LEAD_BYTE_UNIT;
    }
  }
}
