/** Tertiary-weight compaction: `fixTertiary` of FractionalUCA.java. */
module TertiaryCompaction {
  import opened Failures

  /** `Fractional.COMMON_TER`: the common tertiary weight. */
  const COMMON_TER := 5
  /** Ordinal tertiaries must stay below this value. */
  const TERTIARY_LIMIT := 0x3E

  /** The case class the generator ORs into bits 7..6 of a tertiary:
      00 lower, 01 mixed, 10 upper. */
  datatype CaseClass = Lower | Mixed | Upper

  function CaseBits(c: CaseClass): nat {
    match c
    case Lower => 0x00
    case Mixed => 0x40
    case Upper => 0x80
  }

  datatype TertiaryError =
    | TertiaryIllegal(x: nat)
    | TertiaryTooLarge(x: nat, result: int)

  /** The raw tertiaries `fixTertiary` accepts. */
  predicate IsValidTertiary(x: nat) {
    x == 0 || (2 <= x <= 0x1F && x != 7)
  }

  /** `fixTertiary`: 0 stays 0, 1 and 7 are illegal, the gap at 7 is closed,
      then y maps to 2 * (y - 2) + COMMON_TER and the case bits are ORed in.
      The ordinal result is below 0x40, so the OR is an addition. */
  function FixTertiary(x: nat, caseClass: CaseClass): Result<nat, TertiaryError> {
    if x == 0 then Ok(0)
    else if x == 1 || x == 7 then Err(TertiaryIllegal(x))
    else
      var y := if x < 7 then x else x - 1;
      var result := 2 * (y - 2) + COMMON_TER;
      if result >= TERTIARY_LIMIT then Err(TertiaryTooLarge(x, result))
      else Ok(result + CaseBits(caseClass))
  }

  /** `w & 0x3F`: strips the case bits. */
  function StripCase(w: nat): nat {
    w % 0x40
  }

  /** The inverse of the ordinal part: recovers the raw tertiary from a weight
      whose case bits are stripped. */
  function UnfixTertiary(w: nat): int {
    if w == 0 then 0
    else
      var y := (w - COMMON_TER) / 2 + 2;
      if y < 7 then y else y + 1
  }

  /** `fixTertiary` fails with "illegal" on 1 and 7, with "too large" from 0x20
      on, and succeeds on exactly the valid tertiaries. */
  lemma FixTertiaryDomain(x: nat, c: CaseClass)
    ensures FixTertiary(x, c).Ok? <==> IsValidTertiary(x)
    ensures x == 1 || x == 7 ==> FixTertiary(x, c) == Err(TertiaryIllegal(x))
    ensures x >= 0x20 ==> FixTertiary(x, c).Err? && FixTertiary(x, c).error.TertiaryTooLarge?
    ensures x == 0 ==> FixTertiary(x, c) == Ok(0)
  {
  }

  /** Raw tertiary 2 maps to the common tertiary before the case bits. */
  lemma FixTertiaryCommon(c: CaseClass)
    ensures FixTertiary(2, c).Ok? && StripCase(FixTertiary(2, c).value) == COMMON_TER
  {
  }

  /** The case bits never collide with the ordinal: stripping them leaves the
      ordinal, and what was stripped is exactly the case bits. */
  lemma FixTertiaryCaseBitsSeparate(x: nat, c: CaseClass)
    requires IsValidTertiary(x) && x != 0
    ensures var w := FixTertiary(x, c).value;
      StripCase(w) < TERTIARY_LIMIT && w - StripCase(w) == CaseBits(c)
  {
    var w := FixTertiary(x, c).value;
    var ord := w - CaseBits(c);
    assert 0 <= ord < 0x40;
    assert w == CaseBits(c) / 0x40 * 0x40 + ord;
  }

  /** Each non-zero stripped result is odd and lies in [COMMON_TER, 0x3D]. */
  lemma FixTertiaryRange(x: nat, c: CaseClass)
    requires IsValidTertiary(x) && x != 0
    ensures var o := StripCase(FixTertiary(x, c).value);
      o % 2 == 1 && COMMON_TER <= o <= 0x3D
  {
    FixTertiaryCaseBitsSeparate(x, c);
  }

  /** With the case bits stripped, `fixTertiary` is strictly increasing over the
      valid tertiaries, whatever the case classes. */
  lemma FixTertiaryStrictlyIncreasing(x1: nat, x2: nat, c1: CaseClass, c2: CaseClass)
    requires IsValidTertiary(x1) && IsValidTertiary(x2) && x1 < x2
    ensures StripCase(FixTertiary(x1, c1).value) < StripCase(FixTertiary(x2, c2).value)
  {
    FixTertiaryCaseBitsSeparate(x2, c2);
    if x1 != 0 {
      FixTertiaryCaseBitsSeparate(x1, c1);
    }
  }

  /** The stripped weight determines the raw tertiary: `UnfixTertiary` undoes it. */
  lemma FixTertiaryRoundTrip(x: nat, c: CaseClass)
    requires IsValidTertiary(x)
    ensures UnfixTertiary(StripCase(FixTertiary(x, c).value)) == x
  {
    if x != 0 {
      FixTertiaryCaseBitsSeparate(x, c);
    }
  }
}
