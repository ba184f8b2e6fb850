/** The self-test `checkFixes` of FractionalUCA.java: it sweeps the secondary
    ranks 0..0x16E and the raw tertiaries 0..0x1E and throws on the first
    weight that is out of range. Its order tests compare each weight with a
    `lastVal` that is never updated, so they cannot fire. */
module FixesCheck {
  import opened Failures
  import opened JavaBits
  import SecondaryCompaction
  import opened TertiaryCompaction

  datatype FixesError =
    | Unordered(val: int, lastVal: int)
    | TertiaryOutOfRange(i: nat, val: int)

  /** The gap ranks the self-test passes to `fixSecondary2`: beyond every rank
      it sweeps, so no gap is inserted. */
  const NO_GAP := 999
  /** The last raw tertiary the self-test sweeps. */
  const CHECKED_MAX_TERTIARY := 0x1E

  /** The tertiary weight with its upper case bit masked off (`& 0x7F`). */
  function MaskedTertiary(x: nat, c: CaseClass): int
    requires IsValidTertiary(x)
  {
    FixTertiaryDomain(x, c);
    FixTertiary(x, c).value % 0x80
  }

  /** The raw tertiaries the self-test feeds to `fixTertiary` and whose case
      class reaches the result (0 returns before the case bits are read). */
  predicate IsCasedTertiary(x: nat) {
    2 <= x <= CHECKED_MAX_TERTIARY && x != 7
  }

  /** How the case class shows through the `& 0x7F` mask: upper and lower
      leave the ordinal weight, mixed lifts it by 0x40. */
  lemma MaskedTertiaryCases(x: nat, c: CaseClass)
    requires IsValidTertiary(x)
    ensures x == 0 ==> MaskedTertiary(x, c) == 0
    ensures x != 0 ==> var o := MaskedTertiary(x, Lower);
      o % 2 == 1 && COMMON_TER <= o <= 0x3D
    ensures c != Mixed ==> MaskedTertiary(x, c) == MaskedTertiary(x, Lower)
    ensures x != 0 && c == Mixed ==> MaskedTertiary(x, c) == MaskedTertiary(x, Lower) + 0x40
  {
    FixTertiaryDomain(x, c);
    FixTertiaryDomain(x, Lower);
    if x != 0 {
      FixTertiaryCaseBitsSeparate(x, c);
      FixTertiaryCaseBitsSeparate(x, Lower);
      FixTertiaryRange(x, Lower);
    }
  }

  /** The order test of a sweep: a value passes when it lies above `lastVal`. */
  function OrderTest(val: int, lastVal: int): (r: Outcome<FixesError>)
    ensures r.Pass? <==> lastVal < val
    ensures r.Fail? ==> r.error == Unordered(val, lastVal)
  {
    if val <= lastVal then Fail(Unordered(val, lastVal)) else Pass
  }

  /** As written, `lastVal` is set to -1 before each sweep and never reassigned,
      so every value is tested against -1 only: a sweep that steps down from 5
      to 3 passes both tests, where a `lastVal` that follows the sweep rejects
      the 3. */
  lemma OrderTestMissesDescent()
    ensures OrderTest(5, -1).Pass? && OrderTest(3, -1).Pass?
    ensures OrderTest(3, 5).Fail?
  {
  }

  /** The secondary half of the sweep as written: ranks 0..0x16E with no gaps,
      each value tested against the unchanging `lastVal` of -1 and then for its
      byte ranges. It always passes. */
  method CheckSecondaryFixes() returns (r: Outcome<FixesError>)
    ensures r == Pass
  {
    var lastVal := -1;
    var i := 0;
    while i <= SecondaryCompaction.CHECKED_MAX_RANK
      invariant 0 <= i <= SecondaryCompaction.CHECKED_MAX_RANK + 1
    {
      var val := SecondaryCompaction.FixSecondary2(i, NO_GAP, NO_GAP);
      SecondaryCompaction.FixSecondary2Shape(i, NO_GAP, NO_GAP);
      r := OrderTest(val, lastVal);
      if r.Fail? {
        return;
      }
      SecondaryCompaction.FixSecondary2ByteRules(i, NO_GAP, NO_GAP);
      assert SecondaryCompaction.SecondaryInRange(val);
      i := i + 1;
    }
    r := Pass;
  }

  /** The secondary sweep with `lastVal` following the sweep, as the order test
      evidently intends: it still always passes, because `fixSecondary2` is
      strictly increasing. */
  method CheckSecondaryFixesIntended() returns (r: Outcome<FixesError>)
    ensures r == Pass
  {
    var lastVal := -1;
    var i := 0;
    while i <= SecondaryCompaction.CHECKED_MAX_RANK
      invariant 0 <= i <= SecondaryCompaction.CHECKED_MAX_RANK + 1
      invariant lastVal == if i == 0 then -1 else SecondaryCompaction.FixSecondary2(i - 1, NO_GAP, NO_GAP)
    {
      var val := SecondaryCompaction.FixSecondary2(i, NO_GAP, NO_GAP);
      if i > 0 {
        SecondaryCompaction.FixSecondary2StrictlyIncreasing(i - 1, i, NO_GAP, NO_GAP);
      }
      SecondaryCompaction.FixSecondary2Shape(i, NO_GAP, NO_GAP);
      r := OrderTest(val, lastVal);
      if r.Fail? {
        return;
      }
      SecondaryCompaction.FixSecondary2ByteRules(i, NO_GAP, NO_GAP);
      assert SecondaryCompaction.SecondaryInRange(val);
      lastVal := val;
      i := i + 1;
    }
    r := Pass;
  }

  /** The range test of the tertiary sweep: a non-zero value must be odd and
      lie from the common tertiary to 0x3D. */
  function TertiaryRangeTest(i: nat, val: int): (r: Outcome<FixesError>)
    requires IsJavaInt(val)
    ensures r.Pass? <==> val == 0 || (val % 2 == 1 && COMMON_TER <= val <= 0x3D)
    ensures r.Fail? ==> r.error == TertiaryOutOfRange(i, val)
  {
    if val != 0 && (IsEven(val) || val < COMMON_TER || val > 0x3D) then Fail(TertiaryOutOfRange(i, val))
    else Pass
  }

  /** A masked lower-case tertiary lies below that of every larger valid raw
      tertiary. */
  lemma MaskedTertiaryBelowLater(i: nat)
    requires IsValidTertiary(i)
    ensures forall x: nat :: IsValidTertiary(x) && i < x ==> MaskedTertiary(i, Lower) < MaskedTertiary(x, Lower)
  {
    forall x: nat | IsValidTertiary(x) && i < x
      ensures MaskedTertiary(i, Lower) < MaskedTertiary(x, Lower)
    {
      FixTertiaryStrictlyIncreasing(i, x, Lower, Lower);
      MaskedTertiaryCases(x, Lower);
      MaskedTertiaryCases(i, Lower);
    }
  }

  /** The tertiary half of the sweep as written: raw tertiaries 0..0x1E except
      1 and 7, masked with 0x7F, each tested against the unchanging `lastVal`
      of -1 and then for its range. The case class of a raw tertiary is a
      parameter (it comes from a table outside this model). The sweep passes
      exactly when no swept tertiary is classed mixed; otherwise it fails at
      the first one, whose mixed bit lifts the weight above 0x3D. */
  method CheckTertiaryFixes(caseFromTertiary: nat -> CaseClass) returns (r: Outcome<FixesError>)
    ensures r.Pass? <==> forall x: nat :: IsCasedTertiary(x) ==> caseFromTertiary(x) != Mixed
    ensures r.Fail? ==>
      r.error.TertiaryOutOfRange? && IsCasedTertiary(r.error.i)
      && caseFromTertiary(r.error.i) == Mixed
      && (forall x: nat :: IsCasedTertiary(x) && x < r.error.i ==> caseFromTertiary(x) != Mixed)
  {
    var lastVal := -1;
    var i := 0;
    while i <= CHECKED_MAX_TERTIARY
      invariant 0 <= i <= CHECKED_MAX_TERTIARY + 1
      invariant forall x: nat :: IsCasedTertiary(x) && x < i ==> caseFromTertiary(x) != Mixed
    {
      if i == 1 || i == 7 {
        i := i + 1;
        continue;
      }
      var c := caseFromTertiary(i);
      MaskedTertiaryCases(i, c);
      var val := MaskedTertiary(i, c);
      r := OrderTest(val, lastVal);
      if r.Fail? {
        return;
      }
      r := TertiaryRangeTest(i, val);
      if r.Fail? {
        return;
      }
      i := i + 1;
    }
    r := Pass;
  }

  /** The tertiary sweep with `lastVal` following the sweep, as the order test
      evidently intends: the order test still never fails, because the masked
      weights of the tertiaries that pass the range test are strictly
      increasing, so the outcome is the same as the sweep's as written. */
  method CheckTertiaryFixesIntended(caseFromTertiary: nat -> CaseClass) returns (r: Outcome<FixesError>)
    ensures r.Pass? <==> forall x: nat :: IsCasedTertiary(x) ==> caseFromTertiary(x) != Mixed
    ensures r.Fail? ==>
      r.error.TertiaryOutOfRange? && IsCasedTertiary(r.error.i)
      && caseFromTertiary(r.error.i) == Mixed
      && (forall x: nat :: IsCasedTertiary(x) && x < r.error.i ==> caseFromTertiary(x) != Mixed)
  {
    var lastVal := -1;
    var i := 0;
    while i <= CHECKED_MAX_TERTIARY
      invariant 0 <= i <= CHECKED_MAX_TERTIARY + 1
      invariant forall x: nat :: IsCasedTertiary(x) && x < i ==> caseFromTertiary(x) != Mixed
      invariant forall x: nat :: IsValidTertiary(x) && i <= x ==> lastVal < MaskedTertiary(x, Lower)
    {
      if i == 1 || i == 7 {
        i := i + 1;
        continue;
      }
      var c := caseFromTertiary(i);
      MaskedTertiaryCases(i, c);
      var val := MaskedTertiary(i, c);
      r := OrderTest(val, lastVal);
      if r.Fail? {
        return;
      }
      r := TertiaryRangeTest(i, val);
      if r.Fail? {
        return;
      }
      MaskedTertiaryBelowLater(i);
      lastVal := val;
      i := i + 1;
    }
    r := Pass;
  }

  /** `checkFixes`: the secondary sweep, then, unless it threw, the tertiary
      sweep. */
  method CheckFixes(caseFromTertiary: nat -> CaseClass) returns (r: Outcome<FixesError>)
    ensures r.Pass? <==> forall x: nat :: IsCasedTertiary(x) ==> caseFromTertiary(x) != Mixed
    ensures r.Fail? ==> r.error.TertiaryOutOfRange? && caseFromTertiary(r.error.i) == Mixed
  {
    r := CheckSecondaryFixes();
    if r.Pass? {
      r := CheckTertiaryFixes(caseFromTertiary);
    }
  }
}
