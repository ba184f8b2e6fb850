/** The boundary trackers of FractionalUCA.java: `MinMaxFCE`, which keeps the
    least or greatest fractional collation element it has been given, the rule
    that decides which trackers each collation element feeds, the fallbacks for
    classes that stay unset, and the two overlap tests that are only logged. */
module BoundaryTracking {
  import opened Failures
  import opened JavaBits
  import opened WeightUtil
  import SecondaryCompaction
  import TertiaryCompaction

  /** `Long.MAX_VALUE` and `Long.MIN_VALUE`: the sentinels of an unset tracker. */
  const UNDEFINED_MAX: int := 0x7FFF_FFFF_FFFF_FFFF
  const UNDEFINED_MIN: int := -0x8000_0000_0000_0000

  /** The arguments of one `setValue` call: three Java int weights and the
      string they came from. */
  datatype Candidate = Candidate(np: Int32, ns: Int32, nt: Int32, source: string)

  /** A left-justified (primary, secondary, tertiary) key, or a sentinel key. */
  datatype Key3 = Key3(p: int, s: int, t: int)

  /** Strict three-level lexicographic order on keys. */
  predicate LexLess(a: Key3, b: Key3) {
    a.p < b.p || (a.p == b.p && (a.s < b.s || (a.s == b.s && a.t < b.t)))
  }

  /** The key `setValue` compares: each weight left-justified by `fixWeight`. */
  function JustifiedKey(c: Candidate): Key3 {
    Key3(LeftJustified(ToUnsigned32(c.np as int)),
         LeftJustified(ToUnsigned32(c.ns as int)),
         LeftJustified(ToUnsigned32(c.nt as int)))
  }

  /** The key a new tracker starts from: all `Long.MIN_VALUE` for a max
      tracker ("make small"), all `Long.MAX_VALUE` for a min tracker. */
  function Sentinel(max: bool): Key3 {
    if max then Key3(UNDEFINED_MIN, UNDEFINED_MIN, UNDEFINED_MIN)
    else Key3(UNDEFINED_MAX, UNDEFINED_MAX, UNDEFINED_MAX)
  }

  /** Whether `candidate` replaces `current`: strictly greater for a max
      tracker, strictly less for a min tracker. */
  predicate Improves(max: bool, candidate: Key3, current: Key3) {
    if max then LexLess(current, candidate) else LexLess(candidate, current)
  }

  /** What a tracker holds after being given `seen` in order: its key and its
      source (`None` while the Java field is still null). */
  function Tracked(max: bool, seen: seq<Candidate>): (Key3, Option<string>)
    decreases |seen|
  {
    if seen == [] then (Sentinel(max), None)
    else
      var previous := Tracked(max, seen[..|seen| - 1]);
      var c := seen[|seen| - 1];
      if Improves(max, JustifiedKey(c), previous.0) then (JustifiedKey(c), Some(c.source))
      else previous
  }

  /** `isUnset`: the primary is still a sentinel. */
  predicate IsUnsetKey(k: Key3) {
    k.p == UNDEFINED_MIN || k.p == UNDEFINED_MAX
  }

  /** Left-justified keys lie strictly between the two sentinels. */
  lemma JustifiedKeyBetweenSentinels(c: Candidate)
    ensures 0 <= JustifiedKey(c).p < TWO_32
    ensures 0 <= JustifiedKey(c).s < TWO_32
    ensures 0 <= JustifiedKey(c).t < TWO_32
  {
  }

  /** A tracker given candidates holds the key of one of them, and no candidate
      would improve on it: the greatest key for a max tracker, the least for a
      min tracker. Among candidates with that key it holds the source of the
      first, because only a strict improvement replaces the key. An empty
      tracker holds the sentinel and no source. */
  lemma {:induction false} TrackedIsFirstExtreme(max: bool, seen: seq<Candidate>)
    ensures seen == [] ==> Tracked(max, seen) == (Sentinel(max), None)
    ensures forall i :: 0 <= i < |seen| ==> !Improves(max, JustifiedKey(seen[i]), Tracked(max, seen).0)
    ensures seen != [] ==> exists i :: (0 <= i < |seen|
      && Tracked(max, seen) == (JustifiedKey(seen[i]), Some(seen[i].source))
      && (forall j :: 0 <= j < i ==> JustifiedKey(seen[j]) != JustifiedKey(seen[i])))
    decreases |seen|
  {
    if seen != [] {
      var prefix := seen[..|seen| - 1];
      var c := seen[|seen| - 1];
      TrackedIsFirstExtreme(max, prefix);
      var previous := Tracked(max, prefix);
      JustifiedKeyBetweenSentinels(c);
      if Improves(max, JustifiedKey(c), previous.0) {
        assert forall j :: 0 <= j < |seen| - 1 ==> seen[j] == prefix[j];
        assert forall j :: 0 <= j < |seen| - 1 ==> JustifiedKey(seen[j]) != JustifiedKey(c);
      } else if prefix == [] {
        assert Improves(max, JustifiedKey(c), Sentinel(max));
      } else {
        var i :| 0 <= i < |prefix| && previous == (JustifiedKey(prefix[i]), Some(prefix[i].source))
          && (forall j :: 0 <= j < i ==> JustifiedKey(prefix[j]) != JustifiedKey(prefix[i]));
        assert seen[i] == prefix[i];
        assert forall j :: 0 <= j < i ==> seen[j] == prefix[j];
      }
    }
  }

  /** A tracker is unset exactly while it has been given nothing. */
  lemma TrackedUnsetIffEmpty(max: bool, seen: seq<Candidate>)
    ensures IsUnsetKey(Tracked(max, seen).0) <==> seen == []
  {
    TrackedIsFirstExtreme(max, seen);
    if seen != [] {
      var i :| 0 <= i < |seen| && Tracked(max, seen).0 == JustifiedKey(seen[i]);
      JustifiedKeyBetweenSentinels(seen[i]);
    }
  }

  /** `MinMaxFCE`: a min or max tracker over fractional collation elements. */
  class MinMaxFce {
    const key: array<int>
    const max: bool
    const title: string
    var source: Option<string>
    /** The candidates given to `SetValue` so far, in order. */
    ghost var seen: seq<Candidate>

    ghost predicate Valid()
      reads this, key
    {
      key.Length == 3
      && Key3(key[0], key[1], key[2]) == Tracked(max, seen).0
      && source == Tracked(max, seen).1
    }

    /** A new tracker holds the sentinel key and no source. */
    constructor (max: bool, title: string)
      ensures Valid() && fresh(key)
      ensures this.max == max && this.title == title && seen == []
    {
      this.max := max;
      this.title := title;
      var sentinel := if max then UNDEFINED_MIN else UNDEFINED_MAX;
      key := new int[3](_ => sentinel);
      source := None;
      seen := [];
    }

    /** `isUnset`: true exactly while nothing has been set. */
    function IsUnset(): (r: bool)
      reads this, key
      requires Valid()
      ensures r <==> seen == []
    {
      TrackedUnsetIffEmpty(max, seen);
      key[0] == UNDEFINED_MIN || key[0] == UNDEFINED_MAX
    }

    /** `getValue`: the stored key at a level (0 primary, 1 secondary, 2 tertiary). */
    function GetValue(zeroBasedLevel: int): (r: int)
      reads this, key
      requires Valid() && 0 <= zeroBasedLevel < 3
      ensures zeroBasedLevel == 0 ==> r == Tracked(max, seen).0.p
      ensures zeroBasedLevel == 1 ==> r == Tracked(max, seen).0.s
      ensures zeroBasedLevel == 2 ==> r == Tracked(max, seen).0.t
    {
      key[zeroBasedLevel]
    }

    /** `setValue`: left-justifies the three weights and replaces the key and
        the source only when the new key is a strict improvement. */
    method SetValue(npInt: Int32, nsInt: Int32, ntInt: Int32, source: string)
      requires Valid()
      modifies this, key
      ensures Valid() && !IsUnset()
      ensures seen == old(seen) + [Candidate(npInt, nsInt, ntInt, source)]
    {
      var np := FixWeight(npInt as int);
      var ns := FixWeight(nsInt as int);
      var nt := FixWeight(ntInt as int);
      ghost var c := Candidate(npInt, nsInt, ntInt, source);
      assert JustifiedKey(c) == Key3(np, ns, nt);
      seen := seen + [c];
      assert seen[..|seen| - 1] == old(seen);
      if max {
        if np < key[0] {
          return;
        }
        if np == key[0] {
          if ns < key[1] {
            return;
          }
          if ns == key[1] {
            if nt <= key[2] {
              return;
            }
          }
        }
      } else {
        if np > key[0] {
          return;
        }
        if np == key[0] {
          if ns > key[1] {
            return;
          }
          if ns == key[1] {
            if nt >= key[2] {
              return;
            }
          }
        }
      }
      key[0] := np;
      key[1] := ns;
      key[2] := nt;
      this.source := Some(source);
    }
  }

  /** The trackers of the generator, each kept as a first (min) and a last
      (max) tracker. */
  datatype BoundaryClass =
    | TertiaryIgnorable
    | SecondaryIgnorable
    | PrimaryIgnorable
    | Variable
    | NonIgnorable
    | Trailing
    | Implicit
    | SecondaryInPrimaryNonIgnorable
    | TertiaryInSecondaryNonIgnorable

  /** One collation element as the main loop sees it: its fractional weights,
      whether the collator calls it variable, its UCA primary, whether that
      primary is an implicit lead primary, and its string. An implicit lead
      element stands for the pair of CEs the loop consumes together (the lead
      and the continuation it steps over). */
  datatype Element = Element(np: Int32, ns: Int32, nt: Int32, isVariable: bool, pri: int,
                             isImplicitLead: bool, chr: string)

  /** The one main class an element is recorded under. */
  function MainClass(e: Element, unsupportedLimit: int): (c: BoundaryClass)
    ensures c in {SecondaryIgnorable, PrimaryIgnorable, Variable, Trailing, NonIgnorable}
  {
    if e.np == 0 && e.ns == 0 then SecondaryIgnorable
    else if e.np == 0 then PrimaryIgnorable
    else if e.isVariable then Variable
    else if e.pri > unsupportedLimit then Trailing
    else NonIgnorable
  }

  /** `nt & 0x3F`: the tertiary with its case bits masked off. */
  function MaskCaseBits(nt: Int32): (r: Int32)
    ensures 0 <= r < 0x40
  {
    (ToUnsigned32(nt as int) % 0x40) as Int32
  }

  /** What one element feeds to the trackers of class `cls` (both first and
      last are fed the same): nothing for an implicit lead primary; otherwise a
      secondary-only key when the primary is non-zero, a masked tertiary-only
      key when the secondary is non-zero, and the full key under its main
      class. */
  function CandidatesFor(cls: BoundaryClass, e: Element, unsupportedLimit: int): seq<Candidate> {
    if e.isImplicitLead then []
    else
      match cls
      case SecondaryInPrimaryNonIgnorable =>
        if e.np != 0 then [Candidate(0, e.ns, 0, e.chr)] else []
      case TertiaryInSecondaryNonIgnorable =>
        if e.ns != 0 then [Candidate(0, 0, MaskCaseBits(e.nt), e.chr)] else []
      case _ =>
        if cls == MainClass(e, unsupportedLimit) then [Candidate(e.np, e.ns, e.nt, e.chr)] else []
  }

  /** Everything the main loop feeds to class `cls`, in order. */
  function FedTo(cls: BoundaryClass, elements: seq<Element>, unsupportedLimit: int): seq<Candidate>
    decreases |elements|
  {
    if elements == [] then []
    else
      FedTo(cls, elements[..|elements| - 1], unsupportedLimit)
      + CandidatesFor(cls, elements[|elements| - 1], unsupportedLimit)
  }

  /** An element with an implicit lead primary feeds no tracker: appending it
      changes nothing any class receives. */
  lemma ImplicitLeadFeedsNothing(cls: BoundaryClass, elements: seq<Element>, e: Element, unsupportedLimit: int)
    requires e.isImplicitLead
    ensures FedTo(cls, elements + [e], unsupportedLimit) == FedTo(cls, elements, unsupportedLimit)
  {
    assert (elements + [e])[..|elements|] == elements;
  }

  /** Each key a main class receives is the full key of an element of the
      input that has no implicit lead primary and is classed there. */
  lemma {:induction false} FedFromClassedElements(cls: BoundaryClass, elements: seq<Element>, unsupportedLimit: int)
    requires cls in {SecondaryIgnorable, PrimaryIgnorable, Variable, Trailing, NonIgnorable}
    ensures forall c <- FedTo(cls, elements, unsupportedLimit) :: exists e <- elements ::
      !e.isImplicitLead && MainClass(e, unsupportedLimit) == cls && c == Candidate(e.np, e.ns, e.nt, e.chr)
    decreases |elements|
  {
    if elements != [] {
      var init := elements[..|elements| - 1];
      FedFromClassedElements(cls, init, unsupportedLimit);
      assert forall e <- init :: e in elements;
    }
  }

  /** The classification: an element is secondary-ignorable when its primary
      and secondary are zero, primary-ignorable when only its primary is,
      otherwise variable, trailing (UCA primary above the unsupported limit)
      or non-ignorable, in that order of precedence. */
  lemma MainClassPartition(e: Element, unsupportedLimit: int)
    ensures MainClass(e, unsupportedLimit) == SecondaryIgnorable <==> e.np == 0 && e.ns == 0
    ensures MainClass(e, unsupportedLimit) == PrimaryIgnorable <==> e.np == 0 && e.ns != 0
    ensures MainClass(e, unsupportedLimit) == Variable <==> e.np != 0 && e.isVariable
    ensures MainClass(e, unsupportedLimit) == Trailing
      <==> e.np != 0 && !e.isVariable && e.pri > unsupportedLimit
    ensures MainClass(e, unsupportedLimit) == NonIgnorable
      <==> e.np != 0 && !e.isVariable && e.pri <= unsupportedLimit
  {
  }

  /** The tertiary-ignorable and implicit trackers are never fed by the loop,
      so they are left to their fallbacks. */
  lemma {:induction false} NeverFed(elements: seq<Element>, unsupportedLimit: int)
    ensures FedTo(TertiaryIgnorable, elements, unsupportedLimit) == []
    ensures FedTo(Implicit, elements, unsupportedLimit) == []
    decreases |elements|
  {
    if elements != [] {
      NeverFed(elements[..|elements| - 1], unsupportedLimit);
    }
  }

  /** The shape of what the secondary and tertiary trackers and the
      primary- and secondary-ignorable trackers receive: zero primaries
      throughout, zero tertiaries in the secondary trackers, zero secondaries
      and masked tertiaries in the tertiary trackers, zero secondaries in the
      secondary-ignorable trackers. */
  lemma {:induction false} FedShapes(elements: seq<Element>, unsupportedLimit: int)
    ensures forall c <- FedTo(SecondaryInPrimaryNonIgnorable, elements, unsupportedLimit) ::
      c.np == 0 && c.nt == 0
    ensures forall c <- FedTo(PrimaryIgnorable, elements, unsupportedLimit) :: c.np == 0
    ensures forall c <- FedTo(TertiaryInSecondaryNonIgnorable, elements, unsupportedLimit) ::
      c.np == 0 && c.ns == 0 && 0 <= c.nt < 0x40
    ensures forall c <- FedTo(SecondaryIgnorable, elements, unsupportedLimit) :: c.np == 0 && c.ns == 0
    decreases |elements|
  {
    if elements != [] {
      FedShapes(elements[..|elements| - 1], unsupportedLimit);
    }
  }

  /** The fake tertiary given to the secondary-ignorable trackers when no
      element fed them. */
  const FAKE_TERTIARY: Int32 := 0x3F03

  /** The fallback (p, s, t) of each class that has one, given the layout's
      highest implicit lead byte: a fake tertiary for the secondary
      ignorables, all zeros for the tertiary ignorables, and the byte after
      the implicit range with common secondary and tertiary for trailing. */
  function FallbackFor(cls: BoundaryClass, implicitMaxByte: Int32): Option<(Int32, Int32, Int32)>
    requires implicitMaxByte < 0x7FFF_FFFF
  {
    match cls
    case SecondaryIgnorable => Some((0, 0, FAKE_TERTIARY))
    case TertiaryIgnorable => Some((0, 0, 0))
    case Trailing =>
      Some((implicitMaxByte + 1, SecondaryCompaction.COMMON_SEC as Int32, TertiaryCompaction.COMMON_TER as Int32))
    case _ => None
  }

  /** A fallback: when the first tracker of a class is unset, both its first
      and its last tracker are given the fallback key with an empty source;
      otherwise nothing changes. */
  method FallbackIfUnset(first: MinMaxFce, last: MinMaxFce, p: Int32, s: Int32, t: Int32)
    requires first.Valid() && last.Valid()
    requires first != last && first.key != last.key
    modifies first, first.key, last, last.key
    ensures first.Valid() && last.Valid()
    ensures old(first.seen) == [] ==>
      first.seen == [Candidate(p, s, t, "")] && last.seen == old(last.seen) + [Candidate(p, s, t, "")]
    ensures old(first.seen) != [] ==>
      first.seen == old(first.seen) && last.seen == old(last.seen)
  {
    if first.IsUnset() {
      first.SetValue(p, s, t, "");
      last.SetValue(p, s, t, "");
    }
  }

  /** After its fallback, a first and last tracker fed the same candidates are
      both set, and a tracker that was unset holds exactly the fallback key. */
  lemma FallbackSets(max: bool, fed: seq<Candidate>, p: Int32, s: Int32, t: Int32)
    ensures var after := if fed == [] then [Candidate(p, s, t, "")] else fed;
      !IsUnsetKey(Tracked(max, after).0)
      && (fed == [] ==> Tracked(max, after) == (JustifiedKey(Candidate(p, s, t, "")), Some("")))
  {
    var after := if fed == [] then [Candidate(p, s, t, "")] else fed;
    TrackedUnsetIffEmpty(max, after);
    JustifiedKeyBetweenSentinels(Candidate(p, s, t, ""));
    assert after[..0] == [];
  }

  /** A lead byte alone, left-justified: the byte moves to bits 31..24. */
  lemma LeadByteJustified(b: int)
    requires 0 < b < 0x100
    ensures LeftJustified(ToUnsigned32(b)) == b * LEAD_BYTE_UNIT
  {
    LeftJustifiedIsByteShift(b);
    assert Pow256(3) == 0x100_0000 by {
      assert Pow256(2) == 0x1_0000 by {
        assert Pow256(1) == 0x100;
      }
    }
  }

  /** The implicit trackers are never fed by the loop and are then set once,
      unconditionally, to an implicit lead byte with the common secondary and
      tertiary: each holds exactly that key with an empty source. */
  lemma ImplicitTrackerHolds(max: bool, elements: seq<Element>, unsupportedLimit: int, leadByte: Int32)
    requires 0 < leadByte < 0x100
    ensures var common := Candidate(leadByte, SecondaryCompaction.COMMON_SEC as Int32,
                                    TertiaryCompaction.COMMON_TER as Int32, "");
      Tracked(max, FedTo(Implicit, elements, unsupportedLimit) + [common])
      == (Key3(leadByte as int * LEAD_BYTE_UNIT, 0x0500_0000, 0x0500_0000), Some(""))
  {
    NeverFed(elements, unsupportedLimit);
    var common := Candidate(leadByte, SecondaryCompaction.COMMON_SEC as Int32,
                            TertiaryCompaction.COMMON_TER as Int32, "");
    LeadByteJustified(leadByte as int);
    LeadByteJustified(5);
    assert ([] + [common])[..0] == [];
  }

  /** The trailing fallback sorts after the last implicit key: its lead byte
      is the one after the implicit range. */
  lemma TrailingFallbackAfterImplicits(implicitMaxByte: Int32)
    requires 0 < implicitMaxByte < 0xFF
    ensures FallbackFor(Trailing, implicitMaxByte).Some?
    ensures var (p, s, t) := FallbackFor(Trailing, implicitMaxByte).value;
      LexLess(JustifiedKey(Candidate(implicitMaxByte, s, t, "")), JustifiedKey(Candidate(p, s, t, "")))
  {
    LeadByteJustified(implicitMaxByte as int);
    LeadByteJustified(implicitMaxByte as int + 1);
  }

  /** The fake secondary ignorable lies above every masked tertiary: when the
      secondary-ignorable trackers were filled by the fallback, the logged
      "overlap of tertiaries" test can never fire. */
  lemma FakeSecondaryIgnorableClearsTertiaryOverlap(elements: seq<Element>, unsupportedLimit: int)
    ensures
      var lastTertiary := Tracked(true, FedTo(TertiaryInSecondaryNonIgnorable, elements, unsupportedLimit));
      var firstSecondaryIgnorable := Tracked(false, [Candidate(0, 0, FAKE_TERTIARY, "")]);
      lastTertiary.0.t < firstSecondaryIgnorable.0.t
  {
    var fed := FedTo(TertiaryInSecondaryNonIgnorable, elements, unsupportedLimit);
    var fake := Candidate(0, 0, FAKE_TERTIARY, "");
    assert [fake][..0] == [];
    LeftJustifiedIsByteShift(0x3F03);
    assert Pow256(2) == 0x1_0000 by {
      assert Pow256(1) == 0x100;
    }
    assert Tracked(false, [fake]).0.t == 0x3F03_0000;
    TrackedIsFirstExtreme(true, fed);
    if fed != [] {
      FedShapes(elements, unsupportedLimit);
      var i :| 0 <= i < |fed| && Tracked(true, fed).0 == JustifiedKey(fed[i]);
      var nt := fed[i].nt as int;
      assert 0 <= nt < 0x40;
      if nt != 0 {
        LeftJustifiedIsByteShift(nt);
        assert Pow256(3) == 0x100_0000 by {
          assert Pow256(2) == 0x1_0000 by {
            assert Pow256(1) == 0x100;
          }
        }
        assert LeftJustified(nt) == nt * 0x100_0000;
      }
    }
  }

  /** Over candidates with zero primaries, a max tracker's secondary is the
      greatest secondary given and a min tracker's the least; while empty they
      hold the sentinels, which no left-justified secondary reaches. */
  lemma TrackedSecondaryIsExtreme(max: bool, seen: seq<Candidate>)
    requires forall c <- seen :: c.np == 0
    ensures forall i :: 0 <= i < |seen| ==>
      if max then JustifiedKey(seen[i]).s <= Tracked(max, seen).0.s
      else Tracked(max, seen).0.s <= JustifiedKey(seen[i]).s
    ensures seen != [] ==> exists i :: 0 <= i < |seen| && Tracked(max, seen).0.s == JustifiedKey(seen[i]).s
    ensures seen == [] ==> Tracked(max, seen).0.s == if max then UNDEFINED_MIN else UNDEFINED_MAX
  {
    TrackedIsFirstExtreme(max, seen);
    if seen != [] {
      var i0 :| 0 <= i0 < |seen| && Tracked(max, seen).0 == JustifiedKey(seen[i0]);
      assert seen[i0] in seen;
      forall i | 0 <= i < |seen|
        ensures if max then JustifiedKey(seen[i]).s <= Tracked(max, seen).0.s
          else Tracked(max, seen).0.s <= JustifiedKey(seen[i]).s
      {
        assert seen[i] in seen;
        assert !Improves(max, JustifiedKey(seen[i]), Tracked(max, seen).0);
      }
    }
  }

  /** A max tracker's secondary reaches a min tracker's exactly when some
      candidate of the first has a secondary at or above some candidate of the
      second, provided all primaries are zero. */
  lemma TrackedSecondariesOverlap(a: seq<Candidate>, b: seq<Candidate>)
    requires forall c <- a :: c.np == 0
    requires forall c <- b :: c.np == 0
    ensures Tracked(true, a).0.s >= Tracked(false, b).0.s
      <==> exists i, j :: 0 <= i < |a| && 0 <= j < |b| && JustifiedKey(a[i]).s >= JustifiedKey(b[j]).s
  {
    TrackedSecondaryIsExtreme(true, a);
    TrackedSecondaryIsExtreme(false, b);
    var hi := Tracked(true, a).0.s;
    var lo := Tracked(false, b).0.s;
    if a == [] || b == [] {
      if a != [] {
        var i0 :| 0 <= i0 < |a| && hi == JustifiedKey(a[i0]).s;
        JustifiedKeyBetweenSentinels(a[i0]);
      }
      if b != [] {
        var j0 :| 0 <= j0 < |b| && lo == JustifiedKey(b[j0]).s;
        JustifiedKeyBetweenSentinels(b[j0]);
      }
    } else {
      var i0 :| 0 <= i0 < |a| && hi == JustifiedKey(a[i0]).s;
      var j0 :| 0 <= j0 < |b| && lo == JustifiedKey(b[j0]).s;
      if hi >= lo {
        assert JustifiedKey(a[i0]).s >= JustifiedKey(b[j0]).s;
      }
    }
  }

  /** The logged "overlap of secondaries" test fires exactly when some element
      fed to the secondary-in-primary trackers has a left-justified secondary
      at or above that of some primary-ignorable element. */
  lemma SecondaryOverlapIff(elements: seq<Element>, unsupportedLimit: int)
    ensures
      var a := FedTo(SecondaryInPrimaryNonIgnorable, elements, unsupportedLimit);
      var b := FedTo(PrimaryIgnorable, elements, unsupportedLimit);
      Tracked(true, a).0.s >= Tracked(false, b).0.s
      <==> exists i, j :: 0 <= i < |a| && 0 <= j < |b| && JustifiedKey(a[i]).s >= JustifiedKey(b[j]).s
  {
    FedShapes(elements, unsupportedLimit);
    TrackedSecondariesOverlap(
      FedTo(SecondaryInPrimaryNonIgnorable, elements, unsupportedLimit),
      FedTo(PrimaryIgnorable, elements, unsupportedLimit));
  }

  /** Over candidates with zero primaries and secondaries, a max tracker's
      tertiary is the greatest tertiary given and a min tracker's the least;
      while empty they hold the sentinels. */
  lemma TrackedTertiaryIsExtreme(max: bool, seen: seq<Candidate>)
    requires forall c <- seen :: c.np == 0 && c.ns == 0
    ensures forall i :: 0 <= i < |seen| ==>
      if max then JustifiedKey(seen[i]).t <= Tracked(max, seen).0.t
      else Tracked(max, seen).0.t <= JustifiedKey(seen[i]).t
    ensures seen != [] ==> exists i :: 0 <= i < |seen| && Tracked(max, seen).0.t == JustifiedKey(seen[i]).t
    ensures seen == [] ==> Tracked(max, seen).0.t == if max then UNDEFINED_MIN else UNDEFINED_MAX
  {
    TrackedIsFirstExtreme(max, seen);
    if seen != [] {
      var i0 :| 0 <= i0 < |seen| && Tracked(max, seen).0 == JustifiedKey(seen[i0]);
      assert seen[i0] in seen;
      forall i | 0 <= i < |seen|
        ensures if max then JustifiedKey(seen[i]).t <= Tracked(max, seen).0.t
          else Tracked(max, seen).0.t <= JustifiedKey(seen[i]).t
      {
        assert seen[i] in seen;
        assert !Improves(max, JustifiedKey(seen[i]), Tracked(max, seen).0);
      }
    }
  }

  /** A max tracker's tertiary reaches a min tracker's exactly when some
      candidate of the first has a tertiary at or above some candidate of the
      second, provided all primaries and secondaries are zero. */
  lemma TrackedTertiariesOverlap(a: seq<Candidate>, b: seq<Candidate>)
    requires forall c <- a :: c.np == 0 && c.ns == 0
    requires forall c <- b :: c.np == 0 && c.ns == 0
    ensures Tracked(true, a).0.t >= Tracked(false, b).0.t
      <==> exists i, j :: 0 <= i < |a| && 0 <= j < |b| && JustifiedKey(a[i]).t >= JustifiedKey(b[j]).t
  {
    TrackedTertiaryIsExtreme(true, a);
    TrackedTertiaryIsExtreme(false, b);
    var hi := Tracked(true, a).0.t;
    var lo := Tracked(false, b).0.t;
    if a == [] || b == [] {
      if a != [] {
        var i0 :| 0 <= i0 < |a| && hi == JustifiedKey(a[i0]).t;
        JustifiedKeyBetweenSentinels(a[i0]);
      }
      if b != [] {
        var j0 :| 0 <= j0 < |b| && lo == JustifiedKey(b[j0]).t;
        JustifiedKeyBetweenSentinels(b[j0]);
      }
    } else {
      var i0 :| 0 <= i0 < |a| && hi == JustifiedKey(a[i0]).t;
      var j0 :| 0 <= j0 < |b| && lo == JustifiedKey(b[j0]).t;
      if hi >= lo {
        assert JustifiedKey(a[i0]).t >= JustifiedKey(b[j0]).t;
      }
    }
  }

  /** The logged "overlap of tertiaries" test fires exactly when the masked
      tertiary of some element fed to the tertiary-in-secondary trackers is,
      left-justified, at or above the tertiary of some secondary-ignorable
      element, or of the fake key when no element was secondary-ignorable. */
  lemma TertiaryOverlapIff(elements: seq<Element>, unsupportedLimit: int)
    ensures
      var a := FedTo(TertiaryInSecondaryNonIgnorable, elements, unsupportedLimit);
      var fed := FedTo(SecondaryIgnorable, elements, unsupportedLimit);
      var b := if fed == [] then [Candidate(0, 0, FAKE_TERTIARY, "")] else fed;
      Tracked(true, a).0.t >= Tracked(false, b).0.t
      <==> exists i, j :: 0 <= i < |a| && 0 <= j < |b| && JustifiedKey(a[i]).t >= JustifiedKey(b[j]).t
  {
    FedShapes(elements, unsupportedLimit);
    var fed := FedTo(SecondaryIgnorable, elements, unsupportedLimit);
    TrackedTertiariesOverlap(
      FedTo(TertiaryInSecondaryNonIgnorable, elements, unsupportedLimit),
      if fed == [] then [Candidate(0, 0, FAKE_TERTIARY, "")] else fed);
  }
}
