/** The lead-byte to reordering-token table of FractionalUCA.java
    (`HighByteToReorderingToken`): 256 slots, one per lead byte of a fractional
    primary, each holding a `ReorderingTokens` object whose tag set says which
    scripts and reserved ranges use that lead byte. */
module ReorderingTokenMerge {
  import opened Failures

  /** The tag set of a `ReorderingTokens` (its counts and categories are not
      modelled). `intersects` is a non-empty intersection, `equals` is set
      equality, `or` is in-place union and `setScripts(t)` makes the set {t}. */
  class ReorderingTokens {
    var reorderingToken: set<string>

    constructor Empty()
      ensures reorderingToken == {}
    {
      reorderingToken := {};
    }

    constructor Copy(other: ReorderingTokens)
      ensures reorderingToken == other.reorderingToken
    {
      reorderingToken := other.reorderingToken;
    }

    method Add(tag: string)
      modifies this
      ensures reorderingToken == old(reorderingToken) + {tag}
    {
      reorderingToken := reorderingToken + {tag};
    }

    /** `addInfoFrom`: adds the script tags of a sample string. */
    method AddAll(tags: set<string>)
      modifies this
      ensures reorderingToken == old(reorderingToken) + tags
    {
      reorderingToken := reorderingToken + tags;
    }

    method Or(other: ReorderingTokens)
      modifies this
      ensures reorderingToken == old(reorderingToken) + old(other.reorderingToken)
    {
      reorderingToken := reorderingToken + other.reorderingToken;
    }

    method SetScripts(tag: string)
      modifies this
      ensures reorderingToken == {tag}
    {
      reorderingToken := {tag};
    }

    predicate Intersects(other: ReorderingTokens)
      reads this, other
    {
      reorderingToken * other.reorderingToken != {}
    }

    predicate Equals(other: ReorderingTokens)
      reads this, other
    {
      reorderingToken == other.reorderingToken
    }
  }

  const SLOT_COUNT := 256
  const HAN: set<string> := {"Hani", "Hans", "Hant"}

  /** The tag sets of a sequence of slots. */
  ghost function ContentsOf(slots: seq<ReorderingTokens>): (v: seq<set<string>>)
    reads slots
    ensures |v| == |slots|
    ensures forall j :: 0 <= j < |slots| ==> v[j] == slots[j].reorderingToken
  {
    seq(|slots|, j requires 0 <= j < |slots| reads slots => slots[j].reorderingToken)
  }

  /** The reserved lead-byte ranges, which come from constants outside this
      model: implicit weights in [implicitBase, implicitMax], trailing weights
      after them up to specialBase, specials from specialBase to 0xFF. */
  datatype LeadByteLayout = LeadByteLayout(implicitBase: int, implicitMax: int, specialBase: int)

  /** Slots [lo, hi) exist, or the range is empty. */
  predicate RangeInBounds(lo: int, hi: int) {
    hi <= lo || (0 <= lo && hi <= SLOT_COUNT)
  }

  /** Every slot a seeding loop visits exists. */
  predicate InBounds(layout: LeadByteLayout) {
    RangeInBounds(layout.implicitBase, layout.implicitMax + 1)
    && RangeInBounds(layout.implicitMax + 1, layout.specialBase)
    && RangeInBounds(layout.specialBase, SLOT_COUNT)
  }

  /** The ranges follow the four fixed slots and each other in order. */
  predicate Ordered(layout: LeadByteLayout) {
    4 <= layout.implicitBase <= layout.implicitMax < layout.specialBase <= SLOT_COUNT
  }

  /** The four fixed slots. */
  function FixedTags(k: int): set<string> {
    if k == 0 then {"TERMINATOR"}
    else if k == 1 then {"LEVEL-SEPARATOR"}
    else if k == 2 then {"FIELD-SEPARATOR"}
    else if k == 3 then {"SPACE"}
    else {}
  }

  /** `tag` for the slots in [lo, hi), nothing elsewhere. */
  function RangeTag(lo: int, hi: int, tag: string, k: int): set<string> {
    if lo <= k < hi then {tag} else {}
  }

  /** The tags the constructor seeds slot `k` with. */
  function SeedTags(layout: LeadByteLayout, k: int): set<string> {
    FixedTags(k)
    + RangeTag(layout.implicitBase, layout.implicitMax + 1, "IMPLICIT", k)
    + RangeTag(layout.implicitMax + 1, layout.specialBase, "TRAILING", k)
    + RangeTag(layout.specialBase, SLOT_COUNT, "SPECIAL", k)
  }

  /** Slots that hold distinct objects. */
  ghost predicate Distinct(slots: seq<ReorderingTokens>) {
    forall i, j :: 0 <= i < j < |slots| ==> slots[i] != slots[j]
  }

  /** One seeding loop of the constructor: adds `tag` to each slot in [lo, hi). */
  method AddToRange(table: array<ReorderingTokens>, lo: int, hi: int, tag: string)
    requires Distinct(table[..]) && table.Length == SLOT_COUNT
    requires RangeInBounds(lo, hi)
    modifies set j | 0 <= j < table.Length :: table[j]
    ensures table[..] == old(table[..])
    ensures forall j :: 0 <= j < table.Length ==>
      table[j].reorderingToken == old(table[j].reorderingToken) + RangeTag(lo, hi, tag, j)
  {
    var i := lo;
    while i < hi
      invariant lo <= i && (i <= hi || i == lo)
      invariant forall j :: 0 <= j < table.Length ==>
        table[j].reorderingToken == old(table[j].reorderingToken) + RangeTag(lo, i, tag, j)
    {
      table[i].Add(tag);
      i := i + 1;
    }
  }

  /** With an ordered layout each reserved slot gets exactly one tag, and the
      slots between SPACE and the implicit range start empty (scripts fill them). */
  lemma SeedTagsPartition(layout: LeadByteLayout, k: int)
    requires Ordered(layout) && 0 <= k < SLOT_COUNT
    ensures k < 4 || layout.implicitBase <= k ==> |SeedTags(layout, k)| == 1
    ensures 4 <= k < layout.implicitBase ==> SeedTags(layout, k) == {}
  {
  }

  /** `intersects && !equals`: the condition under which two neighbours merge. */
  predicate Overlapping(a: set<string>, b: set<string>) {
    a * b != {} && a != b
  }

  /** No two adjacent slots intersect unless they are equal. */
  predicate NoAdjacentOverlap(v: seq<set<string>>) {
    forall j :: 1 <= j < |v| ==> !Overlapping(v[j - 1], v[j])
  }

  function UnionOf(v: seq<set<string>>): (u: set<string>)
    ensures forall j :: 0 <= j < |v| ==> v[j] <= u
  {
    if v == [] then {} else UnionOf(v[..|v| - 1]) + v[|v| - 1]
  }

  /** How many tags of `u` the slots are still missing, summed over the slots:
      the termination measure of the merge. */
  function Deficit(v: seq<set<string>>, u: set<string>): nat {
    if v == [] then 0 else Deficit(v[..|v| - 1], u) + |u - v[|v| - 1]|
  }

  lemma CardinalityOfSubset(a: set<string>, b: set<string>)
    requires a <= b
    ensures |a| <= |b|
    ensures a != b ==> |a| < |b|
  {
    assert b == a + (b - a);
    if a != b {
      var x :| x in b && x !in a;
      assert x in b - a;
    }
  }

  /** Growing slots within `u` never raises the deficit, and growing one
      strictly lowers it. */
  lemma {:induction false} DeficitShrinks(v: seq<set<string>>, w: seq<set<string>>, u: set<string>)
    requires |v| == |w|
    requires forall j :: 0 <= j < |v| ==> v[j] <= w[j] <= u
    ensures Deficit(w, u) <= Deficit(v, u)
    ensures v != w ==> Deficit(w, u) < Deficit(v, u)
    decreases |v|
  {
    if v != [] {
      var n := |v| - 1;
      DeficitShrinks(v[..n], w[..n], u);
      CardinalityOfSubset(u - w[n], u - v[n]);
      if v[n] != w[n] {
        var x :| x in w[n] && x !in v[n];
        assert x in u - v[n] && x !in u - w[n];
      } else if v != w {
        assert v[..n] != w[..n] by {
          assert v == v[..n] + [v[n]] && w == w[..n] + [w[n]];
        }
      }
    }
  }

  /** What one merge at `k` leaves in the slots, given the slot objects before
      it: slot `k` takes the object of slot `k-1`, and every slot holding that
      object sees the union of the two neighbours' tags. */
  ghost function MergeContents(slots: seq<ReorderingTokens>, v: seq<set<string>>, k: int): seq<set<string>>
    requires 1 <= k < |slots| == |v|
  {
    seq(|v|, j requires 0 <= j < |v| => if j == k || slots[j] == slots[k - 1] then v[k - 1] + v[k] else v[j])
  }

  /** The tag sets agree wherever two slots hold the same object. */
  ghost predicate Coherent(slots: seq<ReorderingTokens>, v: seq<set<string>>) {
    |slots| == |v|
    && forall i, j :: 0 <= i < |slots| && 0 <= j < |slots| && slots[i] == slots[j] ==> v[i] == v[j]
  }

  /** The slots holding one object form a contiguous run. */
  ghost predicate Contiguous(slots: seq<ReorderingTokens>) {
    forall i, m, j :: 0 <= i < m < j < |slots| && slots[i] == slots[j] ==> slots[m] == slots[i]
  }

  /** An object held by two slots has at least one tag. */
  ghost predicate SharedNonEmpty(slots: seq<ReorderingTokens>, v: seq<set<string>>) {
    |slots| == |v|
    && forall i, j :: 0 <= i < j < |slots| && slots[i] == slots[j] ==> v[i] != {}
  }

  /** `w` is closed under the merge and lies above `start`: every slot has
      only grown and no two neighbours overlap. */
  predicate MergeClosedAbove(start: seq<set<string>>, w: seq<set<string>>) {
    |w| == |start| && (forall j :: 0 <= j < |w| ==> start[j] <= w[j]) && NoAdjacentOverlap(w)
  }

  /** `v` lies, slot by slot, below every merge-closed sequence above `start`. */
  ghost predicate BelowEveryClosure(start: seq<set<string>>, v: seq<set<string>>) {
    forall w :: MergeClosedAbove(start, w) ==> |v| == |w| && forall j :: 0 <= j < |v| ==> v[j] <= w[j]
  }

  /** What the merge keeps true of the slots from one step to the next. */
  ghost predicate MergeShape(start: seq<set<string>>, slots: seq<ReorderingTokens>, v: seq<set<string>>) {
    Coherent(slots, v) && Contiguous(slots) && SharedNonEmpty(slots, v) && BelowEveryClosure(start, v)
  }

  /** A non-empty set lying below a run of slots of an overlap-free sequence
      makes the two ends of the run equal. */
  lemma {:induction false} RunEqual(w: seq<set<string>>, s: set<string>, lo: int, hi: int)
    requires 0 <= lo <= hi < |w| && NoAdjacentOverlap(w) && s != {}
    requires forall m :: lo <= m <= hi ==> s <= w[m]
    ensures w[lo] == w[hi]
    decreases hi - lo
  {
    if lo < hi {
      RunEqual(w, s, lo, hi - 1);
      var x :| x in s;
      assert x in w[hi - 1] * w[hi];
    }
  }

  /** A merge of two overlapping neighbours only grows slots, keeps them
      within the tags present, and strictly lowers the deficit. */
  lemma MergeStepGrows(slots: seq<ReorderingTokens>, v: seq<set<string>>, k: int, u: set<string>)
    requires 1 <= k < |slots| && Coherent(slots, v)
    requires forall j :: 0 <= j < |v| ==> v[j] <= u
    requires Overlapping(v[k - 1], v[k])
    ensures forall j :: 0 <= j < |v| ==> v[j] <= MergeContents(slots, v, k)[j] <= u
    ensures Deficit(MergeContents(slots, v, k), u) < Deficit(v, u)
  {
    var w := MergeContents(slots, v, k);
    assert w[k - 1] != v[k - 1] || w[k] != v[k];
    DeficitShrinks(v, w, u);
  }

  /** A merge keeps shared objects in contiguous, non-empty runs: the object
      that slot `k` leaves was shared only with slots after `k`, and the one
      it joins covers `k-1` and the slots before it. */
  lemma MergeKeepsRuns(slots: seq<ReorderingTokens>, v: seq<set<string>>, k: int)
    requires 1 <= k < |slots| && Coherent(slots, v) && Contiguous(slots) && SharedNonEmpty(slots, v)
    requires Overlapping(v[k - 1], v[k])
    ensures Coherent(slots[k := slots[k - 1]], MergeContents(slots, v, k))
    ensures Contiguous(slots[k := slots[k - 1]])
    ensures SharedNonEmpty(slots[k := slots[k - 1]], MergeContents(slots, v, k))
  {
    var after := slots[k := slots[k - 1]];
    forall i, m, j | 0 <= i < m < j < |after| && after[i] == after[j]
      ensures after[m] == after[i]
    {
      if j == k && m != k - 1 {
        assert slots[i] == slots[k - 1];
      }
    }
  }

  /** A merge never lifts a slot above a merge-closed sequence above `start`:
      two overlapping neighbours have the same slot there, and so has every
      slot sharing the object of `k-1`, whose run ends at `k-1`. */
  lemma MergeKeepsLeast(start: seq<set<string>>, slots: seq<ReorderingTokens>, v: seq<set<string>>, k: int)
    requires 1 <= k < |slots| && Coherent(slots, v) && Contiguous(slots) && SharedNonEmpty(slots, v)
    requires Overlapping(v[k - 1], v[k]) && BelowEveryClosure(start, v)
    ensures BelowEveryClosure(start, MergeContents(slots, v, k))
  {
    var after := MergeContents(slots, v, k);
    forall w | MergeClosedAbove(start, w)
      ensures |after| == |w| && forall j :: 0 <= j < |after| ==> after[j] <= w[j]
    {
      var x :| x in v[k - 1] * v[k];
      assert x in w[k - 1] * w[k];
      forall j | 0 <= j < |after|
        ensures after[j] <= w[j]
      {
        if j < k - 1 && slots[j] == slots[k - 1] {
          forall m | j <= m <= k - 1
            ensures v[k - 1] <= w[m]
          {
            assert slots[m] == slots[k - 1];
          }
          RunEqual(w, v[k - 1], j, k - 1);
        }
      }
    }
  }

  /** The body of one merge: `mergedTokens[k-1].or(mergedTokens[k])` followed
      by `mergedTokens[k] = mergedTokens[k-1]`. */
  method MergeStep(merged: array<ReorderingTokens>, k: int, ghost objs: set<ReorderingTokens>)
    requires 1 <= k < merged.Length
    requires forall j :: 0 <= j < merged.Length ==> merged[j] in objs
    modifies merged, objs
    ensures forall j :: 0 <= j < merged.Length ==> merged[j] in objs
    ensures merged[..] == old(merged[..])[k := old(merged[k - 1])]
    ensures ContentsOf(merged[..]) == MergeContents(old(merged[..]), old(ContentsOf(merged[..])), k)
  {
    ghost var slots := merged[..];
    ghost var before := ContentsOf(merged[..]);
    merged[k - 1].Or(merged[k]);
    merged[k] := merged[k - 1];
    assert merged[..] == slots[k := slots[k - 1]];
  }

  /** One test of the merge loop: when slot `k-1` overlaps slot `k` without
      being equal, merge them. It reports whether it merged; if not, nothing
      changed; if so, slots only grew within `u` and the deficit fell. */
  method MergeIfOverlapping(merged: array<ReorderingTokens>, k: int, ghost objs: set<ReorderingTokens>,
                            ghost start: seq<set<string>>, ghost u: set<string>) returns (didMerge: bool)
    requires 1 <= k < merged.Length
    requires forall j :: 0 <= j < merged.Length ==> merged[j] in objs
    requires forall j :: 0 <= j < merged.Length ==> merged[j].reorderingToken <= u
    requires MergeShape(start, merged[..], ContentsOf(merged[..]))
    modifies merged, objs
    ensures forall j :: 0 <= j < merged.Length ==> merged[j] in objs
    ensures forall j :: 0 <= j < merged.Length ==>
      old(ContentsOf(merged[..]))[j] <= ContentsOf(merged[..])[j] <= u
    ensures MergeShape(start, merged[..], ContentsOf(merged[..]))
    ensures !didMerge ==> ContentsOf(merged[..]) == old(ContentsOf(merged[..]))
    ensures !didMerge ==> !Overlapping(old(ContentsOf(merged[..]))[k - 1], old(ContentsOf(merged[..]))[k])
    ensures didMerge ==> Deficit(ContentsOf(merged[..]), u) < Deficit(old(ContentsOf(merged[..])), u)
  {
    didMerge := false;
    if merged[k - 1].Intersects(merged[k]) && !merged[k - 1].Equals(merged[k]) {
      ghost var slots := merged[..];
      ghost var before := ContentsOf(merged[..]);
      MergeStep(merged, k, objs);
      MergeStepGrows(slots, before, k, u);
      MergeKeepsRuns(slots, before, k);
      MergeKeepsLeast(start, slots, before, k);
      didMerge := true;
    }
  }

  /** One left-to-right pass of the merge loop. It reports whether it merged
      anything; if not, nothing changed and no two adjacent slots overlap; if
      so, slots only grew within `u` and the deficit fell. */
  method MergePass(merged: array<ReorderingTokens>, ghost objs: set<ReorderingTokens>,
                   ghost start: seq<set<string>>, ghost u: set<string>) returns (fixedOne: bool)
    requires forall j :: 0 <= j < merged.Length ==> merged[j] in objs
    requires forall j :: 0 <= j < merged.Length ==> merged[j].reorderingToken <= u
    requires MergeShape(start, merged[..], ContentsOf(merged[..]))
    modifies merged, objs
    ensures forall j :: 0 <= j < merged.Length ==> merged[j] in objs
    ensures forall j :: 0 <= j < merged.Length ==>
      old(merged[j].reorderingToken) <= merged[j].reorderingToken <= u
    ensures MergeShape(start, merged[..], ContentsOf(merged[..]))
    ensures !fixedOne ==> ContentsOf(merged[..]) == old(ContentsOf(merged[..]))
    ensures !fixedOne ==> NoAdjacentOverlap(ContentsOf(merged[..]))
    ensures fixedOne ==> Deficit(ContentsOf(merged[..]), u) < Deficit(old(ContentsOf(merged[..])), u)
  {
    ghost var passStart := ContentsOf(merged[..]);
    fixedOne := false;
    var k := 1;
    while k < merged.Length
      invariant forall j :: 0 <= j < merged.Length ==> merged[j] in objs
      invariant forall j :: 0 <= j < merged.Length ==>
        passStart[j] <= ContentsOf(merged[..])[j] <= u
      invariant MergeShape(start, merged[..], ContentsOf(merged[..]))
      invariant !fixedOne ==> ContentsOf(merged[..]) == passStart
      invariant !fixedOne ==> forall j :: 1 <= j < k && j < merged.Length ==>
        !Overlapping(passStart[j - 1], passStart[j])
      invariant fixedOne ==> Deficit(ContentsOf(merged[..]), u) < Deficit(passStart, u)
    {
      ghost var before := ContentsOf(merged[..]);
      var didMerge := MergeIfOverlapping(merged, k, objs, start, u);
      if didMerge {
        DeficitShrinks(passStart, before, u);
        fixedOne := true;
      }
      k := k + 1;
    }
  }

  /** The fixed-point merge of `cleanup`: while some pass merged, sweep the
      slots left to right; when slot `k-1` overlaps slot `k` without being
      equal, union slot `k` into the object of slot `k-1` and make slot `k`
      share that object. On exit no two adjacent slots overlap, every slot has
      only grown within the tags present before, and the result is the least
      such outcome: it lies below every sequence that contains the starting
      slots and has no adjacent overlap. Slots left sharing an object form one
      contiguous run and hold a non-empty set. */
  method MergeAdjacent(merged: array<ReorderingTokens>, ghost objs: set<ReorderingTokens>)
    requires Distinct(merged[..])
    requires forall j :: 0 <= j < merged.Length ==> merged[j] in objs
    modifies merged, objs
    ensures forall j :: 0 <= j < merged.Length ==> merged[j] in objs
    ensures NoAdjacentOverlap(ContentsOf(merged[..]))
    ensures forall j :: 0 <= j < merged.Length ==>
      old(ContentsOf(merged[..]))[j] <= ContentsOf(merged[..])[j] <= UnionOf(old(ContentsOf(merged[..])))
    ensures BelowEveryClosure(old(ContentsOf(merged[..])), ContentsOf(merged[..]))
    ensures Contiguous(merged[..]) && SharedNonEmpty(merged[..], ContentsOf(merged[..]))
  {
    ghost var start := ContentsOf(merged[..]);
    ghost var u := UnionOf(start);
    var fixedOne := true;
    while fixedOne
      invariant forall j :: 0 <= j < merged.Length ==> merged[j] in objs
      invariant forall j :: 0 <= j < merged.Length ==> start[j] <= merged[j].reorderingToken <= u
      invariant MergeShape(start, merged[..], ContentsOf(merged[..]))
      invariant !fixedOne ==> NoAdjacentOverlap(ContentsOf(merged[..]))
      decreases Deficit(ContentsOf(merged[..]), u) + (if fixedOne then 1 else 0)
    {
      fixedOne := MergePass(merged, objs, start, u);
    }
  }

  /** The merge is determined by the starting slots alone: two merge-closed
      sequences above `start` that each lie below every other are equal. */
  lemma LeastClosureUnique(start: seq<set<string>>, v1: seq<set<string>>, v2: seq<set<string>>)
    requires MergeClosedAbove(start, v1) && BelowEveryClosure(start, v1)
    requires MergeClosedAbove(start, v2) && BelowEveryClosure(start, v2)
    ensures v1 == v2
  {
    assert |v1| == |v2|;
    forall j | 0 <= j < |v1|
      ensures v1[j] == v2[j]
    {
      assert v1[j] <= v2[j] && v2[j] <= v1[j];
    }
  }

  /** The last lead byte below `upTo` with an override whose slot shares the
      object of slot `j`, or -1 when there is none. */
  function LastOverride(slots: seq<ReorderingTokens>, overrides: map<int, string>, upTo: int, j: int): (r: int)
    requires 0 <= j < |slots| && 0 <= upTo <= |slots|
    ensures -1 <= r < upTo
    ensures r >= 0 ==> r in overrides && slots[r] == slots[j]
    ensures forall k :: r < k < upTo && k in overrides ==> slots[k] != slots[j]
    decreases upTo
  {
    if upTo == 0 then -1
    else if upTo - 1 in overrides && slots[upTo - 1] == slots[j] then upTo - 1
    else LastOverride(slots, overrides, upTo - 1, j)
  }

  /** An overridden slot has a last override at or after itself. */
  lemma OverriddenHasLastOverride(slots: seq<ReorderingTokens>, overrides: map<int, string>, k: int)
    requires 0 <= k < |slots| && k in overrides
    ensures LastOverride(slots, overrides, |slots|, k) >= k
  {
  }

  /** One override: `setScripts` on the object of slot `i`, seen by every
      slot that shares it. */
  method OverrideSlot(merged: array<ReorderingTokens>, ghost objs: set<ReorderingTokens>, i: int, tag: string)
    requires 0 <= i < merged.Length
    requires forall j :: 0 <= j < merged.Length ==> merged[j] in objs
    modifies objs
    ensures forall j :: 0 <= j < merged.Length ==>
      merged[j].reorderingToken == if merged[j] == merged[i] then {tag} else old(merged[j].reorderingToken)
  {
    merged[i].SetScripts(tag);
  }

  /** The override loop of `cleanup`, in ascending lead-byte order: each
      override sets the object of its slot to the single tag, and so also
      every slot sharing that object. A slot sharing the object of some
      overridden slot ends with the tag of the last such override; every other
      slot is unchanged. */
  method ApplyOverrides(merged: array<ReorderingTokens>, ghost objs: set<ReorderingTokens>,
                        overrides: map<int, string>)
    requires merged.Length == SLOT_COUNT
    requires forall j :: 0 <= j < SLOT_COUNT ==> merged[j] in objs
    modifies objs
    ensures forall k :: 0 <= k < SLOT_COUNT ==>
      var last := LastOverride(merged[..], overrides, SLOT_COUNT, k);
      ContentsOf(merged[..])[k] == (if last >= 0 then {overrides[last]} else old(ContentsOf(merged[..]))[k])
  {
    ghost var before := ContentsOf(merged[..]);
    ghost var slots := merged[..];
    var i := 0;
    while i < SLOT_COUNT
      invariant 0 <= i <= SLOT_COUNT && merged[..] == slots
      invariant forall j :: 0 <= j < SLOT_COUNT ==>
        var last := LastOverride(slots, overrides, i, j);
        slots[j].reorderingToken == (if last >= 0 then {overrides[last]} else before[j])
    {
      if i in overrides {
        OverrideSlot(merged, objs, i, overrides[i]);
      }
      i := i + 1;
    }
    assert merged[..] == slots;
  }

  /** A slot left empty by `cleanup` gets the Han tags. */
  function Filled(tags: set<string>): (r: set<string>)
    ensures r != {}
    ensures tags != {} ==> r == tags
  {
    if tags == {} then HAN else tags
  }

  /** The last loop of `cleanup`: a slot whose set is empty gets {Hani, Hans,
      Hant} (on its shared object), and each merged object is stored back into
      the table. Afterwards no slot is empty and non-empty slots are unchanged. */
  method FillAndStore(merged: array<ReorderingTokens>, ghost objs: set<ReorderingTokens>,
                      table: array<ReorderingTokens>)
    requires merged.Length == SLOT_COUNT && table.Length == SLOT_COUNT && merged != table
    requires forall j :: 0 <= j < SLOT_COUNT ==> merged[j] in objs
    modifies objs, table
    ensures table[..] == merged[..]
    ensures forall j :: 0 <= j < SLOT_COUNT ==>
      ContentsOf(merged[..])[j] == Filled(old(ContentsOf(merged[..]))[j])
  {
    var k := 0;
    while k < SLOT_COUNT
      invariant 0 <= k <= SLOT_COUNT
      invariant forall j :: 0 <= j < k ==> table[j] == merged[j]
      invariant forall j :: 0 <= j < SLOT_COUNT ==>
        merged[j].reorderingToken == old(merged[j].reorderingToken)
        || (old(merged[j].reorderingToken) == {} && merged[j].reorderingToken == HAN)
      invariant forall j :: 0 <= j < k ==> merged[j].reorderingToken != {}
    {
      if merged[k].reorderingToken == {} {
        merged[k].SetScripts("Hani");
        merged[k].Add("Hans");
        merged[k].Add("Hant");
        assert merged[k].reorderingToken == HAN;
      }
      table[k] := merged[k];
      k := k + 1;
    }
    assert table[..] == merged[..];
  }

  /** `new ReorderingTokens[256]` with a fresh empty object in every slot. */
  method NewEmptyTable() returns (table: array<ReorderingTokens>)
    ensures fresh(table) && table.Length == SLOT_COUNT && Distinct(table[..])
    ensures forall j :: 0 <= j < SLOT_COUNT ==> fresh(table[j]) && table[j].reorderingToken == {}
  {
    var first := new ReorderingTokens.Empty();
    table := new ReorderingTokens[SLOT_COUNT](_ => first);
    var i := 1;
    while i < SLOT_COUNT
      invariant 1 <= i <= SLOT_COUNT
      invariant forall j :: 0 <= j < SLOT_COUNT ==> fresh(table[j]) && table[j].reorderingToken == {}
      invariant forall j :: i <= j < SLOT_COUNT ==> table[j] == first
      invariant Distinct(table[..i])
    {
      table[i] := new ReorderingTokens.Empty();
      i := i + 1;
    }
    assert table[..] == table[..SLOT_COUNT];
  }

  /** The seeding of the constructor: fixed tags in slots 0-3, then the
      implicit, trailing and special ranges. */
  method SeededTable(layout: LeadByteLayout) returns (table: array<ReorderingTokens>)
    requires InBounds(layout)
    ensures fresh(table) && table.Length == SLOT_COUNT && Distinct(table[..])
    ensures forall j :: 0 <= j < SLOT_COUNT ==> fresh(table[j])
    ensures forall j :: 0 <= j < SLOT_COUNT ==> table[j].reorderingToken == SeedTags(layout, j)
  {
    table := NewEmptyTable();
    table[0].Add("TERMINATOR");
    table[1].Add("LEVEL-SEPARATOR");
    table[2].Add("FIELD-SEPARATOR");
    table[3].Add("SPACE");
    assert forall j :: 0 <= j < SLOT_COUNT ==> table[j].reorderingToken == FixedTags(j);
    AddToRange(table, layout.implicitBase, layout.implicitMax + 1, "IMPLICIT");
    AddToRange(table, layout.implicitMax + 1, layout.specialBase, "TRAILING");
    AddToRange(table, layout.specialBase, SLOT_COUNT, "SPECIAL");
  }

  /** The first loop of `cleanup`: a fresh copy of every slot. */
  method CopyTable(table: array<ReorderingTokens>) returns (merged: array<ReorderingTokens>)
    requires table.Length == SLOT_COUNT
    ensures fresh(merged) && merged.Length == SLOT_COUNT
    ensures forall j :: 0 <= j < SLOT_COUNT ==> fresh(merged[j])
    ensures ContentsOf(merged[..]) == ContentsOf(table[..])
    ensures Distinct(merged[..])
  {
    var first := new ReorderingTokens.Copy(table[0]);
    merged := new ReorderingTokens[SLOT_COUNT](_ => first);
    var k := 1;
    while k < SLOT_COUNT
      invariant 1 <= k <= SLOT_COUNT
      invariant forall j :: 0 <= j < SLOT_COUNT ==> fresh(merged[j])
      invariant forall j :: 0 <= j < k ==> merged[j].reorderingToken == table[j].reorderingToken
      invariant forall j :: k <= j < SLOT_COUNT ==> merged[j] == first
      invariant Distinct(merged[..k])
    {
      merged[k] := new ReorderingTokens.Copy(table[k]);
      k := k + 1;
    }
    assert ContentsOf(merged[..]) == ContentsOf(table[..]);
    assert merged[..] == merged[..SLOT_COUNT];
  }

  /** The first two loops of `cleanup`: copy every slot into a fresh object,
      then merge overlapping neighbours to a fixed point. */
  method CopyAndMerge(table: array<ReorderingTokens>)
      returns (merged: array<ReorderingTokens>, ghost objs: set<ReorderingTokens>)
    requires table.Length == SLOT_COUNT
    ensures fresh(merged) && merged.Length == SLOT_COUNT && merged != table && fresh(objs)
    ensures forall j :: 0 <= j < SLOT_COUNT ==> merged[j] in objs
    ensures NoAdjacentOverlap(ContentsOf(merged[..]))
    ensures forall k :: 0 <= k < SLOT_COUNT ==>
      old(ContentsOf(table[..]))[k] <= ContentsOf(merged[..])[k] <= UnionOf(old(ContentsOf(table[..])))
    ensures BelowEveryClosure(old(ContentsOf(table[..])), ContentsOf(merged[..]))
    ensures Contiguous(merged[..]) && SharedNonEmpty(merged[..], ContentsOf(merged[..]))
  {
    ghost var start := ContentsOf(table[..]);
    merged := CopyTable(table);
    assert ContentsOf(merged[..]) == start;
    objs := set j | 0 <= j < SLOT_COUNT :: merged[j];
    MergeAdjacent(merged, objs);
  }

  /** The last two loops of `cleanup`: apply the overrides, then fill empty
      slots and store every merged object back into the table. */
  method OverrideAndStore(merged: array<ReorderingTokens>, ghost objs: set<ReorderingTokens>,
                          overrides: map<int, string>, table: array<ReorderingTokens>)
    requires merged.Length == SLOT_COUNT && table.Length == SLOT_COUNT && merged != table
    requires forall j :: 0 <= j < SLOT_COUNT ==> merged[j] in objs
    modifies objs, table
    ensures table[..] == merged[..]
    ensures forall j :: 0 <= j < SLOT_COUNT ==> table[j] in objs
    ensures forall k :: 0 <= k < SLOT_COUNT ==>
      var last := LastOverride(table[..], overrides, SLOT_COUNT, k);
      ContentsOf(table[..])[k] == (if last >= 0 then {overrides[last]} else Filled(old(ContentsOf(merged[..]))[k]))
    ensures forall k :: 0 <= k < SLOT_COUNT && k in overrides ==> |ContentsOf(table[..])[k]| == 1
    ensures forall k :: 0 <= k < SLOT_COUNT ==> ContentsOf(table[..])[k] != {}
  {
    ApplyOverrides(merged, objs, overrides);
    FillAndStore(merged, objs, table);
    assert table[..] == merged[..];
    forall k | 0 <= k < SLOT_COUNT && k in overrides
      ensures |ContentsOf(table[..])[k]| == 1
    {
      OverriddenHasLastOverride(table[..], overrides, k);
    }
  }

  datatype ReadError = NotMerged

  /** `HighByteToReorderingToken`: the 256-slot table and whether `cleanup`
      has run. Before `cleanup` every slot has its own object. */
  class HighByteToReorderingToken {
    var highByteToReorderingToken: array<ReorderingTokens>
    var mergedScripts: bool
    ghost var Repr: set<object>

    ghost predicate Valid()
      reads this, Repr
    {
      highByteToReorderingToken in Repr
      && highByteToReorderingToken.Length == SLOT_COUNT
      && (forall j :: 0 <= j < SLOT_COUNT ==> highByteToReorderingToken[j] in Repr)
      && (!mergedScripts ==> forall i, j :: 0 <= i < j < SLOT_COUNT ==>
            highByteToReorderingToken[i] != highByteToReorderingToken[j])
    }

    /** The tag set of every slot. */
    ghost function View(): (v: seq<set<string>>)
      reads this, Repr
      requires Valid()
      ensures |v| == SLOT_COUNT
    {
      ContentsOf(highByteToReorderingToken[..])
    }

    /** Seeds TERMINATOR, LEVEL-SEPARATOR, FIELD-SEPARATOR and SPACE into slots
        0-3 and IMPLICIT, TRAILING and SPECIAL into the layout's ranges. */
    constructor (layout: LeadByteLayout)
      requires InBounds(layout)
      ensures Valid() && fresh(Repr) && !mergedScripts
      ensures forall k :: 0 <= k < SLOT_COUNT ==> View()[k] == SeedTags(layout, k)
    {
      var table := SeededTable(layout);
      highByteToReorderingToken := table;
      mergedScripts := false;
      Repr := {table} + set j | 0 <= j < SLOT_COUNT :: table[j];
    }

    /** `addScriptsIn`: adds the script tags of a sample to the slot of its
        primary's lead byte, except lead byte 0, which is never touched. The
        tags reach every slot sharing that slot's object; before `cleanup`
        that is the slot alone. */
    method AddScriptsIn(leadByte: int, tags: set<string>)
      requires Valid() && 0 <= leadByte < SLOT_COUNT
      modifies Repr
      ensures Valid() && Repr == old(Repr) && mergedScripts == old(mergedScripts)
      ensures highByteToReorderingToken == old(highByteToReorderingToken)
      ensures forall j :: 0 <= j < SLOT_COUNT ==>
        View()[j] == (if leadByte != 0 && highByteToReorderingToken[j] == highByteToReorderingToken[leadByte]
                      then old(View())[j] + tags else old(View())[j])
      ensures View()[0] == old(View())[0] || mergedScripts
      ensures !mergedScripts ==> forall j :: 0 <= j < SLOT_COUNT && j != leadByte ==>
        View()[j] == old(View())[j]
    {
      if leadByte != 0 {
        highByteToReorderingToken[leadByte].AddAll(tags);
      }
    }

    /** `cleanup`: copies every slot into a fresh object, merges overlapping
        neighbours to a fixed point, applies the overrides in ascending order
        and fills empty slots with {Hani, Hans, Hant}. `afterMerge` is the
        table as the merge left it. */
    method Cleanup(overrides: map<int, string>) returns (ghost afterMerge: seq<set<string>>)
      requires Valid()
      requires forall k :: k in overrides ==> 0 <= k < SLOT_COUNT
      modifies this, highByteToReorderingToken
      ensures Valid() && mergedScripts
      ensures highByteToReorderingToken == old(highByteToReorderingToken)
      ensures |afterMerge| == SLOT_COUNT && NoAdjacentOverlap(afterMerge)
      ensures forall k :: 0 <= k < SLOT_COUNT ==>
        old(View())[k] <= afterMerge[k] <= UnionOf(old(View()))
      ensures BelowEveryClosure(old(View()), afterMerge)
      ensures Contiguous(highByteToReorderingToken[..])
      ensures Coherent(highByteToReorderingToken[..], afterMerge)
      ensures SharedNonEmpty(highByteToReorderingToken[..], afterMerge)
      ensures forall k :: 0 <= k < SLOT_COUNT ==>
        var last := LastOverride(highByteToReorderingToken[..], overrides, SLOT_COUNT, k);
        View()[k] == (if last >= 0 then {overrides[last]} else Filled(afterMerge[k]))
      ensures forall k :: 0 <= k < SLOT_COUNT && k in overrides ==> |View()[k]| == 1
      ensures forall k :: 0 <= k < SLOT_COUNT ==> View()[k] != {}
    {
      mergedScripts := true;
      var table := highByteToReorderingToken;
      ghost var start := ContentsOf(table[..]);
      assert start == old(View());
      var merged, objs := CopyAndMerge(table);
      afterMerge := ContentsOf(merged[..]);
      ghost var slots := merged[..];
      assert Coherent(slots, afterMerge);
      OverrideAndStore(merged, objs, overrides, table);
      assert table[..] == slots;
      Repr := {table} + objs;
      assert View() == ContentsOf(table[..]);
    }

    /** `toString`: the tag set of every slot; it fails before `cleanup`. */
    method ToString() returns (r: Result<seq<set<string>>, ReadError>)
      requires Valid()
      ensures r.Err? <==> !mergedScripts
      ensures r.Ok? ==> r.value == View()
    {
      if !mergedScripts {
        return Err(NotMerged);
      }
      var slots: seq<set<string>> := [];
      var k := 0;
      while k < SLOT_COUNT
        invariant 0 <= k <= SLOT_COUNT
        invariant slots == View()[..k]
      {
        slots := slots + [highByteToReorderingToken[k].reorderingToken];
        k := k + 1;
      }
      return Ok(slots);
    }

    /** `getInfo` for reordering tokens: for each tag, the lead bytes whose
        slot holds it; it fails before `cleanup`. */
    method GetInfo() returns (r: Result<map<string, set<int>>, ReadError>)
      requires Valid()
      ensures r.Err? <==> !mergedScripts
      ensures r.Ok? ==> forall tag, k :: 0 <= k < SLOT_COUNT ==>
        (tag in r.value && k in r.value[tag] <==> tag in View()[k])
      ensures r.Ok? ==> forall tag :: tag in r.value ==>
        forall k :: k in r.value[tag] ==> 0 <= k < SLOT_COUNT
    {
      if !mergedScripts {
        return Err(NotMerged);
      }
      var info: map<string, set<int>> := map[];
      var k := 0;
      while k < SLOT_COUNT
        invariant 0 <= k <= SLOT_COUNT
        invariant forall tag, j :: 0 <= j < SLOT_COUNT ==>
          (tag in info && j in info[tag] <==> j < k && tag in View()[j])
        invariant forall tag :: tag in info ==> forall j :: j in info[tag] ==> 0 <= j < k
      {
        var tags := highByteToReorderingToken[k].reorderingToken;
        info := map tag | tag in info.Keys + tags ::
          (if tag in info then info[tag] else {}) + (if tag in tags then {k} else {});
        k := k + 1;
      }
      return Ok(info);
    }
  }
}
