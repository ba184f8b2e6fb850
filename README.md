# FractionalUCA weight engine in Dafny

This project models the weight-compaction and bookkeeping engine of
`FractionalUCA.java`. That class is the generator of the fractional collation
table of the Unicode Collation Algorithm, as CLDR publishes it in its
FractionalUCA format. The model covers:

- **Secondary compaction** (`secondary_compaction.dfy`). The rank table gives
  each used secondary a dense rank. `fixSecondary2` encodes a rank as a 1- or
  2-byte weight. `fixSecondary` composes the two.
- **Tertiary compaction** (`tertiary_compaction.dfy`). `fixTertiary` closes
  the gap at 7, maps to odd weights from the common tertiary upward and ORs
  in the case bits.
- **The self-check `checkFixes`** (`fixes_check.dfy`). It sweeps both domains
  and throws on the first weight that is out of range. Its order tests compare
  each weight with a `lastVal` that is never updated, so they cannot fire (see
  "## Findings").
- **Weight helpers** (`weights.dfy`):
  - left-justification (`MinMaxFCE.fixWeight` and `FractionalStatistics.leftJustify`);
  - `sameTopByte`;
  - the live order test of `checkGap` and the statistics sweep that calls it;
  - the variable-top arithmetic.
- **Boundary tracking** (`boundary_tracking.dfy`):
  - `MinMaxFCE`, a min or max tracker over left-justified (p, s, t) keys;
  - the rule that decides which trackers each collation element feeds;
  - the fallbacks for trackers left unset;
  - the two overlap tests that are only logged.
- **The lead-byte token table** (`reordering_tokens.dfy`).
  `HighByteToReorderingToken` is a 256-slot array of `ReorderingTokens`
  objects:
  - the constructor seeds reserved tags;
  - `addScriptsIn` adds script tags, but never to lead byte 0;
  - `cleanup` copies the slots, merges overlapping neighbours to a fixed
    point by aliasing one object into several slots, applies overrides, and
    fills empty slots with {Hani, Hans, Hant};
  - the reads fail until `cleanup` has run.
- **`FakeString`** (`fake_string.dfy`), the generator of placeholder strings.

Supporting modules:

- `failures.dfy` holds `Option`, `Result` and `Outcome`, which stand for
  Java's null and its exceptions.
- `java_bits.dfy` holds the 32-bit Java `int` view: an `Int32` newtype,
  unsigned masking and sign wrapping.

Decisions the model makes:

- `Fractional.COMMON_SEC` and `Fractional.COMMON_TER` are not part of this
  model. Both are named constants equal to 5. The common weights 0x500 / 5
  used by the generator, and the comment that the offset top is "at least
  87", show this value.
- `CaseBit` is not part of this model. The case class is an input:
  - lower, mixed and upper put 0x00, 0x40 and 0x80 into bits 7..6;
  - `checkFixes` takes the tertiary-to-case-class table as a function
    parameter.
- `Fractional.IMPLICIT_BASE_BYTE`, `IMPLICIT_MAX_BYTE` and `SPECIAL_BASE`
  are not part of this model. They are the fields of a `LeadByteLayout`
  parameter.
- `Fractional.getLeadByte` and `ReorderingTokens.addInfoFrom` are not part of
  this model. `AddScriptsIn` takes the lead byte and the set of tags directly.
- `ReorderingTokens` is not part of this model. It is a class holding a
  mutable `set<string>`:
  - `intersects` is a non-empty intersection;
  - `equals` is set equality;
  - `or` is in-place union;
  - `setScripts(t)` makes the set {t}.
- The Java objects are real Dafny objects, so the aliasing that `cleanup`
  creates is part of the model. An override written to one slot shows in
  every slot that shares its object.
- The overrides come from a `TreeMap`, so they are applied in ascending
  lead-byte order.
- An element of the main loop carries whether its UCA primary is an implicit
  lead primary. Such an element stands for the lead CE together with the
  continuation CE the loop steps over, and it feeds no tracker.
- The merge of `cleanup` is specified by what it computes, not by its passes:
  the least sequence above the starting slots with no overlapping
  neighbours. Slots left sharing an object form one contiguous run with one
  non-empty tag set.

Behaviour worth knowing, all proved:

- `checkFixes` passes exactly when no swept raw tertiary (2..0x1E, without 7)
  is classed as mixed case. The mask `& 0x7F` strips only the upper case bit,
  so a mixed tertiary lands above 0x3D. The source's own comment says mixed
  "never happens". The secondary half of the sweep always passes.
- The statistics sweep only calls `checkGap` when the previous key is
  non-negative. Keys whose lead byte is 0x80 or more are negative Java ints,
  so they skip the test.
- The tertiary-ignorable and implicit trackers are never fed by the main
  loop. They always take their fallback or their unconditional values.

## Model

| member | source | states |
|---|---|---|
| JavaBits.ToUnsigned32 | uca63/org/unicode/text/UCA/FractionalUCA.java:225 | `weight & INT_MASK`: the unsigned value below 2^32 congruent to the int, equal to it when non-negative |
| JavaBits.ToSigned32 | uca63/org/unicode/text/UCA/FractionalUCA.java:369-371 | the Java int whose unsigned pattern is the given 32-bit value (the wrap of `key0 <<= 8`) |
| JavaBits.IsEven | uca63/org/unicode/text/UCA/FractionalUCA.java:1614-1616 | `(x & 1) == 0` holds exactly when the low bit of the 32-bit pattern is clear |
| SecondaryCompaction.FixSecondary2Shape | uca63/org/unicode/text/UCA/FractionalUCA.java:1483-1512 | rank 0 gives 0, rank 1 gives COMMON_SEC << 8; a higher rank gives a two-byte weight exactly when its doubled and offset top exceeds 0xD0 (rank 38 and up) |
| SecondaryCompaction.TwoByteSplit | uca63/org/unicode/text/UCA/FractionalUCA.java:1496-1508 | the two-byte split puts the quotient plus 0xD0 in the top byte and twice the remainder plus COMMON_SEC in the bottom byte, an odd value from COMMON_SEC to 0xFF (the 0xFD bound of the swept ranks is FixSecondary2ByteRules) |
| SecondaryCompaction.FixSecondary2StrictlyIncreasing | uca63/org/unicode/text/UCA/FractionalUCA.java:1411-1415 | for any fixed gap ranks, a larger rank gives a strictly larger weight |
| SecondaryCompaction.FixSecondary2ByteRules | uca63/org/unicode/text/UCA/FractionalUCA.java:1416-1424 | every rank up to 0x16E passes the byte-range rules of the self-check (top 0 or in [COMMON_SEC, 0xEF] and not in (COMMON_SEC, 0x87); a non-zero bottom odd in [COMMON_SEC, 0xFD]; a single-byte top odd) |
| SecondaryCompaction.RankTableStrictlyIncreasing | uca63/org/unicode/text/UCA/FractionalUCA.java:653-661 | used secondaries get strictly increasing ranks in ascending order of value |
| SecondaryCompaction.RankTableBelowCount | uca63/org/unicode/text/UCA/FractionalUCA.java:653-661 | every rank is below the number of used secondaries |
| SecondaryCompaction.RankTableConsecutive | uca63/org/unicode/text/UCA/FractionalUCA.java:653-661 | every rank 0, 1, 2, ... below the count is taken by some used secondary (ranks are consecutive) |
| SecondaryCompaction.CountUsedGrows | uca63/org/unicode/text/UCA/FractionalUCA.java:655-656 | `subtotal++` strictly grows past each used secondary |
| SecondaryCompaction.CompactSecondaryTable.constructor | uca63/org/unicode/text/UCA/FractionalUCA.java:653-661 | the loop fills the array with exactly the rank table of the used set |
| SecondaryCompaction.CompactSecondaryTable.FixSecondary | uca63/org/unicode/text/UCA/FractionalUCA.java:1478-1481 | succeeds exactly when the secondary and gap secondary 0x157 index the table; otherwise the index error names the first index that fails: the secondary itself, then 0x153, then 0x157 |
| SecondaryCompaction.FixSecondaryPreservesOrder | uca63/org/unicode/text/UCA/FractionalUCA.java:1478-1481 | a larger used raw secondary encodes to a strictly larger weight |
| SecondaryCompaction.FixSecondaryOfUnused | uca63/org/unicode/text/UCA/FractionalUCA.java:1478-1481 | an unused secondary keeps rank 0 and encodes to 0 |
| TertiaryCompaction.FixTertiaryDomain | uca63/org/unicode/text/UCA/FractionalUCA.java:1514-1529 | 0 gives 0; 1 and 7 throw "illegal"; 0x20 and above throw "too large"; it succeeds exactly on 0 and 2..0x1F without 7 |
| TertiaryCompaction.FixTertiaryCommon | uca63/org/unicode/text/UCA/FractionalUCA.java:1522-1524 | raw 2 maps to COMMON_TER before the case bits |
| TertiaryCompaction.FixTertiaryCaseBitsSeparate | uca63/org/unicode/text/UCA/FractionalUCA.java:1531-1540 | the OR of the case bits never touches the ordinal part: `& 0x3F` recovers it, and the rest is exactly the case bits |
| TertiaryCompaction.FixTertiaryRange | uca63/org/unicode/text/UCA/FractionalUCA.java:1443 | with case bits stripped, each non-zero result is odd and in [COMMON_TER, 0x3D] |
| TertiaryCompaction.FixTertiaryStrictlyIncreasing | uca63/org/unicode/text/UCA/FractionalUCA.java:1430-1441 | with case bits stripped, results increase strictly over the valid tertiaries, whatever the case classes |
| TertiaryCompaction.FixTertiaryRoundTrip | uca63/org/unicode/text/UCA/FractionalUCA.java:1514-1529 | the stripped weight determines the raw tertiary: `UnfixTertiary` inverts it |
| FixesCheck.MaskedTertiaryCases | uca63/org/unicode/text/UCA/FractionalUCA.java:1435-1436 | after `& 0x7F`, lower and upper leave the ordinal weight and mixed raises it by 0x40 |
| FixesCheck.OrderTest | uca63/org/unicode/text/UCA/FractionalUCA.java:1415-1418 | passes exactly when the value lies above `lastVal`, otherwise fails "Unordered" on the pair |
| FixesCheck.OrderTestMissesDescent | uca63/org/unicode/text/UCA/FractionalUCA.java:1409-1418 | with `lastVal` fixed at -1 a descent from 5 to 3 passes, where a `lastVal` following the sweep rejects it |
| FixesCheck.CheckSecondaryFixes | uca63/org/unicode/text/UCA/FractionalUCA.java:1407-1427 | the secondary sweep over ranks 0..0x16E, testing order against the never-updated -1, never throws |
| FixesCheck.CheckSecondaryFixesIntended | uca63/org/unicode/text/UCA/FractionalUCA.java:1409-1427 | with `lastVal` following the sweep the secondary sweep still never throws: the weights strictly increase |
| FixesCheck.TertiaryRangeTest | uca63/org/unicode/text/UCA/FractionalUCA.java:1441-1444 | passes exactly when the value is 0 or odd in [COMMON_TER, 0x3D], otherwise fails "out of range" on it |
| FixesCheck.MaskedTertiaryBelowLater | uca63/org/unicode/text/UCA/FractionalUCA.java:1430-1440 | a masked lower-case tertiary lies below that of every larger valid raw tertiary |
| FixesCheck.CheckTertiaryFixes | uca63/org/unicode/text/UCA/FractionalUCA.java:1430-1445 | the tertiary sweep, testing order against the never-updated -1, passes exactly when no swept tertiary is mixed; otherwise it throws "out of range" at the first mixed one |
| FixesCheck.CheckTertiaryFixesIntended | uca63/org/unicode/text/UCA/FractionalUCA.java:1430-1445 | with `lastVal` following the sweep the outcome is the same: the order test never fires, and it fails only "out of range" at the first mixed tertiary |
| FixesCheck.CheckFixes | uca63/org/unicode/text/UCA/FractionalUCA.java:1407-1447 | the whole self-check passes exactly when no swept tertiary is mixed, and its only failure is the tertiary range error |
| WeightUtil.LeftJustified | uca63/org/unicode/text/UCA/FractionalUCA.java:224-233 | stays below 2^32; zero exactly when the input is zero; a non-zero result has a non-zero lead byte |
| WeightUtil.LeftJustifiedIsByteShift | uca63/org/unicode/text/UCA/FractionalUCA.java:224-233 | the result is the input shifted left by exactly its leading zero bytes, and one byte less would leave bits 31..24 empty |
| WeightUtil.LeftJustifiedIdempotent | uca63/org/unicode/text/UCA/FractionalUCA.java:224-233 | left-justifying twice is the same as once |
| WeightUtil.FixWeight | uca63/org/unicode/text/UCA/FractionalUCA.java:224-233 | the masking and shifting loop computes the left-justified unsigned weight |
| WeightUtil.LeftJustify | uca63/org/unicode/text/UCA/FractionalUCA.java:367-374 | the int-wrapping loop yields a Java int whose unsigned pattern is the left-justified input |
| WeightUtil.SameTopByte | uca63/org/unicode/text/UCA/FractionalUCA.java:1554-1563 | true exactly when both primaries have their leading byte (byte 2, or byte 1 when byte 2 is zero in both) at the same position with the same value |
| WeightUtil.CheckGap | uca63/org/unicode/text/UCA/FractionalUCA.java:489-493 | passes exactly when weight1 < weight2 (signed); otherwise fails with "out of order" on the two weights |
| WeightUtil.CheckGapSweep | uca63/org/unicode/text/UCA/FractionalUCA.java:448-455 | passes exactly when every consecutive pair whose first key is non-negative is in order; otherwise fails on such a pair |
| WeightUtil.SortedKeysPassSweep | uca63/org/unicode/text/UCA/FractionalUCA.java:448-455 | keys in sorted-map order satisfy every test the sweep makes |
| WeightUtil.VariableTopSeparatesLeadBytes | uca63/org/unicode/text/UCA/FractionalUCA.java:1069-1070 | a left-justified weight is at or below the variable top exactly when its lead byte is below that of the first symbol primary |
| BoundaryTracking.JustifiedKeyBetweenSentinels | uca63/org/unicode/text/UCA/FractionalUCA.java:184-185 | left-justified keys lie strictly between `Long.MIN_VALUE` and `Long.MAX_VALUE` |
| BoundaryTracking.TrackedIsFirstExtreme | uca63/org/unicode/text/UCA/FractionalUCA.java:291-336 | a tracker holds the greatest (max) or least (min) key it was given, with the source of the first candidate having that key; an empty tracker holds the sentinel and no source |
| BoundaryTracking.TrackedUnsetIffEmpty | uca63/org/unicode/text/UCA/FractionalUCA.java:216-218 | the sentinel test is true exactly while nothing has been given |
| BoundaryTracking.MinMaxFce.constructor | uca63/org/unicode/text/UCA/FractionalUCA.java:192-200 | a new tracker is valid and has been given nothing |
| BoundaryTracking.MinMaxFce.IsUnset | uca63/org/unicode/text/UCA/FractionalUCA.java:216-218 | true exactly while nothing has been set |
| BoundaryTracking.MinMaxFce.GetValue | uca63/org/unicode/text/UCA/FractionalUCA.java:278-280 | returns the tracked key at the requested level |
| BoundaryTracking.MinMaxFce.SetValue | uca63/org/unicode/text/UCA/FractionalUCA.java:291-336 | the tracker stays valid for the extended candidate list and is set afterwards |
| BoundaryTracking.MainClass | uca63/org/unicode/text/UCA/FractionalUCA.java:930-950 | each element gets exactly one of the five main classes |
| BoundaryTracking.MaskCaseBits | uca63/org/unicode/text/UCA/FractionalUCA.java:928 | `nt & 0x3F` lies in [0, 0x40) |
| BoundaryTracking.ImplicitLeadFeedsNothing | uca63/org/unicode/text/UCA/FractionalUCA.java:872-895 | an element whose primary is an implicit lead primary changes nothing any tracker receives |
| BoundaryTracking.FedFromClassedElements | uca63/org/unicode/text/UCA/FractionalUCA.java:896-950 | every key a main class receives is the full key of an element without an implicit lead primary that is classed there |
| BoundaryTracking.MainClassPartition | uca63/org/unicode/text/UCA/FractionalUCA.java:930-950 | each main class holds exactly when its condition holds, with the precedence of the if-chain |
| BoundaryTracking.NeverFed | uca63/org/unicode/text/UCA/FractionalUCA.java:923-951 | the tertiary-ignorable and implicit trackers receive nothing from the loop |
| BoundaryTracking.FedShapes | uca63/org/unicode/text/UCA/FractionalUCA.java:923-936 | secondary trackers get zero primary and tertiary; tertiary trackers get zero primary and secondary and a masked tertiary; primary-ignorable trackers get zero primaries; secondary-ignorable trackers get zero primaries and secondaries |
| BoundaryTracking.FallbackIfUnset | uca63/org/unicode/text/UCA/FractionalUCA.java:1017-1020 | when the first tracker is unset both are given the fallback key with an empty source; otherwise nothing changes |
| BoundaryTracking.FallbackSets | uca63/org/unicode/text/UCA/FractionalUCA.java:1035-1039 | after its fallback a tracker is set, and one that was unset holds exactly the fallback key |
| BoundaryTracking.LeadByteJustified | uca63/org/unicode/text/UCA/FractionalUCA.java:224-233 | a lone lead byte left-justifies to that byte times 2^24 |
| BoundaryTracking.ImplicitTrackerHolds | uca63/org/unicode/text/UCA/FractionalUCA.java:1075-1076 | the implicit trackers hold exactly their lead byte with common secondary and tertiary (0x05000000) and an empty source |
| BoundaryTracking.TrailingFallbackAfterImplicits | uca63/org/unicode/text/UCA/FractionalUCA.java:1081-1086 | the trailing fallback key sorts after the last implicit key |
| BoundaryTracking.FakeSecondaryIgnorableClearsTertiaryOverlap | uca63/org/unicode/text/UCA/FractionalUCA.java:1016-1020 | with the fake secondary ignorable, the "overlap of tertiaries" test at 1052 can never fire |
| BoundaryTracking.TrackedSecondaryIsExtreme | uca63/org/unicode/text/UCA/FractionalUCA.java:291-336 | with zero primaries, a max tracker's secondary is the greatest given and a min tracker's the least |
| BoundaryTracking.TrackedSecondariesOverlap | uca63/org/unicode/text/UCA/FractionalUCA.java:1062-1064 | the secondary overlap test fires exactly when some candidate of the first tracker reaches some candidate of the second |
| BoundaryTracking.SecondaryOverlapIff | uca63/org/unicode/text/UCA/FractionalUCA.java:1062-1064 | the "overlap of secondaries" test fires exactly when some secondary-in-primary element's secondary is at or above some primary-ignorable element's |
| BoundaryTracking.TrackedTertiaryIsExtreme | uca63/org/unicode/text/UCA/FractionalUCA.java:291-336 | with zero primaries and secondaries, a max tracker's tertiary is the greatest given and a min tracker's the least |
| BoundaryTracking.TrackedTertiariesOverlap | uca63/org/unicode/text/UCA/FractionalUCA.java:1052-1054 | the tertiary overlap test fires exactly when some candidate of the first tracker reaches some candidate of the second |
| BoundaryTracking.TertiaryOverlapIff | uca63/org/unicode/text/UCA/FractionalUCA.java:1052-1054 | the "overlap of tertiaries" test fires exactly when some tertiary-in-secondary element's masked tertiary is at or above the tertiary of some secondary-ignorable element, or of the fake key when there is none |
| ReorderingTokenMerge.ReorderingTokens.Copy | uca63/org/unicode/text/UCA/FractionalUCA.java:147 | the copy holds the same tag set |
| ReorderingTokenMerge.ReorderingTokens.Add | uca63/org/unicode/text/UCA/FractionalUCA.java:51-54 | adds one tag |
| ReorderingTokenMerge.ReorderingTokens.AddAll | uca63/org/unicode/text/UCA/FractionalUCA.java:70 | adds the sample's tags |
| ReorderingTokenMerge.ReorderingTokens.Or | uca63/org/unicode/text/UCA/FractionalUCA.java:158 | in-place union |
| ReorderingTokenMerge.ReorderingTokens.SetScripts | uca63/org/unicode/text/UCA/FractionalUCA.java:166 | replaces the tags by the single tag |
| ReorderingTokenMerge.ContentsOf | uca63/org/unicode/text/UCA/FractionalUCA.java:41 | the tag set of each slot, in slot order |
| ReorderingTokenMerge.AddToRange | uca63/org/unicode/text/UCA/FractionalUCA.java:55-63 | adds the tag to exactly the slots of the range, leaving every other slot and the array unchanged |
| ReorderingTokenMerge.SeedTagsPartition | uca63/org/unicode/text/UCA/FractionalUCA.java:50-63 | with ordered ranges every reserved slot gets exactly one tag and the slots between SPACE and the implicit range start empty |
| ReorderingTokenMerge.UnionOf | uca63/org/unicode/text/UCA/FractionalUCA.java:150-161 | every slot is within the union of all slots |
| ReorderingTokenMerge.DeficitShrinks | uca63/org/unicode/text/UCA/FractionalUCA.java:150-161 | slots growing within the union never raise the missing-tag count, and any growth strictly lowers it (the merge terminates) |
| ReorderingTokenMerge.RunEqual | uca63/org/unicode/text/UCA/FractionalUCA.java:155-156 | in a sequence with no overlapping neighbours, a run of slots sharing a non-empty subset all hold the same set |
| ReorderingTokenMerge.MergeStepGrows | uca63/org/unicode/text/UCA/FractionalUCA.java:155-159 | a merge of overlapping neighbours only grows slots, within the union, and strictly lowers the missing-tag count |
| ReorderingTokenMerge.MergeKeepsRuns | uca63/org/unicode/text/UCA/FractionalUCA.java:158-159 | after a merge, slots sharing an object still form contiguous runs with one non-empty tag set |
| ReorderingTokenMerge.MergeKeepsLeast | uca63/org/unicode/text/UCA/FractionalUCA.java:155-159 | a merge never lifts a slot above any overlap-free sequence that contains the starting slots |
| ReorderingTokenMerge.MergeStep | uca63/org/unicode/text/UCA/FractionalUCA.java:158-159 | slot k takes slot k-1's object, and exactly the slots holding that object now hold the union of the two neighbours |
| ReorderingTokenMerge.MergeIfOverlapping | uca63/org/unicode/text/UCA/FractionalUCA.java:155-160 | merges exactly when the neighbours intersect without being equal; keeps runs and the lower bound; a merge lowers the missing-tag count |
| ReorderingTokenMerge.MergePass | uca63/org/unicode/text/UCA/FractionalUCA.java:153-161 | a pass that merges nothing leaves no adjacent overlap; one that merges lowers the missing-tag count; runs and the lower bound are kept |
| ReorderingTokenMerge.MergeAdjacent | uca63/org/unicode/text/UCA/FractionalUCA.java:150-161 | on exit no two adjacent slots overlap, each slot has only grown, and the result lies below every overlap-free sequence containing the start (so it is the least one); slots sharing an object form contiguous runs with one non-empty set |
| ReorderingTokenMerge.LeastClosureUnique | uca63/org/unicode/text/UCA/FractionalUCA.java:150-161 | the merge's outcome is determined by the starting slots: two least overlap-free sequences above them are equal |
| ReorderingTokenMerge.LastOverride | uca63/org/unicode/text/UCA/FractionalUCA.java:163-167 | the result is an overridden lead byte below the bound whose slot shares the object of slot j, and no later overridden slot below the bound shares it; -1 when none does |
| ReorderingTokenMerge.OverriddenHasLastOverride | uca63/org/unicode/text/UCA/FractionalUCA.java:163-167 | an overridden slot's last override is itself or a later lead byte |
| ReorderingTokenMerge.OverrideSlot | uca63/org/unicode/text/UCA/FractionalUCA.java:166 | every slot sharing the overridden object holds exactly the tag; every other slot is unchanged |
| ReorderingTokenMerge.ApplyOverrides | uca63/org/unicode/text/UCA/FractionalUCA.java:163-167 | a slot sharing an overridden slot's object holds the tag of the last such override in ascending order; every other slot is unchanged |
| ReorderingTokenMerge.Filled | uca63/org/unicode/text/UCA/FractionalUCA.java:168-172 | never empty, and a non-empty set is kept |
| ReorderingTokenMerge.FillAndStore | uca63/org/unicode/text/UCA/FractionalUCA.java:168-175 | empty slots get {Hani, Hans, Hant}, others are unchanged, and the table takes the merged objects |
| ReorderingTokenMerge.NewEmptyTable | uca63/org/unicode/text/UCA/FractionalUCA.java:47-49 | 256 fresh, distinct, empty objects |
| ReorderingTokenMerge.SeededTable | uca63/org/unicode/text/UCA/FractionalUCA.java:44-64 | distinct fresh objects whose tags are the seed tags of each slot |
| ReorderingTokenMerge.CopyTable | uca63/org/unicode/text/UCA/FractionalUCA.java:146-148 | fresh, pairwise distinct objects with the same tags as the table |
| ReorderingTokenMerge.CopyAndMerge | uca63/org/unicode/text/UCA/FractionalUCA.java:143-161 | fresh merged objects holding the least overlap-free sequence above the table's tags; shared objects form contiguous non-empty runs |
| ReorderingTokenMerge.OverrideAndStore | uca63/org/unicode/text/UCA/FractionalUCA.java:163-175 | the table takes the merged objects; each slot holds the tag of the last override sharing its object, or else its merged tags filled with the Han tags; overridden slots hold exactly one tag and no slot is empty |
| ReorderingTokenMerge.HighByteToReorderingToken.constructor | uca63/org/unicode/text/UCA/FractionalUCA.java:44-64 | every slot holds exactly its seed tags, in its own object |
| ReorderingTokenMerge.HighByteToReorderingToken.AddScriptsIn | uca63/org/unicode/text/UCA/FractionalUCA.java:66-72 | the tags reach every slot sharing the lead byte's object, but never through lead byte 0; before `cleanup` no other slot changes |
| ReorderingTokenMerge.HighByteToReorderingToken.Cleanup | uca63/org/unicode/text/UCA/FractionalUCA.java:142-176 | the merge yields the least sequence above the old slots with no overlapping neighbours; slots left sharing an object form one contiguous run with one non-empty merged set; each slot then holds the tag of the last override sharing its object, or else its merged tags filled with the Han tags; overridden slots hold exactly one tag; no slot is empty |
| ReorderingTokenMerge.HighByteToReorderingToken.ToString | uca63/org/unicode/text/UCA/FractionalUCA.java:119-136 | fails exactly before `cleanup`; otherwise lists every slot's tags in order |
| ReorderingTokenMerge.HighByteToReorderingToken.GetInfo | uca63/org/unicode/text/UCA/FractionalUCA.java:74-77 | fails exactly before `cleanup`; otherwise maps each tag to exactly the lead bytes whose slot holds it |
| FakeStrings.FakeName | uca63/org/unicode/text/UCA/FractionalUCA.java:1209-1215 | the n-th string is U+FDD0 followed by '@' + n, until the counter wraps |
| FakeStrings.FakeNamesDistinct | uca63/org/unicode/text/UCA/FractionalUCA.java:1209-1215 | fewer than 0x10000 consecutive calls give pairwise different strings |
| FakeStrings.FakeNamesWrap | uca63/org/unicode/text/UCA/FractionalUCA.java:1212 | the 16-bit counter wraps, so the string repeats after 0x10000 calls |
| FakeStrings.FakeString.constructor | uca63/org/unicode/text/UCA/FractionalUCA.java:1210 | the buffer starts as {U+FDD0, '@'} |
| FakeStrings.FakeString.Next | uca63/org/unicode/text/UCA/FractionalUCA.java:1211-1214 | bumps the counter unit and returns the n-th fake string |

## Left out

- All file and console output of the generator: the log, summary and
  statistics writers, `formatFCE`, `getBuffer`, `showRange` and
  `padHexBytes`. Only the decisions they print are modelled.
- Text formatting in `toString` and `getInfo`. `ToString` returns the tag
  sets, `GetInfo` the map from tag to lead bytes. The hex output, the
  `COMPRESS` marker (`isCompressibleLeadByte`, an external call) and the
  counts and categories of `ReorderingTokens` are left out.
- `FractionalStatistics` recording and printing. Only the sweep that calls
  `checkGap` and `leftJustify` are modelled.
- The gap-sufficiency branch of `checkGap`, which the source switches off.
  Its thresholds are not modelled.
- The collator and the primary assignment are external collaborators:
  `UCA`, `CEList`, `PrimariesToFractional`, `ReorderCodes`, `CaseBit` and
  the Unicode property lookups. Their results are parameters: `isVariable`,
  the UCA primary, the unsupported limit, the case class, the lead byte, the
  layout constants and the first symbol primary.
- The commented-out implicit-weight code.
- TertiaryCompaction.FixTertiaryDomain: computed on unbounded integers. In
  Java `2 * (y - 2) + 5` wraps for raw tertiaries above about 2^30, so
  `fixTertiary` would return a negative weight there instead of throwing
  "too large". Raw tertiaries come from the UCA and stay below 0x20.
- The main loop's call of `addScriptsIn`, made only for the first CE of a
  string whose primary is not an implicit lead primary, is not modelled:
  `AddScriptsIn` takes the lead byte and tags it is given.
- The implicit code point computed from an implicit lead and its
  continuation is only printed, so it is not modelled.
- SecondaryCompaction.FixSecondary2: computed on unbounded integers. The
  Java `int` overflow for ranks above about 2^29 is not modelled, because
  ranks are bounded by the number of secondaries, far below that.
- ReorderingTokenMerge.HighByteToReorderingToken.Cleanup: requires every
  override key to be a lead byte in 0..255. The overrides are built from
  lead bytes, and an out-of-range key would throw
  `ArrayIndexOutOfBoundsException`, which is not modelled.
- ReorderingTokenMerge.HighByteToReorderingToken.constructor: requires the
  three reserved ranges to index the array. A layout that runs off the
  array would throw `ArrayIndexOutOfBoundsException`, which is not
  modelled.
- BoundaryTracking.MinMaxFce.SetValue: the `debugShow` printing is left
  out, and the title is kept but never printed.
- The order in which the main loop interleaves `setValue` calls across
  trackers is not modelled. Each tracker is described by the candidates it
  receives (`FedTo`), and trackers do not interact.

## Findings

| source | as written | input that shows it | evidently intended | confidence | as-written member | corrected member |
|---|---|---|---|---|---|---|
| uca63/org/unicode/text/UCA/FractionalUCA.java:1409-1418 | `lastVal` is set to -1 and never reassigned, so the order test compares every secondary weight with -1 and cannot fire | a sweep stepping down from 5 to 3 passes both tests | `lastVal = val` after each weight, so each weight is compared with the previous one | high; not executed | FixesCheck.CheckSecondaryFixes, FixesCheck.OrderTestMissesDescent | FixesCheck.CheckSecondaryFixesIntended |
| uca63/org/unicode/text/UCA/FractionalUCA.java:1430-1440 | the tertiary sweep resets `lastVal` to -1 and again never updates it, so its order test cannot fire either | a sweep stepping down from 5 to 3 passes both tests | `lastVal = val` after each weight | high; not executed | FixesCheck.CheckTertiaryFixes, FixesCheck.OrderTestMissesDescent | FixesCheck.CheckTertiaryFixesIntended |

With the intended update both sweeps still give the same outcome: the
secondary weights strictly increase (`FixSecondary2StrictlyIncreasing`), and
the masked tertiaries that pass the range test strictly increase
(`FixTertiaryStrictlyIncreasing`). So the dead test hides no failure.
