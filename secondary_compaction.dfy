/** Secondary-weight compaction: the rank table `compactSecondary` and the
    rank-to-weight transform `fixSecondary2` of FractionalUCA.java. */
module SecondaryCompaction {
  import opened Failures
  import opened JavaBits

  /** `Fractional.COMMON_SEC`: the byte of the common secondary weight. */
  const COMMON_SEC := 5
  const BYTES_TO_AVOID := 3
  const OTHER_COUNT := 256 - BYTES_TO_AVOID
  /** Values per second byte of a two-byte secondary: `OTHER_COUNT / 2`,
      written out as a literal so that the solver divides by a constant. */
  const LAST_COUNT := 126
  /** Tops above this value make a two-byte secondary. */
  const SECONDARY_DOUBLE_START := 0xD0
  /** The largest rank swept by the start-up self-check. */
  const CHECKED_MAX_RANK := 0x16E
  /** The secondaries after which `fixSecondary` leaves extra room. */
  const GAP1_SECONDARY := 0x153
  const GAP2_SECONDARY := 0x157

  /** The top byte before the two-byte split: the rank doubled, moved above the
      common byte, with the legacy +2 at 149. */
  function DoubledTop(x: nat): int {
    var top := x * 2 + 0x80 + COMMON_SEC - 2;
    if top >= 149 then top + 2 else top
  }

  /** The widened offset of a two-byte secondary, with the room reserved after
      the ranks `gap1` and `gap2`. */
  function WidenedOffset(x: nat, gap1: int, gap2: int): int {
    (DoubledTop(x) - SECONDARY_DOUBLE_START) * 4
      + (if x > gap1 then 256 else 0)
      + (if x > gap2 then 64 else 0)
  }

  /** The encoded weight `(top << 8) | bottom` of rank `x`. The bottom byte is
      always below 256, so the bitwise or is an addition here. */
  function FixSecondary2(x: nat, gap1: int, gap2: int): int {
    if x == 0 then 0
    else if x == 1 then COMMON_SEC * 256
    else if DoubledTop(x) > SECONDARY_DOUBLE_START then
      var t := WidenedOffset(x, gap1, gap2);
      var bottom := (t % LAST_COUNT) * 2 + COMMON_SEC;
      var top := t / LAST_COUNT + SECONDARY_DOUBLE_START;
      top * 256 + bottom
    else
      DoubledTop(x) * 256
  }

  function TopByte(v: nat): nat { v / 256 }
  function BottomByte(v: nat): nat { v % 256 }

  /** The byte rules the self-check enforces on every encoded secondary. */
  predicate SecondaryInRange(v: nat) {
    var top := TopByte(v);
    var bottom := BottomByte(v);
    !((top != 0 && (top < COMMON_SEC || top > 0xEF))
      || (top > COMMON_SEC && top < 0x87)
      || (bottom != 0 && (IsEven(bottom) || bottom < COMMON_SEC || bottom > 0xFD))
      || (bottom == 0 && top != 0 && IsEven(top)))
  }

  /** Rank 0 encodes as 0 and rank 1 as the common byte; a higher rank takes two
      bytes exactly when its doubled top exceeds 0xD0, which is from rank 38 on. */
  lemma FixSecondary2Shape(x: nat, gap1: int, gap2: int)
    ensures x == 0 ==> FixSecondary2(x, gap1, gap2) == 0
    ensures x == 1 ==> FixSecondary2(x, gap1, gap2) == COMMON_SEC * 256
    ensures x >= 2 ==>
      (BottomByte(FixSecondary2(x, gap1, gap2)) != 0 <==> DoubledTop(x) > SECONDARY_DOUBLE_START)
    ensures x >= 2 ==> (BottomByte(FixSecondary2(x, gap1, gap2)) != 0 <==> x >= 38)
  {
    if x >= 2 && DoubledTop(x) > SECONDARY_DOUBLE_START {
      var t := WidenedOffset(x, gap1, gap2);
      TwoByteSplit(t);
    }
  }

  /** Splitting a non-negative offset into the quotient plus 0xD0 in the top
      byte and twice the remainder plus the common byte in the bottom byte: an
      odd value from COMMON_SEC up to 0xFF (the tighter 0xFD bound needs an
      offset divisible by 4, see `FixSecondary2ByteRules`). */
  lemma TwoByteSplit(t: int)
    requires t >= 0
    ensures var v := (t / LAST_COUNT + SECONDARY_DOUBLE_START) * 256 + (t % LAST_COUNT) * 2 + COMMON_SEC;
      TopByte(v) == t / LAST_COUNT + SECONDARY_DOUBLE_START && BottomByte(v) == (t % LAST_COUNT) * 2 + COMMON_SEC
    ensures var b := (t % LAST_COUNT) * 2 + COMMON_SEC; b % 2 == 1 && COMMON_SEC <= b <= 0xFF
  {
    var top := t / LAST_COUNT + SECONDARY_DOUBLE_START;
    var bottom := (t % LAST_COUNT) * 2 + COMMON_SEC;
    assert 0 <= bottom < 256;
    DivModUnique(top * 256 + bottom, top, bottom);
  }

  lemma DivModUnique(v: int, q: int, r: int)
    requires 0 <= r < 256 && v == q * 256 + r
    ensures v / 256 == q && v % 256 == r
  {
  }

  /** Larger offsets give larger two-byte weights. */
  lemma SplitMonotone(t1: int, t2: int)
    requires 0 <= t1 < t2
    ensures (t1 / LAST_COUNT) * 256 + (t1 % LAST_COUNT) * 2
          < (t2 / LAST_COUNT) * 256 + (t2 % LAST_COUNT) * 2
  {
    var q1, r1 := t1 / 126, t1 % 126;
    var q2, r2 := t2 / 126, t2 % 126;
    assert t1 == q1 * 126 + r1 && 0 <= r1 < 126;
    assert t2 == q2 * 126 + r2 && 0 <= r2 < 126;
    if q1 < q2 {
      assert q1 * 256 + r1 * 2 < (q1 + 1) * 256;
      assert (q1 + 1) * 256 <= q2 * 256;
    } else {
      assert q1 <= q2;
      assert r1 < r2;
    }
  }

  /** The encoded weight is strictly increasing in the rank, whatever the gap ranks. */
  lemma FixSecondary2StrictlyIncreasing(x1: nat, x2: nat, gap1: int, gap2: int)
    requires x1 < x2
    ensures FixSecondary2(x1, gap1, gap2) < FixSecondary2(x2, gap1, gap2)
  {
    if x1 >= 2 {
      var d1 := DoubledTop(x1) > SECONDARY_DOUBLE_START;
      var d2 := DoubledTop(x2) > SECONDARY_DOUBLE_START;
      assert DoubledTop(x1) < DoubledTop(x2);
      if d1 {
        var t1 := WidenedOffset(x1, gap1, gap2);
        var t2 := WidenedOffset(x2, gap1, gap2);
        assert 0 <= t1 < t2;
        SplitMonotone(t1, t2);
      } else if d2 {
        var t2 := WidenedOffset(x2, gap1, gap2);
        assert t2 >= 0;
        assert DoubledTop(x1) * 256 < SECONDARY_DOUBLE_START * 256 + 256;
      }
    } else if x2 >= 2 && DoubledTop(x2) > SECONDARY_DOUBLE_START {
      assert WidenedOffset(x2, gap1, gap2) >= 0;
    }
  }

  /** Over the ranks the self-check sweeps, every encoded secondary obeys the
      byte rules: top byte 0 or in [COMMON_SEC, 0xEF] outside (COMMON_SEC, 0x87),
      a non-zero bottom byte odd in [COMMON_SEC, 0xFD], a lone top byte odd. */
  lemma FixSecondary2ByteRules(x: nat, gap1: int, gap2: int)
    requires x <= CHECKED_MAX_RANK
    ensures SecondaryInRange(FixSecondary2(x, gap1, gap2))
  {
    var v := FixSecondary2(x, gap1, gap2);
    if x == 0 {
    } else if x == 1 {
      DivModUnique(v, COMMON_SEC, 0);
    } else if DoubledTop(x) > SECONDARY_DOUBLE_START {
      var k := DoubledTop(x) - SECONDARY_DOUBLE_START
        + (if x > gap1 then 64 else 0) + (if x > gap2 then 16 else 0);
      assert WidenedOffset(x, gap1, gap2) == 4 * k;
      assert DoubledTop(x) <= 865;
      TwoByteRules(k);
    } else {
      DivModUnique(v, DoubledTop(x), 0);
      assert !IsEven(DoubledTop(x));
    }
  }

  /** A two-byte secondary with an offset of at most 2948 (rank 0x16E with both
      gaps) obeys the byte rules. */
  lemma TwoByteRules(k: int)
    requires 0 <= k <= 737
    ensures var t := 4 * k;
      SecondaryInRange((t / LAST_COUNT + SECONDARY_DOUBLE_START) * 256 + (t % LAST_COUNT) * 2 + COMMON_SEC)
  {
    var t := 4 * k;
    var q, m := t / 126, t % 126;
    assert t == q * 126 + m && 0 <= m < 126;
    assert q <= 23;
    var w := 2 * k - 63 * q;
    assert m == 2 * w;
    assert w <= 62;
    TwoByteSplit(t);
    var b := m * 2 + COMMON_SEC;
    assert b == 4 * w + 5;
    assert b % 2 == 1;
    BytesInRange((q + SECONDARY_DOUBLE_START) * 256 + b, q + SECONDARY_DOUBLE_START, b);
  }

  lemma BytesInRange(v: nat, top: int, bottom: int)
    requires TopByte(v) == top && BottomByte(v) == bottom
    requires SECONDARY_DOUBLE_START <= top <= 0xEF
    requires COMMON_SEC <= bottom <= 0xFD && bottom % 2 == 1
    ensures SecondaryInRange(v)
  {
  }

  // ---------------------------------------------------------------------
  // The rank table `compactSecondary`.

  /** How many secondaries of `used` are in use. */
  function CountUsed(used: seq<bool>): nat {
    if used == [] then 0
    else CountUsed(used[..|used| - 1]) + (if used[|used| - 1] then 1 else 0)
  }

  /** The table the generator builds: each used secondary gets the number of used
      secondaries below it; an unused one keeps Java's initial 0. */
  function RankTable(used: seq<bool>): (table: seq<int>)
    ensures |table| == |used|
  {
    seq(|used|, i requires 0 <= i < |used| => if used[i] then CountUsed(used[..i]) else 0)
  }

  lemma {:induction false} CountUsedBound(used: seq<bool>)
    ensures CountUsed(used) <= |used|
  {
    if used != [] {
      CountUsedBound(used[..|used| - 1]);
    }
  }

  /** A used secondary at `i` is counted before every later prefix end `j`. */
  lemma {:induction false} CountUsedGrows(used: seq<bool>, i: nat, j: nat)
    requires i < j <= |used| && used[i]
    ensures CountUsed(used[..i]) < CountUsed(used[..j])
  {
    var p := used[..j];
    assert p[..j - 1] == used[..j - 1];
    if j - 1 == i {
      assert p[j - 1] == used[i];
    } else {
      CountUsedGrows(used, i, j - 1);
    }
  }

  /** The table gives used secondaries strictly increasing ranks. */
  lemma RankTableStrictlyIncreasing(used: seq<bool>, i: nat, j: nat)
    requires i < j < |used| && used[i] && used[j]
    ensures RankTable(used)[i] < RankTable(used)[j]
  {
    CountUsedGrows(used, i, j);
  }

  /** Every used secondary's rank is below the number of used secondaries. */
  lemma RankTableBelowCount(used: seq<bool>, i: nat)
    requires i < |used| && used[i]
    ensures 0 <= RankTable(used)[i] < CountUsed(used)
  {
    assert used[..|used|] == used;
    CountUsedGrows(used, i, |used|);
  }

  /** The ranks of the used secondaries are exactly 0, 1, ..., CountUsed(used) - 1:
      every such rank belongs to some used secondary. */
  lemma {:induction false} RankTableConsecutive(used: seq<bool>, r: nat)
    requires r < CountUsed(used)
    ensures exists i :: 0 <= i < |used| && used[i] && RankTable(used)[i] == r
  {
    var n := |used|;
    var front := used[..n - 1];
    if r < CountUsed(front) {
      RankTableConsecutive(front, r);
      var i :| 0 <= i < |front| && front[i] && RankTable(front)[i] == r;
      assert used[..i] == front[..i];
      assert used[i] && RankTable(used)[i] == r;
    } else {
      assert used[n - 1] && r == CountUsed(front);
      assert used[..n - 1] == front;
      assert RankTable(used)[n - 1] == r;
    }
  }

  /** `ArrayIndexOutOfBoundsException` from the table lookups. */
  datatype IndexError = IndexOutOfBounds(index: int)

  /** The run-scoped rank table, filled once from the set of used secondaries. */
  class CompactSecondaryTable {
    var compactSecondary: array<int>
    ghost const used: seq<bool>

    ghost predicate Valid()
      reads this, compactSecondary
    {
      compactSecondary[..] == RankTable(used)
    }

    /** Builds the table by one ascending sweep over the secondaries. */
    constructor (secondarySet: seq<bool>)
      ensures used == secondarySet
      ensures Valid() && fresh(compactSecondary)
    {
      used := secondarySet;
      var table := new int[|secondarySet|](_ => 0);
      var subtotal := 0;
      for secondary := 0 to table.Length
        invariant subtotal == CountUsed(secondarySet[..secondary])
        invariant forall j :: 0 <= j < secondary ==> table[j] == RankTable(secondarySet)[j]
        invariant forall j :: secondary <= j < table.Length ==> table[j] == 0
      {
        assert secondarySet[..secondary + 1][..secondary] == secondarySet[..secondary];
        if secondarySet[secondary] {
          table[secondary] := subtotal;
          subtotal := subtotal + 1;
        }
      }
      compactSecondary := table;
    }

    /** `fixSecondary`: encodes a raw secondary through its rank, with the gap
        ranks of the secondaries 0x153 and 0x157. */
    function FixSecondary(x: int): (r: Result<int, IndexError>)
      reads this, compactSecondary
      requires Valid()
      ensures r.Ok? <==> 0 <= x < |used| && GAP2_SECONDARY < |used|
      ensures r.Err? && !(0 <= x < |used|) ==> r.error == IndexOutOfBounds(x)
      ensures r.Err? && 0 <= x < |used| ==>
        r.error == IndexOutOfBounds(if |used| <= GAP1_SECONDARY then GAP1_SECONDARY else GAP2_SECONDARY)
    {
      var n := compactSecondary.Length;
      if !(0 <= x < n) then Err(IndexOutOfBounds(x))
      else if GAP1_SECONDARY >= n then Err(IndexOutOfBounds(GAP1_SECONDARY))
      else if GAP2_SECONDARY >= n then Err(IndexOutOfBounds(GAP2_SECONDARY))
      else
        assert compactSecondary[x] == RankTable(used)[x];
        assert RankTable(used)[x] >= 0;
        Ok(FixSecondary2(compactSecondary[x], compactSecondary[GAP1_SECONDARY], compactSecondary[GAP2_SECONDARY]))
    }
  }

  /** Compaction preserves the order of the used secondaries: a larger used raw
      secondary gets a strictly larger encoded weight. */
  lemma FixSecondaryPreservesOrder(table: CompactSecondaryTable, i: nat, j: nat)
    requires table.Valid() && GAP2_SECONDARY < |table.used|
    requires i < j < |table.used| && table.used[i] && table.used[j]
    ensures table.FixSecondary(i).Ok? && table.FixSecondary(j).Ok?
    ensures table.FixSecondary(i).value < table.FixSecondary(j).value
  {
    RankTableStrictlyIncreasing(table.used, i, j);
    var t := table.compactSecondary;
    assert t[i] == RankTable(table.used)[i] && t[j] == RankTable(table.used)[j];
    FixSecondary2StrictlyIncreasing(t[i], t[j], t[GAP1_SECONDARY], t[GAP2_SECONDARY]);
  }

  /** An unused secondary compacts to rank 0 and so encodes as 0, like the
      ignorable secondary. */
  lemma FixSecondaryOfUnused(table: CompactSecondaryTable, x: nat)
    requires table.Valid() && GAP2_SECONDARY < |table.used|
    requires x < |table.used| && !table.used[x]
    ensures table.FixSecondary(x) == Ok(0)
  {
    assert table.compactSecondary[x] == RankTable(table.used)[x];
  }
}
