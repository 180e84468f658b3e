/**
 * The pillar overview cards: per-pillar owner lists, indicator lists and sub-pillar lists,
 * the score and rank badges, the pillar palettes and the two-point score sparkline.
 */
module PillarsBento {
  import opened Wrappers
  import opened Seqs
  import opened Text
  import opened Indicators

  // ---------------------------------------------------------------- data owners

  /** The row belongs to the pillar and names a data owner. */
  predicate OwnedInPillar(pillar: string, i: Indicator)
  {
    i.pillar == pillar && i.dataOwner != ""
  }

  /** The data owner of every row, in order. */
  function OwnerColumn(rows: seq<Indicator>): (r: seq<string>)
    ensures |r| == |rows| && forall k :: 0 <= k < |r| ==> r[k] == rows[k].dataOwner
  {
    seq(|rows|, k requires 0 <= k < |rows| => rows[k].dataOwner)
  }

  /** Every distinct owner of the pillar, in order of first appearance (the `Set` spread). */
  function AllPillarOwners(catalog: seq<Indicator>, pillar: string): seq<string>
  {
    Dedup(OwnerColumn(Filter(catalog, i => OwnedInPillar(pillar, i))))
  }

  /** `getPillarDataOwners`: the first five distinct owners of the pillar. */
  function PillarDataOwners(catalog: seq<Indicator>, pillar: string): (r: seq<string>)
    ensures |r| <= 5
  {
    Take(AllPillarOwners(catalog, pillar), 5)
  }

  /** An owner is listed among all owners exactly when some row of the pillar names it. */
  lemma AllOwnersMembership(catalog: seq<Indicator>, pillar: string, o: string)
    ensures o in AllPillarOwners(catalog, pillar) <==>
      o != "" && exists i :: i in catalog && i.pillar == pillar && i.dataOwner == o
  {
    var p := (i: Indicator) => OwnedInPillar(pillar, i);
    var rows := Filter(catalog, p);
    DedupMembership(OwnerColumn(rows), o);
    if o in OwnerColumn(rows) {
      var k :| 0 <= k < |rows| && OwnerColumn(rows)[k] == o;
      FilterMembership(catalog, p, rows[k]);
    }
    if o != "" && exists i :: i in catalog && i.pillar == pillar && i.dataOwner == o {
      var i :| i in catalog && i.pillar == pillar && i.dataOwner == o;
      FilterMembership(catalog, p, i);
      var k :| 0 <= k < |rows| && rows[k] == i;
      assert OwnerColumn(rows)[k] == o;
    }
  }

  /**
   * The listed owners are distinct, non-empty owners of rows of the pillar, in order of
   * first appearance; at most five, and every owner is listed when there are at most five.
   */
  lemma PillarDataOwnersFacts(catalog: seq<Indicator>, pillar: string)
    ensures var r := PillarDataOwners(catalog, pillar);
      && Distinct(r)
      && (forall o :: o in r ==> o != "" && exists i :: i in catalog && i.pillar == pillar && i.dataOwner == o)
      && r == AllPillarOwners(catalog, pillar)[..|r|]
      && (|AllPillarOwners(catalog, pillar)| <= 5 ==> r == AllPillarOwners(catalog, pillar))
    ensures var col := OwnerColumn(Filter(catalog, i => OwnedInPillar(pillar, i)));
      forall a, b :: 0 <= a < b < |PillarDataOwners(catalog, pillar)| ==>
        FirstIndex(col, PillarDataOwners(catalog, pillar)[a]) < FirstIndex(col, PillarDataOwners(catalog, pillar)[b])
  {
    var all := AllPillarOwners(catalog, pillar);
    var r := PillarDataOwners(catalog, pillar);
    forall o | o in r ensures o != "" && exists i :: i in catalog && i.pillar == pillar && i.dataOwner == o {
      AllOwnersMembership(catalog, pillar, o);
    }
    assert |all| <= 5 ==> all[..|all|] == all;
    DedupFirstOccurrenceOrder(OwnerColumn(Filter(catalog, i => OwnedInPillar(pillar, i))));
  }

  /**
   * The "+N more" note as written: it compares the capped list against a second call of
   * the same function, so it never appears.
   */
  function MoreOwnersNoteAsWritten(catalog: seq<Indicator>, pillar: string): (r: Option<int>)
    ensures r == None
  {
    var shown := PillarDataOwners(catalog, pillar);
    var again := PillarDataOwners(catalog, pillar);
    if |shown| < |again| then Some(|again| - |shown|) else None
  }

  /** The note the card evidently means: how many distinct owners did not fit in the list. */
  function MoreOwnersNote(catalog: seq<Indicator>, pillar: string): Option<int>
  {
    var shown := PillarDataOwners(catalog, pillar);
    var all := AllPillarOwners(catalog, pillar);
    if |shown| < |all| then Some(|all| - |shown|) else None
  }

  /**
   * A pillar with more than five distinct owners hides the rest without a note as written;
   * the corrected note appears exactly then and counts the hidden owners.
   */
  lemma MoreOwnersNoteFacts(catalog: seq<Indicator>, pillar: string)
    ensures MoreOwnersNoteAsWritten(catalog, pillar) == None
    ensures MoreOwnersNote(catalog, pillar).Some? <==> |set o | o in AllPillarOwners(catalog, pillar)| > 5
    ensures MoreOwnersNote(catalog, pillar).Some? ==>
      MoreOwnersNote(catalog, pillar).value == |set o | o in AllPillarOwners(catalog, pillar)| - 5
  {
    DistinctCardinality(AllPillarOwners(catalog, pillar));
  }

  // ---------------------------------------------------------------- indicator lists

  /** A row of the pillar that is not tagged as replaced (untagged and removed rows count). */
  predicate ListedInPillar(pillar: string, i: Indicator)
  {
    i.pillar == pillar && i.indicatorStatus != Some(Replaced)
  }

  /** `pillarIndicators`. */
  function PillarIndicators(catalog: seq<Indicator>, pillar: string): seq<Indicator>
  {
    Filter(catalog, i => ListedInPillar(pillar, i))
  }

  /** `subIndicators`: the pillar's rows whose sub-pillar label starts with the sub-pillar id. */
  function SubIndicators(pillarRows: seq<Indicator>, subId: string): seq<Indicator>
  {
    Filter(pillarRows, (i: Indicator) => StartsWith(i.subpillar, subId))
  }

  /**
   * A row is listed for the pillar exactly when it has the pillar and is not replaced (so
   * removed rows are listed), and for a sub-pillar exactly when it is also labelled with the
   * sub-pillar id; the sub-pillar list is an order-preserving part of the pillar list.
   */
  lemma IndicatorListsFacts(catalog: seq<Indicator>, pillar: string, subId: string, x: Indicator)
    ensures x in PillarIndicators(catalog, pillar) <==>
      x in catalog && x.pillar == pillar && x.indicatorStatus != Some(Replaced)
    ensures x in SubIndicators(PillarIndicators(catalog, pillar), subId) <==>
      x in PillarIndicators(catalog, pillar) && StartsWith(x.subpillar, subId)
    ensures IsSubseq(SubIndicators(PillarIndicators(catalog, pillar), subId), PillarIndicators(catalog, pillar))
    ensures IsSubseq(PillarIndicators(catalog, pillar), catalog)
  {
    var rows := PillarIndicators(catalog, pillar);
    FilterMembership(catalog, i => ListedInPillar(pillar, i), x);
    FilterMembership(rows, (i: Indicator) => StartsWith(i.subpillar, subId), x);
    FilterIsSubseq(rows, (i: Indicator) => StartsWith(i.subpillar, subId));
    FilterIsSubseq(catalog, i => ListedInPillar(pillar, i));
  }

  // ---------------------------------------------------------------- badges

  datatype Trend = Up | Down | Flat

  /** The colour and icon of a difference: up when positive, down when negative. */
  function TrendOf(d: real): (t: Trend)
    ensures t == Up <==> d > 0.0
    ensures t == Down <==> d < 0.0
  {
    if d > 0.0 then Up else if d < 0.0 then Down else Flat
  }

  /** `indDiff`: the score change of an indicator, null unless both years are scored. */
  function IndDiff(i: Indicator): (r: Option<real>)
    ensures r.Some? <==> i.score2023.Some? && i.score2025.Some?
  {
    if i.score2025.Some? && i.score2023.Some? then Some(i.score2025.value - i.score2023.value) else None
  }

  /** The diff badge agrees with the improved and declined counts of the statistics. */
  lemma IndDiffAgreesWithStats(i: Indicator)
    ensures (IndDiff(i).Some? && TrendOf(IndDiff(i).value) == Up) <==> IsImproved(i)
    ensures (IndDiff(i).Some? && TrendOf(IndDiff(i).value) == Down) <==> IsDeclined(i)
    ensures IndDiff(i).Some? && IndDiff(i).value == 0.0 ==> IsUnchanged(i)
  {
  }

  /** A rank change is positive when the rank number went down (a better rank). */
  function RankDiff(rank2023: int, rank2025: int): (d: int)
    ensures d > 0 <==> rank2025 < rank2023
  {
    rank2023 - rank2025
  }

  /** The rank badge: an arrow and a magnitude. */
  datatype RankBadge = RankBadge(arrow: string, magnitude: nat)

  function Abs(d: int): (r: nat)
    ensures r == d || r == -d
  {
    if d < 0 then -d else d
  }

  function RankBadgeOf(d: int): RankBadge
  {
    RankBadge(if d > 0 then "▲" else if d < 0 then "▼" else "–", Abs(d))
  }

  /** Reads a badge back as a signed difference. */
  function BadgeValue(b: RankBadge): int
  {
    if b.arrow == "▲" then b.magnitude else if b.arrow == "▼" then -(b.magnitude as int) else 0
  }

  /** The badge loses nothing: arrow and magnitude give back the rank difference. */
  lemma {:induction false} RankBadgeRoundTrip(rank2023: int, rank2025: int)
    ensures BadgeValue(RankBadgeOf(RankDiff(rank2023, rank2025))) == rank2023 - rank2025
    ensures RankBadgeOf(RankDiff(rank2023, rank2025)).arrow == "▲" <==> rank2025 < rank2023
    ensures RankBadgeOf(RankDiff(rank2023, rank2025)).arrow == "▼" <==> rank2025 > rank2023
    ensures RankBadgeOf(RankDiff(rank2023, rank2025)) == RankBadge("–", 0) <==> rank2023 == rank2025
  {
  }

  // ---------------------------------------------------------------- palettes

  datatype Palette = Palette(bg: string, accent: string, hex: string)

  const DefaultPalette := Palette("bg-muted", "border-border", "#6b7280")

  const Palettes: map<string, Palette> := map[
    "Enable" := Palette("bg-rose-50 dark:bg-rose-950/30", "border-rose-300 dark:border-rose-700", "#e11d48"),
    "Attract" := Palette("bg-purple-50 dark:bg-purple-950/30", "border-purple-300 dark:border-purple-700", "#9333ea"),
    "Grow" := Palette("bg-violet-50 dark:bg-violet-950/30", "border-violet-300 dark:border-violet-700", "#7c3aed"),
    "Retain" := Palette("bg-sky-50 dark:bg-sky-950/30", "border-sky-300 dark:border-sky-700", "#0ea5e9"),
    "Vocational & Technical Skills" := Palette("bg-teal-50 dark:bg-teal-950/30", "border-teal-300 dark:border-teal-700", "#14b8a6"),
    "Global Knowledge Skills" := Palette("bg-amber-50 dark:bg-amber-950/30", "border-amber-300 dark:border-amber-700", "#f59e0b")
  ]

  /** The six pillar names of the index. */
  const Pillars := ["Enable", "Attract", "Grow", "Retain", "Vocational & Technical Skills", "Global Knowledge Skills"]

  /** `getPillarColor`: the pillar's palette, or the muted default for an unknown name. */
  function PillarColor(name: string): (r: Palette)
    ensures name in Palettes ==> r == Palettes[name]
    ensures name !in Palettes ==> r == DefaultPalette
  {
    if name in Palettes then Palettes[name] else DefaultPalette
  }

  /** Exactly the six pillars have palettes of their own, and no two share a colour. */
  lemma PillarColorFacts(name: string)
    ensures name in Pillars <==> name in Palettes
    ensures name in Pillars ==> PillarColor(name) != DefaultPalette
    ensures forall a, b :: a in Palettes && b in Palettes && a != b ==> Palettes[a].hex != Palettes[b].hex
  {
  }

  // ---------------------------------------------------------------- sparkline

  function MaxOf(s: seq<real>): (m: real)
    requires |s| > 0
    ensures m in s && forall k :: 0 <= k < |s| ==> s[k] <= m
  {
    if |s| == 1 then s[0] else var m := MaxOf(s[1..]); if s[0] > m then s[0] else m
  }

  function MinOf(s: seq<real>): (m: real)
    requires |s| > 0
    ensures m in s && forall k :: 0 <= k < |s| ==> m <= s[k]
  {
    if |s| == 1 then s[0] else var m := MinOf(s[1..]); if s[0] < m then s[0] else m
  }

  /** A point of the sparkline in its 60 by 32 box. */
  datatype Point = Point(x: real, y: real)

  /** The spread of the values, or 1 when they are all equal (`max - min || 1`). */
  function Spread(values: seq<real>): (r: real)
    requires |values| > 0
    ensures r > 0.0
  {
    var d := MaxOf(values) - MinOf(values);
    if d != 0.0 then d else 1.0
  }

  /** The k-th point: spread evenly across, scaled from min (bottom) to max (top), 4 units in. */
  function PointAt(values: seq<real>, k: nat): Point
    requires 2 <= |values| && k < |values|
  {
    Point(4.0 + (k as real / (|values| - 1) as real) * 52.0,
          4.0 + 24.0 - ((values[k] - MinOf(values)) / Spread(values)) * 24.0)
  }

  /** `Sparkline`: nothing for fewer than two values, otherwise one point per value. */
  function SparklinePoints(values: seq<real>): (r: Option<seq<Point>>)
    ensures r.None? <==> |values| < 2
    ensures r.Some? ==> |r.value| == |values|
  {
    if |values| < 2 then None
    else Some(seq(|values|, k requires 0 <= k < |values| => PointAt(values, k)))
  }

  lemma UnitFraction(a: real, b: real)
    requires 0.0 <= a <= b && b > 0.0
    ensures 0.0 <= a / b <= 1.0
  {
    assert a / b * b == a;
  }

  /**
   * Every point lies inside the padded box (x from 4 to 56, y from 4 to 28); the first
   * point is on the left edge and the last on the right edge.
   */
  lemma SparklineInBox(values: seq<real>)
    requires |values| >= 2
    ensures var ps := SparklinePoints(values).value;
      && (forall k :: 0 <= k < |ps| ==> 4.0 <= ps[k].x <= 56.0 && 4.0 <= ps[k].y <= 28.0)
      && ps[0].x == 4.0 && ps[|ps| - 1].x == 56.0
  {
    var ps := SparklinePoints(values).value;
    forall k | 0 <= k < |ps| ensures 4.0 <= ps[k].x <= 56.0 && 4.0 <= ps[k].y <= 28.0 {
      PointInBox(values, k);
    }
    assert ps[0].x == 4.0;
    var n := (|values| - 1) as real;
    SelfQuotient(n);
    assert ps[|ps| - 1].x == 4.0 + (n / n) * 52.0;
  }

  lemma SelfQuotient(n: real)
    requires n > 0.0
    ensures n / n == 1.0
  {
  }

  lemma PointInBox(values: seq<real>, k: nat)
    requires 2 <= |values| && k < |values|
    ensures 4.0 <= PointAt(values, k).x <= 56.0 && 4.0 <= PointAt(values, k).y <= 28.0
  {
    var f := k as real / (|values| - 1) as real;
    var g := (values[k] - MinOf(values)) / Spread(values);
    UnitFraction(k as real, (|values| - 1) as real);
    assert values[k] - MinOf(values) <= Spread(values) by {
      if MaxOf(values) - MinOf(values) == 0.0 {
        assert values[k] == MinOf(values);
      }
    }
    UnitFraction(values[k] - MinOf(values), Spread(values));
    assert 0.0 <= f * 52.0 <= 52.0;
    assert 0.0 <= g * 24.0 <= 24.0;
  }

  datatype Stroke = Success | Danger | PaletteHex(hex: string)

  /** The line colour: green when the last value is above the first, red when below. */
  function SparklineStroke(values: seq<real>, hex: string): (r: Option<Stroke>)
    ensures r.None? <==> |values| < 2
    ensures r == Some(Success) <==> |values| >= 2 && values[|values| - 1] > values[0]
    ensures r == Some(Danger) <==> |values| >= 2 && values[|values| - 1] < values[0]
  {
    if |values| < 2 then None
    else
      var trend := values[|values| - 1] - values[0];
      Some(if trend > 0.0 then Success else if trend < 0.0 then Danger else PaletteHex(hex))
  }
}
