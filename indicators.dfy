/**
 * The indicator catalog of the two editions (2023 and 2025) and the statistics over
 * its 2025 comparison universe.
 */
module Indicators {
  import opened Wrappers
  import opened Seqs
  import opened Text

  /** The lineage tag of a row: how it relates the 2023 edition to the 2025 one. */
  datatype Status = Replaced | New | CodeChanged | Removed

  /** A row of the raw list; `indicatorStatus` and `replacedBy` may be absent. */
  datatype RawIndicator = RawIndicator(
    code: string,
    name: string,
    pillar: string,
    subpillar: string,
    score2023: Option<real>,
    score2025: Option<real>,
    source: string,
    website: string,
    dataOwner: string,
    indicatorStatus: Option<Status>,
    replacedBy: Option<string>)

  /** A catalog row, with its id and the derived `is2023Only` flag. */
  datatype Indicator = Indicator(
    id: string,
    code: string,
    name: string,
    pillar: string,
    subpillar: string,
    score2023: Option<real>,
    score2025: Option<real>,
    source: string,
    website: string,
    dataOwner: string,
    indicatorStatus: Option<Status>,
    replacedBy: Option<string>,
    is2023Only: bool)

  /** The two 2023 rows that have no 2025 counterpart under the same identity. */
  predicate Is2023Only(item: RawIndicator)
  {
    || (item.code == "1.2.5" && item.name == "ICT Infrastructure")
    || (item.code == "1.2.6" && item.name == "Urbanisation" && item.indicatorStatus == Some(Replaced))
  }

  /** The id of the row at 0-based position `index`: `ind_` followed by `index + 1`. */
  function IdOf(index: nat): (r: string)
    ensures StartsWith(r, "ind_")
  {
    "ind_" + NatToString(index + 1)
  }

  /**
   * `item || null` on an optional string: an absent value and the empty string (the
   * only falsy strings) both become null.
   */
  function OrNull(s: Option<string>): (r: Option<string>)
    ensures r.None? <==> s.None? || s == Some("")
    ensures r.Some? ==> r == s
  {
    if s == Some("") then None else s
  }

  /** The catalog row built from raw row `index`. */
  function ToIndicator(item: RawIndicator, index: nat): Indicator
  {
    Indicator(IdOf(index), item.code, item.name, item.pillar, item.subpillar,
              item.score2023, item.score2025, item.source, item.website, item.dataOwner,
              item.indicatorStatus, OrNull(item.replacedBy), Is2023Only(item))
  }

  /** `rawIndicators.map((item, index) => ...)`. */
  function BuildCatalog(raw: seq<RawIndicator>): (r: seq<Indicator>)
    ensures |r| == |raw|
  {
    seq(|raw|, i requires 0 <= i < |raw| => ToIndicator(raw[i], i))
  }

  /**
   * Every row keeps its raw fields and its tag (no tag becomes null); `replacedBy` is
   * null exactly when the raw value is absent or empty, and otherwise keeps that value.
   */
  lemma CatalogFields(raw: seq<RawIndicator>, k: nat)
    requires k < |raw|
    ensures var ind := BuildCatalog(raw)[k];
      && ind.code == raw[k].code && ind.name == raw[k].name
      && ind.pillar == raw[k].pillar && ind.subpillar == raw[k].subpillar
      && ind.score2023 == raw[k].score2023 && ind.score2025 == raw[k].score2025
      && ind.source == raw[k].source && ind.website == raw[k].website && ind.dataOwner == raw[k].dataOwner
      && ind.indicatorStatus == raw[k].indicatorStatus
      && (ind.replacedBy.None? <==> raw[k].replacedBy.None? || raw[k].replacedBy == Some(""))
      && (raw[k].replacedBy.Some? && raw[k].replacedBy.value != "" ==> ind.replacedBy == raw[k].replacedBy)
      && (ind.is2023Only <==> Is2023Only(raw[k]))
  {
  }

  /** Ids follow catalog order: row `k` is `ind_{k+1}`, so no two rows share an id. */
  lemma CatalogIdsDistinct(raw: seq<RawIndicator>, j: nat, k: nat)
    requires j < k < |raw|
    ensures BuildCatalog(raw)[k].id == "ind_" + NatToString(k + 1)
    ensures BuildCatalog(raw)[j].id != BuildCatalog(raw)[k].id
  {
    var cat := BuildCatalog(raw);
    if cat[j].id == cat[k].id {
      assert NatToString(j + 1) == cat[j].id[4..];
      NatToStringInjective(j + 1, k + 1);
    }
  }

  /**
   * A filter of the catalog by a predicate that does not look at ids keeps as many rows
   * as the same filter of the raw list.
   */
  lemma {:induction false} CatalogFilterCount(raw: seq<RawIndicator>, p: Indicator -> bool, q: RawIndicator -> bool)
    requires forall r, k :: p(ToIndicator(r, k)) == q(r)
    ensures |Filter(BuildCatalog(raw), p)| == |Filter(raw, q)|
  {
    if raw != [] {
      var init, last := raw[..|raw| - 1], raw[|raw| - 1];
      assert raw == init + [last];
      assert BuildCatalog(raw) == BuildCatalog(init) + [ToIndicator(last, |raw| - 1)];
      CatalogFilterCount(init, p, q);
      FilterConcat(BuildCatalog(init), [ToIndicator(last, |raw| - 1)], p);
      FilterConcat(init, [last], q);
    }
  }

  /** `is2023Only` on a catalog row: one of the two named rows. */
  lemma Is2023OnlyRows(raw: seq<RawIndicator>, k: nat)
    requires k < |raw|
    ensures BuildCatalog(raw)[k].is2023Only <==>
      (raw[k].code == "1.2.5" && raw[k].name == "ICT Infrastructure") ||
      (raw[k].code == "1.2.6" && raw[k].name == "Urbanisation" && raw[k].indicatorStatus == Some(Replaced))
  {
  }

  /** The 2025 comparison universe: neither 2023-only nor replaced nor removed. */
  predicate InUniverse(i: Indicator)
  {
    !i.is2023Only && i.indicatorStatus != Some(Replaced) && i.indicatorStatus != Some(Removed)
  }

  /** Both scores are present and the 2025 score is higher. */
  predicate IsImproved(i: Indicator)
  {
    i.score2025.Some? && i.score2023.Some? && i.score2025.value - i.score2023.value > 0.0
  }

  /** Both scores are present and the 2025 score is lower. */
  predicate IsDeclined(i: Indicator)
  {
    i.score2025.Some? && i.score2023.Some? && i.score2025.value - i.score2023.value < 0.0
  }

  /** No 2025 score at all (a measured 0 is a score). */
  predicate IsMissing2025(i: Indicator)
  {
    i.score2025.None?
  }

  /** A 2025 score that is not a change from a 2023 score: no 2023 score, or the same one. */
  predicate IsUnchanged(i: Indicator)
  {
    i.score2025.Some? && (i.score2023.None? || i.score2025.value == i.score2023.value)
  }

  datatype Stats = Stats(improved: nat, declined: nat, missing: nat, total: nat)

  /** The rows of the list inside the 2025 comparison universe, in list order. */
  function Universe(list: seq<Indicator>): (r: seq<Indicator>)
    ensures |r| <= |list|
  {
    Filter(list, InUniverse)
  }

  /** `getIndicatorStats`: the four counts over the 2025 comparison universe. */
  function GetIndicatorStats(list: seq<Indicator>): (r: Stats)
    ensures r.total <= |list|
  {
    var universe := Universe(list);
    Stats(|Filter(universe, IsImproved)|, |Filter(universe, IsDeclined)|,
          |Filter(universe, IsMissing2025)|, |universe|)
  }

  /** A row is never both improved and declined, nor counted as missing as well. */
  lemma CategoriesDisjoint(i: Indicator)
    ensures Ind(IsImproved(i)) + Ind(IsDeclined(i)) + Ind(IsMissing2025(i)) + Ind(IsUnchanged(i)) == 1
  {
  }

  /** The improved, declined and missing counts never exceed the universe size. */
  lemma StatsBound(list: seq<Indicator>)
    ensures var st := GetIndicatorStats(list);
      st.improved + st.declined + st.missing <= st.total
  {
    forall i ensures Ind(IsImproved(i)) + Ind(IsDeclined(i)) + Ind(IsMissing2025(i)) <= 1 {
      CategoriesDisjoint(i);
    }
    FilterDisjointCounts(Universe(list), IsImproved, IsDeclined, IsMissing2025);
  }

  /** The universe rows left over are exactly those with an unchanged or incomparable 2025 score. */
  lemma StatsPartition(list: seq<Indicator>)
    ensures var st := GetIndicatorStats(list);
      st.improved + st.declined + st.missing + |Filter(Universe(list), IsUnchanged)| == st.total
  {
    forall i ensures Ind(IsImproved(i)) + Ind(IsDeclined(i)) + Ind(IsMissing2025(i)) + Ind(IsUnchanged(i)) == 1 {
      CategoriesDisjoint(i);
    }
    FilterPartitionCounts(Universe(list), IsImproved, IsDeclined, IsMissing2025, IsUnchanged);
  }

  /** `total` is the list size less the rows outside the universe. */
  lemma StatsTotal(list: seq<Indicator>)
    ensures GetIndicatorStats(list).total == |list| - |Filter(list, i => !InUniverse(i))|
  {
    FilterComplementCounts(list, InUniverse, i => !InUniverse(i));
  }

  /** The counts depend only on which rows the list holds, not on their order. */
  lemma StatsPermutation(a: seq<Indicator>, b: seq<Indicator>)
    requires multiset(a) == multiset(b)
    ensures GetIndicatorStats(a) == GetIndicatorStats(b)
  {
    FilterPermutation(a, b, InUniverse);
    var ua, ub := Universe(a), Universe(b);
    FilterPermutation(ua, ub, IsImproved);
    FilterPermutation(ua, ub, IsDeclined);
    FilterPermutation(ua, ub, IsMissing2025);
  }

  /** The statistics of a list are those of its parts added up. */
  lemma StatsConcat(a: seq<Indicator>, b: seq<Indicator>)
    ensures var sa, sb, st := GetIndicatorStats(a), GetIndicatorStats(b), GetIndicatorStats(a + b);
      && st.improved == sa.improved + sb.improved && st.declined == sa.declined + sb.declined
      && st.missing == sa.missing + sb.missing && st.total == sa.total + sb.total
  {
    FilterConcat(a, b, InUniverse);
    var ua, ub := Universe(a), Universe(b);
    FilterConcat(ua, ub, IsImproved);
    FilterConcat(ua, ub, IsDeclined);
    FilterConcat(ua, ub, IsMissing2025);
  }

  /** The statistics of one row: where that row is counted. */
  lemma StatsOfOne(i: Indicator)
    ensures GetIndicatorStats([i]) ==
      if !InUniverse(i) then Stats(0, 0, 0, 0)
      else Stats(Ind(IsImproved(i)), Ind(IsDeclined(i)), Ind(IsMissing2025(i)), 1)
  {
  }
}
