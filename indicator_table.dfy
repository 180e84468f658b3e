/**
 * The indicator table's listing: a year filter, a status filter, a pillar filter and a
 * case-insensitive search applied in that order to a copy of the catalog, followed by a
 * stable sort on one of six columns; and the column-header click that picks the sort.
 */
module IndicatorTable {
  import opened Wrappers
  import opened Seqs
  import opened Sorting
  import opened Text
  import opened Indicators

  /** The year buttons; "2025" has no filter of its own. */
  datatype YearFilter = AllYears | Year2023 | Year2025

  /** The sortable columns (the keys the column headers pass). */
  datatype SortKey = CodeKey | NameKey | Score2023Key | Score2025Key | DiffKey | DataOwnerKey

  datatype SortDir = Asc | Desc

  /** The table's own state; the status filter comes from the page around it. */
  datatype TableState = TableState(
    searchQuery: string,
    pillarFilter: string,
    yearFilter: YearFilter,
    sortKey: SortKey,
    sortDir: SortDir)

  /** The initial state: no search, every pillar, every year, by code ascending. */
  const InitialState := TableState("", "all", AllYears, CodeKey, Asc)

  // ---------------------------------------------------------------- filters

  predicate NotNewOrChanged(i: Indicator)
  {
    i.indicatorStatus != Some(New) && i.indicatorStatus != Some(CodeChanged)
  }

  predicate NotReplacedOrRemoved(i: Indicator)
  {
    i.indicatorStatus != Some(Replaced) && i.indicatorStatus != Some(Removed)
  }

  predicate Untagged(i: Indicator)
  {
    i.indicatorStatus.None?
  }

  /** The status filter "missing": the stats universe with no 2025 score. */
  predicate IsTableMissing(i: Indicator)
  {
    !i.is2023Only && i.indicatorStatus != Some(Replaced) && i.indicatorStatus != Some(Removed)
    && i.score2025.None?
  }

  /** The lowercased code or name contains the lowercased query. */
  predicate MatchesSearch(i: Indicator, query: string)
  {
    Contains(Lower(i.code), Lower(query)) || Contains(Lower(i.name), Lower(query))
  }

  /** The year stage: "2023" drops new and code-changed rows, then replaced and removed ones. */
  function YearStage(list: seq<Indicator>, year: YearFilter): seq<Indicator>
  {
    if year == Year2023 then Filter(Filter(list, NotNewOrChanged), NotReplacedOrRemoved)
    else list
  }

  /** The status stage; any other filter value keeps every row. */
  function StatusStage(list: seq<Indicator>, status: string): seq<Indicator>
  {
    if status == "improved" then Filter(list, IsImproved)
    else if status == "declined" then Filter(list, IsDeclined)
    else if status == "missing" then Filter(list, IsTableMissing)
    else list
  }

  /** The pillar stage: "all" keeps every row, any other value keeps that pillar exactly. */
  function PillarStage(list: seq<Indicator>, pillar: string): seq<Indicator>
  {
    if pillar != "all" then Filter(list, (i: Indicator) => i.pillar == pillar) else list
  }

  /** The search stage: an empty query keeps every row. */
  function SearchStage(list: seq<Indicator>, query: string): seq<Indicator>
  {
    if query != "" then Filter(list, i => MatchesSearch(i, query)) else list
  }

  /** The four filter stages in the order the table applies them. */
  function Stages(list: seq<Indicator>, status: string, st: TableState): seq<Indicator>
  {
    SearchStage(PillarStage(StatusStage(YearStage(list, st.yearFilter), status), st.pillarFilter), st.searchQuery)
  }

  /** Whether a row passes every filter, as one condition. */
  predicate Keeps(status: string, st: TableState, i: Indicator)
  {
    && (st.yearFilter == Year2023 ==> Untagged(i))
    && (status == "improved" ==> IsImproved(i))
    && (status == "declined" ==> IsDeclined(i))
    && (status == "missing" ==> IsTableMissing(i))
    && (st.pillarFilter != "all" ==> i.pillar == st.pillarFilter)
    && (st.searchQuery != "" ==> MatchesSearch(i, st.searchQuery))
  }

  // ---------------------------------------------------------------- sort

  /** A comparison value: a number, plus or minus infinity, or a string. */
  datatype SortVal = Num(x: real) | Inf(positive: bool) | Text(s: string)

  /** `x || 0` on a score: null (and 0) become 0. */
  function OrZero(score: Option<real>): real
  {
    if score.Some? then score.value else 0.0
  }

  /** The value the comparator compares: a null score is +∞ ascending and −∞ descending. */
  function KeyOf(i: Indicator, key: SortKey, dir: SortDir): SortVal
  {
    match key
    case CodeKey => Text(i.code)
    case NameKey => Text(i.name)
    case DataOwnerKey => Text(i.dataOwner)
    case DiffKey => Num(OrZero(i.score2025) - OrZero(i.score2023))
    case Score2023Key => if i.score2023.None? then Inf(dir == Asc) else Num(i.score2023.value)
    case Score2025Key => if i.score2025.None? then Inf(dir == Asc) else Num(i.score2025.value)
  }

  /** String `<`: lexicographic order on characters. */
  predicate LexLess(a: string, b: string)
  {
    if a == [] then b != []
    else if b == [] then false
    else a[0] < b[0] || (a[0] == b[0] && LexLess(a[1..], b[1..]))
  }

  /** `<` on comparison values; a string and a number are never compared. */
  predicate Less(a: SortVal, b: SortVal)
  {
    match (a, b)
    case (Num(x), Num(y)) => x < y
    case (Num(_), Inf(p)) => p
    case (Inf(p), Num(_)) => !p
    case (Inf(p), Inf(q)) => !p && q
    case (Text(s), Text(t)) => LexLess(s, t)
    case _ => false
  }

  /** The comparator: -1, 1 or 0, reversed for a descending sort. */
  function Compare(a: Indicator, b: Indicator, key: SortKey, dir: SortDir): (r: int)
    ensures r == 0 || r == 1 || r == -1
  {
    var va, vb := KeyOf(a, key, dir), KeyOf(b, key, dir);
    if Less(va, vb) then (if dir == Asc then -1 else 1)
    else if Less(vb, va) then (if dir == Asc then 1 else -1)
    else 0
  }

  /** The comparator puts `a` after `b`. */
  function Gt(key: SortKey, dir: SortDir): (Indicator, Indicator) -> bool
  {
    (a, b) => Compare(a, b, key, dir) > 0
  }

  /** What the table lists: the filtered rows, sorted. */
  function Listing(list: seq<Indicator>, status: string, st: TableState): seq<Indicator>
  {
    SortBy(Stages(list, status, st), Gt(st.sortKey, st.sortDir))
  }

  /**
   * `filteredIndicators`: filters a copy of the rows and sorts the copy in place. The
   * input array is only read.
   */
  method FilteredIndicators(indicators: array<Indicator>, status: string, st: TableState)
    returns (result: seq<Indicator>)
    ensures result == Listing(indicators[..], status, st)
  {
    var rows := Stages(indicators[..], status, st);
    var a := new Indicator[|rows|](k requires 0 <= k < |rows| => rows[k]);
    assert a[..] == rows;
    SortInPlace(a, Gt(st.sortKey, st.sortDir));
    result := a[..];
  }

  /** `handleSort`: the current column toggles direction, another column sorts ascending. */
  function HandleSort(st: TableState, key: SortKey): (r: TableState)
  {
    if st.sortKey == key then st.(sortDir := if st.sortDir == Asc then Desc else Asc)
    else st.(sortKey := key, sortDir := Asc)
  }

  // ---------------------------------------------------------------- filter lemmas

  /** The "2023" year filter leaves exactly the untagged rows; "2025" leaves every row, as "all" does. */
  lemma YearFilterRows(list: seq<Indicator>)
    ensures YearStage(list, Year2023) == Filter(list, Untagged)
    ensures YearStage(list, Year2025) == YearStage(list, AllYears) == list
  {
    forall x ensures Untagged(x) == (NotNewOrChanged(x) && NotReplacedOrRemoved(x)) {
      if x.indicatorStatus.Some? {
        match x.indicatorStatus.value
        case Replaced =>
        case New =>
        case CodeChanged =>
        case Removed =>
      }
    }
    FilterFilter(list, NotNewOrChanged, NotReplacedOrRemoved, Untagged);
  }

  lemma {:induction false} StageIsFilter(list: seq<Indicator>, status: string, st: TableState)
    ensures Stages(list, status, st) == Filter(list, i => Keeps(status, st, i))
  {
    var k0 := (i: Indicator) => (st.yearFilter == Year2023 ==> Untagged(i));
    var p1 := (i: Indicator) => (status == "improved" ==> IsImproved(i)) && (status == "declined" ==> IsDeclined(i))
                                && (status == "missing" ==> IsTableMissing(i));
    var p2 := (i: Indicator) => st.pillarFilter != "all" ==> i.pillar == st.pillarFilter;
    var p3 := (i: Indicator) => st.searchQuery != "" ==> MatchesSearch(i, st.searchQuery);
    var k1 := (i: Indicator) => k0(i) && p1(i);
    var k2 := (i: Indicator) => k1(i) && p2(i);
    var k3 := (i: Indicator) => Keeps(status, st, i);

    var y := YearStage(list, st.yearFilter);
    YearFilterRows(list);
    if st.yearFilter != Year2023 {
      FilterAll(list, k0);
    } else {
      FilterExt(list, Untagged, k0);
    }
    assert y == Filter(list, k0);

    var s := StatusStage(y, status);
    if status == "improved" {
      FilterExt(y, IsImproved, p1);
    } else if status == "declined" {
      FilterExt(y, IsDeclined, p1);
    } else if status == "missing" {
      FilterExt(y, IsTableMissing, p1);
    } else {
      FilterAll(y, p1);
    }
    assert s == Filter(y, p1);
    FilterFilter(list, k0, p1, k1);

    var p := PillarStage(s, st.pillarFilter);
    if st.pillarFilter != "all" {
      FilterExt(s, (i: Indicator) => i.pillar == st.pillarFilter, p2);
    } else {
      FilterAll(s, p2);
    }
    assert p == Filter(s, p2);
    FilterFilter(list, k1, p2, k2);

    if st.searchQuery != "" {
      FilterExt(p, i => MatchesSearch(i, st.searchQuery), p3);
    } else {
      FilterAll(p, p3);
    }
    FilterFilter(list, k2, p3, k3);
  }

  /** A row is listed exactly when it is in the input and passes every filter. */
  lemma ListingMembership(list: seq<Indicator>, status: string, st: TableState, x: Indicator)
    ensures x in Listing(list, status, st) <==> x in list && Keeps(status, st, x)
  {
    var rows := Stages(list, status, st);
    StageIsFilter(list, status, st);
    FilterMembership(list, i => Keeps(status, st, i), x);
    SortByPermutation(rows, Gt(st.sortKey, st.sortDir));
    assert x in Listing(list, status, st) <==> x in multiset(Listing(list, status, st));
  }

  /** The listing is a permutation of a sub-multiset of the input rows. */
  lemma ListingSubMultiset(list: seq<Indicator>, status: string, st: TableState)
    ensures multiset(Listing(list, status, st)) <= multiset(list)
    ensures multiset(Listing(list, status, st)) == multiset(Stages(list, status, st))
  {
    StageIsFilter(list, status, st);
    FilterSubMultiset(list, i => Keeps(status, st, i));
    SortByPermutation(Stages(list, status, st), Gt(st.sortKey, st.sortDir));
  }

  /** Before sorting, the filtered rows keep their input order. */
  lemma StagesKeepOrder(list: seq<Indicator>, status: string, st: TableState)
    ensures IsSubseq(Stages(list, status, st), list)
  {
    StageIsFilter(list, status, st);
    FilterIsSubseq(list, i => Keeps(status, st, i));
  }

  /**
   * With every year, no pillar, no search and the "missing" status, the table lists as
   * many rows as the statistics count as missing.
   */
  lemma MissingCountMatchesStats(list: seq<Indicator>, st: TableState)
    requires st.yearFilter != Year2023 && st.pillarFilter == "all" && st.searchQuery == ""
    ensures |Listing(list, "missing", st)| == GetIndicatorStats(list).missing
  {
    FilterFilter(list, InUniverse, IsMissing2025, IsTableMissing);
  }

  /** The "improved" and "declined" statuses keep replaced and removed rows that meet the sign test. */
  lemma ImprovedIgnoresLineage(list: seq<Indicator>, st: TableState, x: Indicator)
    requires st.yearFilter != Year2023 && st.pillarFilter == "all" && st.searchQuery == ""
    requires x in list && IsImproved(x)
    ensures x in Listing(list, "improved", st)
  {
    ListingMembership(list, "improved", st, x);
  }

  // ---------------------------------------------------------------- order lemmas

  lemma {:induction false} LexLessIrreflexive(a: string)
    ensures !LexLess(a, a)
  {
    if a != [] {
      LexLessIrreflexive(a[1..]);
    }
  }

  lemma {:induction false} LexLessTransitive(a: string, b: string, c: string)
    requires LexLess(a, b) && LexLess(b, c)
    ensures LexLess(a, c)
  {
    if a != [] && b != [] && c != [] && a[0] == b[0] == c[0] {
      LexLessTransitive(a[1..], b[1..], c[1..]);
    }
  }

  lemma {:induction false} LexLessTotal(a: string, b: string)
    ensures a == b || LexLess(a, b) || LexLess(b, a)
  {
    if a != [] && b != [] && a[0] == b[0] {
      LexLessTotal(a[1..], b[1..]);
      if a[1..] == b[1..] {
        assert a == [a[0]] + a[1..] && b == [b[0]] + b[1..];
      }
    }
  }

  /** Both values are strings, or both are numbers or infinities. */
  predicate SameKind(a: SortVal, b: SortVal)
  {
    a.Text? == b.Text?
  }

  lemma LessIrreflexive(a: SortVal)
    ensures !Less(a, a)
  {
    if a.Text? {
      LexLessIrreflexive(a.s);
    }
  }

  lemma LessTransitive(a: SortVal, b: SortVal, c: SortVal)
    requires Less(a, b) && Less(b, c)
    ensures Less(a, c)
  {
    if a.Text? {
      LexLessTransitive(a.s, b.s, c.s);
    }
  }

  lemma LessTotal(a: SortVal, b: SortVal)
    requires SameKind(a, b)
    ensures a == b || Less(a, b) || Less(b, a)
  {
    if a.Text? {
      LexLessTotal(a.s, b.s);
    }
  }

  /** For one column and direction every row yields a value of the same kind. */
  lemma KeyKind(a: Indicator, b: Indicator, key: SortKey, dir: SortDir)
    ensures SameKind(KeyOf(a, key, dir), KeyOf(b, key, dir))
  {
  }

  /** The comparator returns 0 exactly for rows whose compared values are equal. */
  lemma CompareZeroIffEqualKeys(a: Indicator, b: Indicator, key: SortKey, dir: SortDir)
    ensures Compare(a, b, key, dir) == 0 <==> KeyOf(a, key, dir) == KeyOf(b, key, dir)
    ensures Compare(a, b, key, dir) == -Compare(b, a, key, dir)
  {
    var va, vb := KeyOf(a, key, dir), KeyOf(b, key, dir);
    KeyKind(a, b, key, dir);
    LessTotal(va, vb);
    LessIrreflexive(va);
    if Less(va, vb) && Less(vb, va) {
      LessTransitive(va, vb, va);
    }
  }

  /** The comparator is consistent: "belongs after" is a strict weak order on rows. */
  lemma GtStrictWeakOrder(key: SortKey, dir: SortDir)
    ensures StrictWeakOrder(Gt(key, dir))
  {
    var gt := Gt(key, dir);
    forall a ensures !gt(a, a) {
      LessIrreflexive(KeyOf(a, key, dir));
    }
    forall a, b, c | gt(a, b) && gt(b, c) ensures gt(a, c) {
      CompareZeroIffEqualKeys(a, b, key, dir);
      CompareZeroIffEqualKeys(b, c, key, dir);
      CompareZeroIffEqualKeys(a, c, key, dir);
      var va, vb, vc := KeyOf(a, key, dir), KeyOf(b, key, dir), KeyOf(c, key, dir);
      if dir == Asc {
        LessTransitive(vc, vb, va);
      } else {
        LessTransitive(va, vb, vc);
      }
    }
    forall a, b, c | !gt(a, b) && !gt(b, c) ensures !gt(a, c) {
      CompareZeroIffEqualKeys(a, b, key, dir);
      CompareZeroIffEqualKeys(b, c, key, dir);
      CompareZeroIffEqualKeys(a, c, key, dir);
      var va, vb, vc := KeyOf(a, key, dir), KeyOf(b, key, dir), KeyOf(c, key, dir);
      KeyKind(a, b, key, dir);
      KeyKind(b, c, key, dir);
      LessTotal(va, vb);
      LessTotal(vb, vc);
      if dir == Asc {
        if Less(va, vb) && Less(vb, vc) {
          LessTransitive(va, vb, vc);
        }
        if Less(va, vc) && Less(vc, va) {
          LessTransitive(va, vc, va);
          LessIrreflexive(va);
        }
      } else {
        if Less(vc, vb) && Less(vb, va) {
          LessTransitive(vc, vb, va);
        }
        if Less(va, vc) && Less(vc, va) {
          LessTransitive(va, vc, va);
          LessIrreflexive(va);
        }
      }
    }
  }

  /** The listing is in the comparator's order. */
  lemma ListingSorted(list: seq<Indicator>, status: string, st: TableState)
    ensures SortedBy(Listing(list, status, st), Gt(st.sortKey, st.sortDir))
  {
    GtStrictWeakOrder(st.sortKey, st.sortDir);
    SortBySorted(Stages(list, status, st), Gt(st.sortKey, st.sortDir));
  }

  /** Rows that compare equal (same code, same score, ...) keep their catalog order. */
  lemma ListingStable(list: seq<Indicator>, status: string, st: TableState, y: Indicator)
    ensures var eq := EquivTo(Gt(st.sortKey, st.sortDir), y);
      Filter(Listing(list, status, st), eq) == Filter(Filter(list, i => Keeps(status, st, i)), eq)
  {
    GtStrictWeakOrder(st.sortKey, st.sortDir);
    SortByStable(Stages(list, status, st), Gt(st.sortKey, st.sortDir), y);
    StageIsFilter(list, status, st);
  }

  /** The score a score column sorts on. */
  function ScoreOf(i: Indicator, key: SortKey): Option<real>
    requires key == Score2023Key || key == Score2025Key
  {
    if key == Score2023Key then i.score2023 else i.score2025
  }

  /**
   * Sorting on a score column puts the rows without that score after every row with
   * one, ascending and descending alike.
   */
  lemma NullsLast(list: seq<Indicator>, status: string, st: TableState, i: nat, j: nat)
    requires st.sortKey == Score2023Key || st.sortKey == Score2025Key
    requires i < j < |Listing(list, status, st)|
    requires ScoreOf(Listing(list, status, st)[i], st.sortKey).None?
    ensures ScoreOf(Listing(list, status, st)[j], st.sortKey).None?
  {
    ListingSorted(list, status, st);
  }

  /** The "diff" column never meets a null: a missing score counts as 0 there. */
  lemma DiffNeverNull(i: Indicator, dir: SortDir)
    ensures KeyOf(i, DiffKey, dir) == Num(OrZero(i.score2025) - OrZero(i.score2023))
    ensures i.score2025.None? && i.score2023.None? ==> KeyOf(i, DiffKey, dir) == Num(0.0)
  {
  }

  // ---------------------------------------------------------------- sort-state lemmas

  /** A click on the current column flips the direction; a second click restores the state. */
  lemma HandleSortSameKey(st: TableState)
    ensures HandleSort(st, st.sortKey).sortKey == st.sortKey
    ensures HandleSort(st, st.sortKey).sortDir != st.sortDir
    ensures HandleSort(HandleSort(st, st.sortKey), st.sortKey) == st
  {
  }

  /** A click on another column sorts by it ascending; filters are untouched. */
  lemma HandleSortNewKey(st: TableState, key: SortKey)
    requires key != st.sortKey
    ensures HandleSort(st, key) == TableState(st.searchQuery, st.pillarFilter, st.yearFilter, key, Asc)
  {
  }
}
