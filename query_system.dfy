/**
 * The natural-language query box: a keyword router with a fixed priority, five reports
 * over the catalog, and the query/result state behind the input field and its buttons.
 */
module QuerySystem {
  import opened Wrappers
  import opened Seqs
  import opened Sorting
  import opened Text
  import opened Indicators
  import IndicatorTable

  /** A tally entry: a source or owner and the number of rows naming it. */
  datatype Entry = Entry(key: string, count: nat)

  /** What a report shows (titles and markup aside). */
  datatype Report =
    | ImprovedReport(total: nat, shown: seq<Indicator>, more: nat)
    | DeclinedReport(total: nat, shown: seq<Indicator>, more: nat)
    | MissingReport(total: nat)
    | SourceReport(uniqueSources: nat, top: seq<Entry>)
    | MinistryReport(agencies: nat, top: seq<Entry>)
    | SearchResults(matched: seq<Indicator>)

  datatype Route = ImprovedRoute | DeclinedRoute | MissingRoute | SourceRoute | MinistryRoute | SearchRoute

  // ---------------------------------------------------------------- routing

  /** The keyword groups in priority order, and the report each one selects. */
  const Keywords: seq<seq<string>> :=
    [["improve"], ["decline"], ["miss", "no data"], ["source", "database"], ["ministry", "department", "owner"]]
  const Routes: seq<Route> := [ImprovedRoute, DeclinedRoute, MissingRoute, SourceRoute, MinistryRoute]

  /** The lowercased query contains a keyword of group `k`. */
  predicate MatchesGroup(lower: string, k: nat)
    requires k < |Keywords|
  {
    exists w :: 0 <= w < |Keywords[k]| && Contains(lower, Keywords[k][w])
  }

  /** `processQuery`'s dispatch: the first `includes` test that succeeds wins. */
  function RouteOf(q: string): Route
  {
    var lower := Lower(q);
    if Contains(lower, "improve") then ImprovedRoute
    else if Contains(lower, "decline") then DeclinedRoute
    else if Contains(lower, "miss") || Contains(lower, "no data") then MissingRoute
    else if Contains(lower, "source") || Contains(lower, "database") then SourceRoute
    else if Contains(lower, "ministry") || Contains(lower, "department") || Contains(lower, "owner") then MinistryRoute
    else SearchRoute
  }

  lemma GroupContents(lower: string)
    ensures MatchesGroup(lower, 0) <==> Contains(lower, "improve")
    ensures MatchesGroup(lower, 1) <==> Contains(lower, "decline")
    ensures MatchesGroup(lower, 2) <==> Contains(lower, "miss") || Contains(lower, "no data")
    ensures MatchesGroup(lower, 3) <==> Contains(lower, "source") || Contains(lower, "database")
    ensures MatchesGroup(lower, 4) <==> Contains(lower, "ministry") || Contains(lower, "department") || Contains(lower, "owner")
  {
    if Contains(lower, "improve") { assert Keywords[0][0] == "improve"; }
    if Contains(lower, "decline") { assert Keywords[1][0] == "decline"; }
    if Contains(lower, "miss") { assert Keywords[2][0] == "miss"; }
    if Contains(lower, "no data") { assert Keywords[2][1] == "no data"; }
    if Contains(lower, "source") { assert Keywords[3][0] == "source"; }
    if Contains(lower, "database") { assert Keywords[3][1] == "database"; }
    if Contains(lower, "ministry") { assert Keywords[4][0] == "ministry"; }
    if Contains(lower, "department") { assert Keywords[4][1] == "department"; }
    if Contains(lower, "owner") { assert Keywords[4][2] == "owner"; }
  }

  /**
   * The query goes to the report of group `k` exactly when its lowercase form contains a
   * keyword of that group and none of any earlier group; it goes to the general search
   * exactly when it contains no keyword at all.
   */
  lemma RouteFirstMatch(q: string, k: nat)
    requires k < |Keywords|
    ensures RouteOf(q) == Routes[k] <==>
      MatchesGroup(Lower(q), k) && forall j :: 0 <= j < k ==> !MatchesGroup(Lower(q), j)
    ensures RouteOf(q) == SearchRoute <==> forall j :: 0 <= j < |Keywords| ==> !MatchesGroup(Lower(q), j)
  {
    GroupContents(Lower(q));
  }

  // ---------------------------------------------------------------- tallies

  /** The non-empty values of one field, row by row (`if (i.source) ...`). */
  function Values(rows: seq<Indicator>, field: Indicator -> string): (r: seq<string>)
    ensures forall k :: 0 <= k < |r| ==> r[k] != ""
  {
    if rows == [] then []
    else
      var last := rows[|rows| - 1];
      Values(rows[..|rows| - 1], field) + (if field(last) != "" then [field(last)] else [])
  }

  /** A value is listed exactly when it is non-empty and some row has it. */
  lemma {:induction false} ValuesMembership(rows: seq<Indicator>, field: Indicator -> string, x: string)
    ensures x in Values(rows, field) <==> x != "" && exists k :: 0 <= k < |rows| && field(rows[k]) == x
  {
    if rows != [] {
      var init := rows[..|rows| - 1];
      ValuesMembership(init, field, x);
      if x != "" && field(rows[|rows| - 1]) != x && (exists k :: 0 <= k < |rows| && field(rows[k]) == x) {
        var k :| 0 <= k < |rows| && field(rows[k]) == x;
        assert init[k] == rows[k];
      }
    }
  }

  /** As many values as rows with a non-empty field. */
  lemma {:induction false} ValuesCount(rows: seq<Indicator>, field: Indicator -> string)
    ensures |Values(rows, field)| == |Filter(rows, i => field(i) != "")|
  {
    if rows != [] {
      var init, last := rows[..|rows| - 1], rows[|rows| - 1];
      ValuesCount(init, field);
      FilterConcat(init, [last], i => field(i) != "");
      assert rows == init + [last];
    }
  }

  /** One more row adds its value, if it has one, at the end. */
  lemma ValuesStep(rows: seq<Indicator>, i: nat, field: Indicator -> string)
    requires i < |rows|
    ensures Values(rows[..i + 1], field) ==
      Values(rows[..i], field) + (if field(rows[i]) != "" then [field(rows[i])] else [])
  {
    assert rows[..i + 1][..i] == rows[..i];
  }

  /**
   * The tally dictionary, read back with `Object.entries`: one entry per distinct value in
   * order of first occurrence, holding the number of occurrences.
   */
  function Tally(vs: seq<string>): (r: seq<Entry>)
    ensures |r| == |Dedup(vs)|
  {
    var d := Dedup(vs);
    seq(|d|, k requires 0 <= k < |d| => Entry(d[k], multiset(vs)[d[k]]))
  }

  /** Keys of a list of entries. */
  function Keys(es: seq<Entry>): (r: seq<string>)
    ensures |r| == |es|
  {
    seq(|es|, k requires 0 <= k < |es| => es[k].key)
  }

  /** The sum of the counts. */
  function SumCounts(es: seq<Entry>): nat
  {
    if es == [] then 0 else es[0].count + SumCounts(es[1..])
  }

  /** The sum of the multiplicities in `m` of the elements of `d`. */
  function SumOccurrences(d: seq<string>, m: multiset<string>): nat
  {
    if d == [] then 0 else m[d[0]] + SumOccurrences(d[1..], m)
  }

  lemma {:induction false} SumOccurrencesAll(d: seq<string>, m: multiset<string>)
    requires Distinct(d)
    requires forall x :: x in m ==> x in d
    ensures SumOccurrences(d, m) == |m|
  {
    if d != [] {
      var x := d[0];
      var rest := m[x := 0];
      forall y | y in rest ensures y in d[1..] {
        assert y != x && y in d;
        var k :| 0 <= k < |d| && d[k] == y;
        assert k != 0;
        assert d[1..][k - 1] == y;
      }
      assert Distinct(d[1..]) by {
        forall i, j | 0 <= i < j < |d[1..]| ensures d[1..][i] != d[1..][j] {
          assert d[1..][i] == d[i + 1] && d[1..][j] == d[j + 1];
        }
      }
      SumOccurrencesAll(d[1..], rest);
      SumOccurrencesSame(d[1..], m, rest);
      assert m == rest + multiset{}[x := m[x]];
    }
  }

  lemma {:induction false} SumOccurrencesSame(d: seq<string>, m: multiset<string>, n: multiset<string>)
    requires forall x :: x in d ==> m[x] == n[x]
    ensures SumOccurrences(d, m) == SumOccurrences(d, n)
  {
    if d != [] {
      SumOccurrencesSame(d[1..], m, n);
    }
  }

  lemma {:induction false} SumCountsOfTable(d: seq<string>, m: multiset<string>)
    ensures SumCounts(seq(|d|, k requires 0 <= k < |d| => Entry(d[k], m[d[k]]))) == SumOccurrences(d, m)
  {
    if d != [] {
      var es := seq(|d|, k requires 0 <= k < |d| => Entry(d[k], m[d[k]]));
      SumCountsOfTable(d[1..], m);
      assert es[1..] == seq(|d[1..]|, k requires 0 <= k < |d[1..]| => Entry(d[1..][k], m[d[1..][k]]));
    }
  }

  /** The keys of a tally are the distinct values, in order of first occurrence. */
  lemma TallyKeys(vs: seq<string>)
    ensures Keys(Tally(vs)) == Dedup(vs)
    ensures forall x :: x in Keys(Tally(vs)) <==> x in vs
    ensures Distinct(Keys(Tally(vs)))
  {
    forall x ensures x in Keys(Tally(vs)) <==> x in vs {
      DedupMembership(vs, x);
    }
  }

  /** Each entry counts the occurrences of its key, and the counts add up to the number of values. */
  lemma TallyCounts(vs: seq<string>)
    ensures forall k :: 0 <= k < |Tally(vs)| ==> Tally(vs)[k].count == multiset(vs)[Tally(vs)[k].key] >= 1
    ensures SumCounts(Tally(vs)) == |vs|
  {
    var d := Dedup(vs);
    SumCountsOfTable(d, multiset(vs));
    forall x | x in multiset(vs) ensures x in d {
      DedupMembership(vs, x);
    }
    SumOccurrencesAll(d, multiset(vs));
  }

  /** `b[1] - a[1]` as a comparator: `a` belongs after `b` when its count is smaller. */
  function ByCountDesc(): (Entry, Entry) -> bool
  {
    (a: Entry, b: Entry) => b.count as int - a.count as int > 0
  }

  lemma ByCountDescOrder()
    ensures StrictWeakOrder(ByCountDesc())
  {
  }

  /** Sorted by `b[1] - a[1]`, counts never increase along the list. */
  lemma SortedByCountNonIncreasing(es: seq<Entry>)
    ensures var s := SortBy(es, ByCountDesc());
      forall i, j :: 0 <= i < j < |s| ==> s[i].count >= s[j].count
  {
    ByCountDescOrder();
    SortBySorted(es, ByCountDesc());
  }

  // ---------------------------------------------------------------- reports

  function Source(): Indicator -> string { (i: Indicator) => i.source }
  function Owner(): Indicator -> string { (i: Indicator) => i.dataOwner }

  /** At most the first five rows, and how many more there are ("...and N more"). */
  function Shown(rows: seq<Indicator>): seq<Indicator> { Take(rows, 5) }
  function More(rows: seq<Indicator>): nat { if |rows| > 5 then |rows| - 5 else 0 }

  /** The missing report's own rule: no 2025 score or a 2025 score of 0, removed rows included. */
  predicate IsMissingOrZero(i: Indicator)
  {
    !i.is2023Only && i.indicatorStatus != Some(Replaced) && (i.score2025.None? || i.score2025 == Some(0.0))
  }

  function ImprovedOf(catalog: seq<Indicator>): Report
  {
    var rows := Filter(catalog, IsImproved);
    ImprovedReport(|rows|, Shown(rows), More(rows))
  }

  function DeclinedOf(catalog: seq<Indicator>): Report
  {
    var rows := Filter(catalog, IsDeclined);
    DeclinedReport(|rows|, Shown(rows), More(rows))
  }

  function MissingOf(catalog: seq<Indicator>): Report
  {
    MissingReport(|Filter(catalog, IsMissingOrZero)|)
  }

  /** The distinct sources, and the eight most used ones. */
  function SourcesOf(catalog: seq<Indicator>): Report
  {
    var vs := Values(catalog, Source());
    SourceReport(|Dedup(vs)|, Take(SortBy(Tally(vs), ByCountDesc()), 8))
  }

  /** The number of distinct owners, and the ten with the most rows. */
  function MinistriesOf(catalog: seq<Indicator>): Report
  {
    var sorted := SortBy(Tally(Values(catalog, Owner())), ByCountDesc());
    MinistryReport(|sorted|, Take(sorted, 10))
  }

  /** The general search: the first five rows whose code or name contains the query. */
  function SearchOf(catalog: seq<Indicator>, q: string): Report
  {
    SearchResults(Take(Filter(catalog, i => IndicatorTable.MatchesSearch(i, q)), 5))
  }

  /** `processQuery`. */
  function ProcessQuery(catalog: seq<Indicator>, q: string): Report
  {
    match RouteOf(q)
    case ImprovedRoute => ImprovedOf(catalog)
    case DeclinedRoute => DeclinedOf(catalog)
    case MissingRoute => MissingOf(catalog)
    case SourceRoute => SourcesOf(catalog)
    case MinistryRoute => MinistriesOf(catalog)
    case SearchRoute => SearchOf(catalog, q)
  }

  /** The `forEach` that fills a tally dictionary, read back in insertion order. */
  method CountBy(rows: seq<Indicator>, field: Indicator -> string) returns (entries: seq<Entry>)
    ensures entries == Tally(Values(rows, field))
  {
    var counts: map<string, nat> := map[];
    var order: seq<string> := [];
    ghost var vs: seq<string> := [];
    for i := 0 to |rows|
      invariant vs == Values(rows[..i], field)
      invariant TallyState(order, counts, vs)
    {
      ValuesStep(rows, i, field);
      var v := field(rows[i]);
      if v != "" {
        TallyStep(order, counts, vs, v);
        // a key joins the insertion order the first time it is assigned
        order := if v in counts then order else order + [v];
        counts := counts[v := (if v in counts then counts[v] else 0) + 1];
        vs := vs + [v];
      }
    }
    assert vs == Values(rows, field) by {
      assert rows[..|rows|] == rows;
    }
    TallyStateEntries(order, counts, vs);
    entries := seq(|order|, k requires 0 <= k < |order| => Entry(order[k], counts[order[k]]));
  }

  /** The loop's dictionary and key order hold the tally of the values seen so far. */
  ghost predicate TallyState(order: seq<string>, counts: map<string, nat>, vs: seq<string>)
  {
    && order == Dedup(vs)
    && (forall x :: x in counts <==> x in vs)
    && (forall x :: x in counts ==> counts[x] == multiset(vs)[x])
  }

  /** One more non-empty value: bump its count, and append it to the order when it is new. */
  lemma TallyStep(order: seq<string>, counts: map<string, nat>, vs: seq<string>, v: string)
    requires TallyState(order, counts, vs)
    ensures TallyState(if v in counts then order else order + [v],
                       counts[v := (if v in counts then counts[v] else 0) + 1], vs + [v])
  {
    DedupStep(vs, v);
  }

  lemma TallyStateEntries(order: seq<string>, counts: map<string, nat>, vs: seq<string>)
    requires TallyState(order, counts, vs)
    ensures forall k :: 0 <= k < |order| ==> order[k] in counts
    ensures seq(|order|, k requires 0 <= k < |order| && order[k] in counts => Entry(order[k], counts[order[k]])) == Tally(vs)
  {
  }

  /** The sources report, with its tally loop and the in-place sort of the entries. */
  method GenerateSourceReport(catalog: seq<Indicator>) returns (r: Report)
    ensures r == SourcesOf(catalog)
  {
    var sources := Dedup(Values(catalog, Source()));
    var entries := CountBy(catalog, Source());
    var a := new Entry[|entries|](k requires 0 <= k < |entries| => entries[k]);
    assert a[..] == entries;
    SortInPlace(a, ByCountDesc());
    r := SourceReport(|sources|, Take(a[..], 8));
  }

  /** The ministries report, with its tally loop and the in-place sort of the entries. */
  method GenerateMinistryReport(catalog: seq<Indicator>) returns (r: Report)
    ensures r == MinistriesOf(catalog)
  {
    var entries := CountBy(catalog, Owner());
    var a := new Entry[|entries|](k requires 0 <= k < |entries| => entries[k]);
    assert a[..] == entries;
    SortInPlace(a, ByCountDesc());
    r := MinistryReport(a.Length, Take(a[..], 10));
  }

  // ---------------------------------------------------------------- query state

  /** The text in the query box and the report on display. */
  datatype QueryState = QueryState(query: string, result: Option<Report>)

  const QImproved := "How many indicators improved from 2023 to 2025?"
  const QDataOwners := "Which ministries manage GTCI indicators?"
  const QSources := "List all data sources used"
  const QMinistries := "What government departments provide data?"
  const QMissing := "Which indicators have no 2025 data?"

  /** The query behind each suggestion chip; any other key gives "". */
  function SuggestedQuery(key: string): string
  {
    if key == "improved" then QImproved
    else if key == "data_owners" then QDataOwners
    else if key == "sources" then QSources
    else if key == "ministries" then QMinistries
    else if key == "missing" then QMissing
    else ""
  }

  /** `handleQuery`: a blank query does nothing, any other is answered as typed. */
  function HandleQuery(st: QueryState, catalog: seq<Indicator>): QueryState
  {
    if Trim(st.query) == "" then st else st.(result := Some(ProcessQuery(catalog, st.query)))
  }

  /** `handleSuggested`: fills the box with the suggestion and answers it. */
  function HandleSuggested(key: string, catalog: seq<Indicator>): QueryState
  {
    var q := SuggestedQuery(key);
    QueryState(q, Some(ProcessQuery(catalog, q)))
  }

  /** The clear button. */
  function Clear(): QueryState
  {
    QueryState("", None)
  }

  // ---------------------------------------------------------------- report lemmas

  /** A blank or white-space query leaves the state as it is; any other query gets an answer. */
  lemma BlankQueryUnchanged(st: QueryState, catalog: seq<Indicator>)
    ensures IsBlank(st.query) ==> HandleQuery(st, catalog) == st
    ensures !IsBlank(st.query) ==>
      HandleQuery(st, catalog) == QueryState(st.query, Some(ProcessQuery(catalog, st.query)))
  {
    TrimEmptyIffBlank(st.query);
  }

  /** The general search lists at most five rows, each matching, in catalog order, and misses none while fewer than five match. */
  lemma SearchShape(catalog: seq<Indicator>, q: string)
    ensures var m := SearchOf(catalog, q).matched;
      && |m| <= 5
      && IsSubseq(m, catalog)
      && (forall x :: x in m ==> x in catalog && IndicatorTable.MatchesSearch(x, q))
      && (|Filter(catalog, i => IndicatorTable.MatchesSearch(i, q))| <= 5 ==>
            forall x :: x in catalog && IndicatorTable.MatchesSearch(x, q) ==> x in m)
  {
    var p := (i: Indicator) => IndicatorTable.MatchesSearch(i, q);
    var f := Filter(catalog, p);
    var m := Take(f, 5);
    FilterIsSubseq(catalog, p);
    PrefixIsSubseq(f, |m|);
    SubseqTransitive(m, f, catalog);
    forall x | x in m ensures x in catalog && p(x) {
      FilterMembership(catalog, p, x);
    }
    forall x | |f| <= 5 && x in catalog && p(x) ensures x in m {
      FilterMembership(catalog, p, x);
      assert m == f;
    }
  }

  /** An unknown suggestion key asks the empty query: the first five catalog rows. */
  lemma UnknownSuggestion(key: string, catalog: seq<Indicator>)
    requires key !in {"improved", "data_owners", "sources", "ministries", "missing"}
    ensures HandleSuggested(key, catalog) == QueryState("", Some(SearchResults(Take(catalog, 5))))
  {
    assert Lower("") == "";
    forall i | i in catalog ensures IndicatorTable.MatchesSearch(i, "") {
      ContainsEmpty(Lower(i.code));
    }
    FilterAll(catalog, i => IndicatorTable.MatchesSearch(i, ""));
    assert !Contains("", "improve") && !Contains("", "decline") && !Contains("", "miss")
      && !Contains("", "no data") && !Contains("", "source") && !Contains("", "database")
      && !Contains("", "ministry") && !Contains("", "department") && !Contains("", "owner");
  }

  /**
   * The improved and declined reports count over the whole catalog with the statistics'
   * sign test, so they count at least what the statistics count; the listed rows and the
   * "more" figure add up to the total.
   */
  lemma ChangeReportsCoverStats(catalog: seq<Indicator>)
    ensures ImprovedOf(catalog).total >= GetIndicatorStats(catalog).improved
    ensures DeclinedOf(catalog).total >= GetIndicatorStats(catalog).declined
    ensures |ImprovedOf(catalog).shown| + ImprovedOf(catalog).more == ImprovedOf(catalog).total
    ensures |DeclinedOf(catalog).shown| + DeclinedOf(catalog).more == DeclinedOf(catalog).total
  {
    var u := Universe(catalog);
    var ui := (i: Indicator) => InUniverse(i) && IsImproved(i);
    var ud := (i: Indicator) => InUniverse(i) && IsDeclined(i);
    FilterFilter(catalog, InUniverse, IsImproved, ui);
    FilterFilter(catalog, InUniverse, IsDeclined, ud);
    FilterMonotone(catalog, ui, IsImproved);
    FilterMonotone(catalog, ud, IsDeclined);
  }

  /**
   * The missing report also counts 2025 scores of 0 and removed rows, so it counts at
   * least as many rows as the statistics' `missing`.
   */
  lemma MissingReportCoversStats(catalog: seq<Indicator>)
    ensures MissingOf(catalog).total >= GetIndicatorStats(catalog).missing
  {
    var um := (i: Indicator) => InUniverse(i) && IsMissing2025(i);
    FilterFilter(catalog, InUniverse, IsMissing2025, um);
    FilterMonotone(catalog, um, IsMissingOrZero);
  }

  /** Sorting the tally keeps its length, and keeps every key once. */
  lemma SortedTallyDistinct(vs: seq<string>)
    ensures var sorted := SortBy(Tally(vs), ByCountDesc());
      |sorted| == |Dedup(vs)| && Distinct(sorted)
  {
    var tally := Tally(vs);
    var sorted := SortBy(tally, ByCountDesc());
    SortByPermutation(tally, ByCountDesc());
    assert |sorted| == |multiset(sorted)| == |multiset(tally)| == |tally|;
    TallyKeys(vs);
    assert Distinct(tally) by {
      forall i, j | 0 <= i < j < |tally| ensures tally[i] != tally[j] {
        assert Keys(tally)[i] != Keys(tally)[j];
      }
    }
    DistinctPermutation(tally, sorted);
  }

  /** A tally entry that did not make the cut has a count no larger than any listed one. */
  lemma TopEntriesMostFrequent(vs: seq<string>, n: nat, e: Entry, t: Entry)
    requires e in Tally(vs) && t in Take(SortBy(Tally(vs), ByCountDesc()), n)
    requires e !in Take(SortBy(Tally(vs), ByCountDesc()), n)
    ensures e.count <= t.count
  {
    var sorted := SortBy(Tally(vs), ByCountDesc());
    var top := Take(sorted, n);
    SortedByCountNonIncreasing(Tally(vs));
    SortByPermutation(Tally(vs), ByCountDesc());
    assert e in multiset(sorted);
    var p :| 0 <= p < |sorted| && sorted[p] == e;
    var q :| 0 <= q < |top| && top[q] == t;
    assert p >= |top| by {
      assert forall k :: 0 <= k < |top| ==> top[k] == sorted[k];
    }
    assert t == sorted[q];
  }

  /**
   * The listed part of a sorted tally: the first `n` entries, or all of them when there
   * are fewer, by non-increasing count, each counted right, each key once, and no entry
   * left out has a larger count than one listed.
   */
  lemma TopEntries(vs: seq<string>, n: nat)
    ensures var top := Take(SortBy(Tally(vs), ByCountDesc()), n);
      && |top| == (if n <= |Dedup(vs)| then n else |Dedup(vs)|)
      && (forall i, j :: 0 <= i < j < |top| ==> top[i].count >= top[j].count)
      && (forall e :: e in top ==> e.count == multiset(vs)[e.key] >= 1)
      && Distinct(Keys(top))
      && (forall e, t :: e in Tally(vs) && e !in top && t in top ==> e.count <= t.count)
  {
    var sorted := SortBy(Tally(vs), ByCountDesc());
    var top := Take(sorted, n);
    SortedByCountNonIncreasing(Tally(vs));
    SortedEntriesCounted(vs);
    SortedTallyDistinct(vs);
    forall i, j | 0 <= i < j < |top| ensures Keys(top)[i] != Keys(top)[j] {
      assert top[i] in sorted && top[j] in sorted;
      assert top[i] == sorted[i] != sorted[j] == top[j];
    }
    forall e, t | e in Tally(vs) && e !in top && t in top ensures e.count <= t.count {
      TopEntriesMostFrequent(vs, n, e, t);
    }
  }

  /** The tally of a field adds up to the number of rows where the field is non-empty. */
  lemma TallySum(rows: seq<Indicator>, field: Indicator -> string)
    ensures SumCounts(Tally(Values(rows, field))) == |Filter(rows, i => field(i) != "")|
  {
    ValuesCount(rows, field);
    TallyCounts(Values(rows, field));
  }

  /**
   * The sources report: the unique count is the number of distinct non-empty sources;
   * the eight most used sources are listed (all of them when there are fewer), each once,
   * by non-increasing count, each with the number of rows naming it; the full tally adds
   * up to the rows that have a source.
   */
  lemma SourceReportFacts(catalog: seq<Indicator>)
    ensures var r := SourcesOf(catalog);
      && r.uniqueSources == |set i | i in catalog && i.source != "" :: i.source|
      && |r.top| == (if 8 <= r.uniqueSources then 8 else r.uniqueSources)
      && Distinct(Keys(r.top))
      && (forall e, t :: e in Tally(Values(catalog, Source())) && e !in r.top && t in r.top ==> e.count <= t.count)
      && (forall i, j :: 0 <= i < j < |r.top| ==> r.top[i].count >= r.top[j].count)
      && (forall e :: e in r.top ==> e.count == multiset(Values(catalog, Source()))[e.key] >= 1)
    ensures SumCounts(Tally(Values(catalog, Source()))) == |Filter(catalog, (i: Indicator) => i.source != "")|
  {
    DistinctValues(catalog, Source());
    assert (set i | i in catalog && Source()(i) != "" :: Source()(i)) == (set i | i in catalog && i.source != "" :: i.source);
    TopEntries(Values(catalog, Source()), 8);
    TallySum(catalog, Source());
    FilterExt(catalog, (i: Indicator) => Source()(i) != "", (i: Indicator) => i.source != "");
  }

  /**
   * The ministries report: the agency count is the number of distinct non-empty owners;
   * the ten owners with the most rows are listed (all of them when there are fewer), each
   * once, by non-increasing count, each with its number of rows; the full tally adds up
   * to the rows that have an owner.
   */
  lemma MinistryReportFacts(catalog: seq<Indicator>)
    ensures var r := MinistriesOf(catalog);
      && r.agencies == |set i | i in catalog && i.dataOwner != "" :: i.dataOwner|
      && |r.top| == (if 10 <= r.agencies then 10 else r.agencies)
      && Distinct(Keys(r.top))
      && (forall e, t :: e in Tally(Values(catalog, Owner())) && e !in r.top && t in r.top ==> e.count <= t.count)
      && (forall i, j :: 0 <= i < j < |r.top| ==> r.top[i].count >= r.top[j].count)
      && (forall e :: e in r.top ==> e.count == multiset(Values(catalog, Owner()))[e.key] >= 1)
    ensures SumCounts(Tally(Values(catalog, Owner()))) == |Filter(catalog, (i: Indicator) => i.dataOwner != "")|
  {
    DistinctValues(catalog, Owner());
    assert (set i | i in catalog && Owner()(i) != "" :: Owner()(i)) == (set i | i in catalog && i.dataOwner != "" :: i.dataOwner);
    TopEntries(Values(catalog, Owner()), 10);
    SortedTallyDistinct(Values(catalog, Owner()));
    TallySum(catalog, Owner());
    FilterExt(catalog, (i: Indicator) => Owner()(i) != "", (i: Indicator) => i.dataOwner != "");
  }

  /** The number of distinct values is the number of distinct non-empty fields. */
  lemma DistinctValues(rows: seq<Indicator>, field: Indicator -> string)
    ensures |Dedup(Values(rows, field))| == |set i | i in rows && field(i) != "" :: field(i)|
  {
    var vs := Values(rows, field);
    DedupCardinality(vs);
    forall x ensures x in vs <==> x in (set i | i in rows && field(i) != "" :: field(i)) {
      ValuesMembership(rows, field, x);
      if x in vs {
        var k :| 0 <= k < |rows| && field(rows[k]) == x;
        assert rows[k] in rows;
      }
    }
    assert (set x | x in vs) == (set i | i in rows && field(i) != "" :: field(i));
  }

  /** Every sorted entry still carries its key's number of occurrences. */
  lemma SortedEntriesCounted(vs: seq<string>)
    ensures forall e :: e in SortBy(Tally(vs), ByCountDesc()) ==> e.count == multiset(vs)[e.key] >= 1
  {
    TallyCounts(vs);
    SortByPermutation(Tally(vs), ByCountDesc());
    forall e | e in SortBy(Tally(vs), ByCountDesc()) ensures e.count == multiset(vs)[e.key] >= 1 {
      assert e in multiset(SortBy(Tally(vs), ByCountDesc()));
      assert e in multiset(Tally(vs));
    }
  }

  // ---------------------------------------------------------------- suggested queries

  /** The lowered "data_owners" suggestion holds none of "improve", "decline", "miss" and "no data". */
  lemma DataOwnersLacksReportKeywords()
    ensures !Contains("which ministries manage gtci indicators?", "improve")
    ensures !Contains("which ministries manage gtci indicators?", "decline")
    ensures !Contains("which ministries manage gtci indicators?", "miss")
    ensures !Contains("which ministries manage gtci indicators?", "no data")
  {
    AbsentWindow("which ministries manage gtci indicators?", "improve", 0, 'i', 'm', 'p');
    AbsentWindow("which ministries manage gtci indicators?", "decline", 0, 'd', 'e', 'c');
    AbsentWindow("which ministries manage gtci indicators?", "miss", 0, 'm', 'i', 's');
    AbsentWindow("which ministries manage gtci indicators?", "no data", 0, 'n', 'o', ' ');
  }

  /** The lowered "data_owners" suggestion holds none of "source", "database", "ministry", "department" and "owner". */
  lemma DataOwnersLacksDirectoryKeywords()
    ensures !Contains("which ministries manage gtci indicators?", "source")
    ensures !Contains("which ministries manage gtci indicators?", "database")
    ensures !Contains("which ministries manage gtci indicators?", "ministry")
    ensures !Contains("which ministries manage gtci indicators?", "department")
    ensures !Contains("which ministries manage gtci indicators?", "owner")
  {
    AbsentWindow("which ministries manage gtci indicators?", "source", 0, 's', 'o', 'u');
    AbsentWindow("which ministries manage gtci indicators?", "database", 0, 'd', 'a', 't');
    AbsentWindow("which ministries manage gtci indicators?", "ministry", 5, 't', 'r', 'y');
    AbsentWindow("which ministries manage gtci indicators?", "department", 0, 'd', 'e', 'p');
    AbsentWindow("which ministries manage gtci indicators?", "owner", 0, 'o', 'w', 'n');
  }

  /** The lowered "sources" suggestion holds none of "improve", "decline", "miss" and "no data". */
  lemma SourcesLacksReportKeywords()
    ensures !Contains("list all data sources used", "improve")
    ensures !Contains("list all data sources used", "decline")
    ensures !Contains("list all data sources used", "miss")
    ensures !Contains("list all data sources used", "no data")
  {
    AbsentWindow("list all data sources used", "improve", 0, 'i', 'm', 'p');
    AbsentWindow("list all data sources used", "decline", 0, 'd', 'e', 'c');
    AbsentWindow("list all data sources used", "miss", 0, 'm', 'i', 's');
    AbsentWindow("list all data sources used", "no data", 0, 'n', 'o', ' ');
  }

  /** The lowered "ministries" suggestion holds neither "improve" nor "decline". */
  lemma MinistriesLacksChangeKeywords()
    ensures !Contains("what government departments provide data?", "improve")
    ensures !Contains("what government departments provide data?", "decline")
  {
    AbsentWindow("what government departments provide data?", "improve", 0, 'i', 'm', 'p');
    AbsentWindow("what government departments provide data?", "decline", 0, 'd', 'e', 'c');
  }

  /** The lowered "ministries" suggestion holds no keyword of the missing and source groups, nor "ministry". */
  lemma MinistriesLacksEarlierKeywords()
    ensures !Contains("what government departments provide data?", "miss")
    ensures !Contains("what government departments provide data?", "no data")
    ensures !Contains("what government departments provide data?", "source")
    ensures !Contains("what government departments provide data?", "database")
    ensures !Contains("what government departments provide data?", "ministry")
  {
    AbsentWindow("what government departments provide data?", "miss", 0, 'm', 'i', 's');
    AbsentWindow("what government departments provide data?", "no data", 0, 'n', 'o', ' ');
    AbsentWindow("what government departments provide data?", "source", 0, 's', 'o', 'u');
    AbsentWindow("what government departments provide data?", "database", 2, 't', 'a', 'b');
    AbsentWindow("what government departments provide data?", "ministry", 0, 'm', 'i', 'n');
  }

  /** The lowered "missing" suggestion holds none of "improve", "decline", "miss" and "no data". */
  lemma MissingLacksReportKeywords()
    ensures !Contains("which indicators have no 2025 data?", "improve")
    ensures !Contains("which indicators have no 2025 data?", "decline")
    ensures !Contains("which indicators have no 2025 data?", "miss")
    ensures !Contains("which indicators have no 2025 data?", "no data")
  {
    AbsentWindow("which indicators have no 2025 data?", "improve", 0, 'i', 'm', 'p');
    AbsentWindow("which indicators have no 2025 data?", "decline", 0, 'd', 'e', 'c');
    AbsentWindow("which indicators have no 2025 data?", "miss", 0, 'm', 'i', 's');
    AbsentWindow("which indicators have no 2025 data?", "no data", 1, 'o', ' ', 'd');
  }

  /** The lowered "missing" suggestion holds none of "source", "database", "ministry", "department" and "owner". */
  lemma MissingLacksDirectoryKeywords()
    ensures !Contains("which indicators have no 2025 data?", "source")
    ensures !Contains("which indicators have no 2025 data?", "database")
    ensures !Contains("which indicators have no 2025 data?", "ministry")
    ensures !Contains("which indicators have no 2025 data?", "department")
    ensures !Contains("which indicators have no 2025 data?", "owner")
  {
    AbsentWindow("which indicators have no 2025 data?", "source", 0, 's', 'o', 'u');
    AbsentWindow("which indicators have no 2025 data?", "database", 2, 't', 'a', 'b');
    AbsentWindow("which indicators have no 2025 data?", "ministry", 0, 'm', 'i', 'n');
    AbsentWindow("which indicators have no 2025 data?", "department", 0, 'd', 'e', 'p');
    AbsentWindow("which indicators have no 2025 data?", "owner", 0, 'o', 'w', 'n');
  }

  /** The "improved" suggestion reaches ImprovedRoute. */
  lemma SuggestedImprovedRoute()
    ensures RouteOf(SuggestedQuery("improved")) == ImprovedRoute
  {
    PresentAt(Lower(QImproved), "improve", 20);
  }

  lemma LowerDataOwnersPart1()
    ensures LowerAgrees(QDataOwners, "which ministries manage gtci indicators?", 0, 10)
  {
  }

  lemma LowerDataOwnersPart2()
    ensures LowerAgrees(QDataOwners, "which ministries manage gtci indicators?", 10, 20)
  {
  }

  lemma LowerDataOwnersPart3()
    ensures LowerAgrees(QDataOwners, "which ministries manage gtci indicators?", 20, 30)
  {
  }

  lemma LowerDataOwnersPart4()
    ensures LowerAgrees(QDataOwners, "which ministries manage gtci indicators?", 30, 40)
  {
  }

  lemma LowerDataOwners()
    ensures Lower(QDataOwners) == "which ministries manage gtci indicators?"
  {
    LowerDataOwnersPart1();
    LowerDataOwnersPart2();
    LowerDataOwnersPart3();
    LowerDataOwnersPart4();
  }

  /** The "data_owners" suggestion reaches SearchRoute. */
  lemma SuggestedDataOwnersRoute()
    ensures RouteOf(SuggestedQuery("data_owners")) == SearchRoute
  {
    LowerDataOwners();
    DataOwnersLacksReportKeywords();
    DataOwnersLacksDirectoryKeywords();
  }

  lemma LowerSourcesPart1()
    ensures LowerAgrees(QSources, "list all data sources used", 0, 10)
  {
  }

  lemma LowerSourcesPart2()
    ensures LowerAgrees(QSources, "list all data sources used", 10, 20)
  {
  }

  lemma LowerSourcesPart3()
    ensures LowerAgrees(QSources, "list all data sources used", 20, 26)
  {
  }

  lemma LowerSources()
    ensures Lower(QSources) == "list all data sources used"
  {
    LowerSourcesPart1();
    LowerSourcesPart2();
    LowerSourcesPart3();
  }

  /** The "sources" suggestion reaches SourceRoute. */
  lemma SuggestedSourcesRoute()
    ensures RouteOf(SuggestedQuery("sources")) == SourceRoute
  {
    LowerSources();
    SourcesLacksReportKeywords();
    PresentAt("list all data sources used", "source", 14);
  }

  lemma LowerMinistriesPart1()
    ensures LowerAgrees(QMinistries, "what government departments provide data?", 0, 10)
  {
  }

  lemma LowerMinistriesPart2()
    ensures LowerAgrees(QMinistries, "what government departments provide data?", 10, 20)
  {
  }

  lemma LowerMinistriesPart3()
    ensures LowerAgrees(QMinistries, "what government departments provide data?", 20, 30)
  {
  }

  lemma LowerMinistriesPart4()
    ensures LowerAgrees(QMinistries, "what government departments provide data?", 30, 40)
  {
  }

  lemma LowerMinistriesPart5()
    ensures LowerAgrees(QMinistries, "what government departments provide data?", 40, 41)
  {
  }

  lemma LowerMinistries()
    ensures Lower(QMinistries) == "what government departments provide data?"
  {
    LowerMinistriesPart1();
    LowerMinistriesPart2();
    LowerMinistriesPart3();
    LowerMinistriesPart4();
    LowerMinistriesPart5();
  }

  /** The "ministries" suggestion reaches MinistryRoute. */
  lemma SuggestedMinistriesRoute()
    ensures RouteOf(SuggestedQuery("ministries")) == MinistryRoute
  {
    LowerMinistries();
    MinistriesLacksChangeKeywords();
    MinistriesLacksEarlierKeywords();
    PresentAt("what government departments provide data?", "department", 16);
  }

  lemma LowerMissingPart1()
    ensures LowerAgrees(QMissing, "which indicators have no 2025 data?", 0, 10)
  {
  }

  lemma LowerMissingPart2()
    ensures LowerAgrees(QMissing, "which indicators have no 2025 data?", 10, 20)
  {
  }

  lemma LowerMissingPart3()
    ensures LowerAgrees(QMissing, "which indicators have no 2025 data?", 20, 30)
  {
  }

  lemma LowerMissingPart4()
    ensures LowerAgrees(QMissing, "which indicators have no 2025 data?", 30, 35)
  {
  }

  lemma LowerMissing()
    ensures Lower(QMissing) == "which indicators have no 2025 data?"
  {
    LowerMissingPart1();
    LowerMissingPart2();
    LowerMissingPart3();
    LowerMissingPart4();
  }

  /** The "missing" suggestion reaches SearchRoute. */
  lemma SuggestedMissingRoute()
    ensures RouteOf(SuggestedQuery("missing")) == SearchRoute
  {
    LowerMissing();
    MissingLacksReportKeywords();
    MissingLacksDirectoryKeywords();
  }
}
