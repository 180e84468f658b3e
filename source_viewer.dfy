/**
 * The source-data viewer: a spreadsheet of data sources shown as a searchable table with
 * a three-state column sort, whose codes column is resolved against the indicator catalog
 * and whose last column is shown as a link.
 */
module SourceViewer {
  import opened Wrappers
  import opened Seqs
  import opened Sorting
  import opened Text
  import opened Indicators

  type Row = seq<string>

  // ---------------------------------------------------------------- code -> name

  /** The position of the last row with code `c`. */
  function LastIndex(catalog: seq<Indicator>, c: string): (k: nat)
    requires exists j :: 0 <= j < |catalog| && catalog[j].code == c
    ensures k < |catalog| && catalog[k].code == c
    ensures forall j :: k < j < |catalog| ==> catalog[j].code != c
  {
    if catalog[|catalog| - 1].code == c then |catalog| - 1
    else
      var init := catalog[..|catalog| - 1];
      assert exists j :: 0 <= j < |init| && init[j].code == c by {
        var j :| 0 <= j < |catalog| && catalog[j].code == c;
        assert init[j] == catalog[j];
      }
      LastIndex(init, c)
  }

  /**
   * The dictionary from indicator code to indicator name: every catalog code, mapped to
   * the name of the last row that has it.
   */
  function CodeToName(catalog: seq<Indicator>): map<string, string>
  {
    map c | c in CatalogCodes(catalog) :: catalog[LastIndex(catalog, c)].name
  }

  /** The codes the catalog rows carry. */
  function CatalogCodes(catalog: seq<Indicator>): set<string>
  {
    set i | i in catalog :: i.code
  }

  /** The codes of one more row: the old codes and the new row's own. */
  lemma CodesStep(catalog: seq<Indicator>, x: Indicator)
    ensures CatalogCodes(catalog + [x]) == CatalogCodes(catalog) + {x.code}
  {
    var s := catalog + [x];
    forall c | c in CatalogCodes(s) ensures c in CatalogCodes(catalog) + {x.code} {
      var i :| i in s && i.code == c;
      assert i in catalog || i == x;
    }
    forall c | c in CatalogCodes(catalog) ensures c in CatalogCodes(s) {
      var i :| i in catalog && i.code == c;
      assert i in s;
    }
  }

  /** A row with another code leaves the last position of `c` where it was. */
  lemma LastIndexStep(catalog: seq<Indicator>, x: Indicator, c: string)
    requires c != x.code && exists j :: 0 <= j < |catalog| && catalog[j].code == c
    ensures exists j :: 0 <= j < |catalog + [x]| && (catalog + [x])[j].code == c
    ensures LastIndex(catalog + [x], c) == LastIndex(catalog, c)
  {
    var s := catalog + [x];
    var j :| 0 <= j < |catalog| && catalog[j].code == c;
    assert s[j] == catalog[j];
    assert s[..|s| - 1] == catalog;
  }

  /** One more row sets (or overwrites) its own code and leaves the other codes alone. */
  lemma CodeToNameStep(catalog: seq<Indicator>, x: Indicator)
    ensures CodeToName(catalog + [x]) == CodeToName(catalog)[x.code := x.name]
  {
    var s := catalog + [x];
    var m, m' := CodeToName(catalog), CodeToName(s);
    CodesStep(catalog, x);
    assert m'.Keys == m[x.code := x.name].Keys;
    forall c | c in m' ensures m'[c] == m[x.code := x.name][c] {
      if c != x.code {
        assert c in CatalogCodes(catalog);
        var i :| i in catalog && i.code == c;
        var j :| 0 <= j < |catalog| && catalog[j] == i;
        LastIndexStep(catalog, x, c);
      }
    }
  }

  /** `indicators.forEach(ind => map[ind.code] = ind.name)`. */
  method BuildCodeToName(catalog: seq<Indicator>) returns (m: map<string, string>)
    ensures m == CodeToName(catalog)
  {
    m := map[];
    for i := 0 to |catalog|
      invariant m == CodeToName(catalog[..i])
    {
      CodeToNameStep(catalog[..i], catalog[i]);
      assert catalog[..i + 1] == catalog[..i] + [catalog[i]];
      m := m[catalog[i].code := catalog[i].name];
    }
    assert catalog[..|catalog|] == catalog;
  }

  /**
   * The dictionary's keys are exactly the catalog codes, and a code is mapped to the name
   * of a row with that code after which no row has it.
   */
  lemma CodeToNameLastWins(catalog: seq<Indicator>, c: string)
    ensures c in CodeToName(catalog) <==> exists k :: 0 <= k < |catalog| && catalog[k].code == c
    ensures c in CodeToName(catalog) ==> exists k ::
      && 0 <= k < |catalog| && catalog[k].code == c && CodeToName(catalog)[c] == catalog[k].name
      && forall j :: k < j < |catalog| ==> catalog[j].code != c
  {
    if exists k :: 0 <= k < |catalog| && catalog[k].code == c {
      var k :| 0 <= k < |catalog| && catalog[k].code == c;
      assert catalog[k] in catalog;
    }
    if c in CodeToName(catalog) {
      var i :| i in catalog && i.code == c;
      var k :| 0 <= k < |catalog| && catalog[k] == i;
      assert 0 <= LastIndex(catalog, c);
    }
  }

  /** A row after which no row repeats its code supplies that code's name. */
  lemma CodeToNameAt(catalog: seq<Indicator>, k: nat)
    requires k < |catalog|
    requires forall j :: k < j < |catalog| ==> catalog[j].code != catalog[k].code
    ensures catalog[k].code in CodeToName(catalog)
    ensures CodeToName(catalog)[catalog[k].code] == catalog[k].name
  {
    assert catalog[k] in catalog;
    var l := LastIndex(catalog, catalog[k].code);
  }

  const Unknown := "Unknown indicator"

  /** `map[code] || "Unknown indicator"`: a missing code and an empty name both read as unknown. */
  function LookupName(m: map<string, string>, code: string): (r: string)
    ensures r == Unknown <==> code !in m || m[code] == "" || m[code] == Unknown
    ensures r != Unknown ==> code in m && r == m[code]
  {
    if code in m && m[code] != "" then m[code] else Unknown
  }

  /** One resolved entry of the codes column: the trimmed code and its indicator name. */
  datatype CodeLabel = CodeLabel(code: string, name: string)

  /** The codes column: split on ",", each piece trimmed and looked up. */
  function CodeLabels(cell: string, m: map<string, string>): (r: seq<CodeLabel>)
    ensures |r| == |Split(cell, ',')|
    ensures forall k :: 0 <= k < |r| ==> r[k].code == Trim(Split(cell, ',')[k])
    ensures forall k :: 0 <= k < |r| ==> r[k].name == LookupName(m, r[k].code)
  {
    var pieces := Split(cell, ',');
    seq(|pieces|, k requires 0 <= k < |pieces| => CodeLabel(Trim(pieces[k]), LookupName(m, Trim(pieces[k]))))
  }

  /**
   * Every label in the codes column is a trimmed piece of the cell, and its name is the
   * catalog's last name for that code unless the code is not in the catalog.
   */
  lemma CodeLabelsFacts(cell: string, catalog: seq<Indicator>, k: nat)
    requires k < |CodeLabels(cell, CodeToName(catalog))|
    ensures var l := CodeLabels(cell, CodeToName(catalog))[k];
      && ',' !in l.code
      && Trim(l.code) == l.code
      && ((!exists j :: 0 <= j < |catalog| && catalog[j].code == l.code) ==> l.name == Unknown)
  {
    var pieces := Split(cell, ',');
    SplitPiecesFree(cell, ',');
    var p := pieces[k];
    TrimIdempotent(p);
    var t := Trim(p);
    var u := TrimStart(p);
    assert t == u[..|t|] && u == p[|p| - |u|..];
    assert forall i :: 0 <= i < |t| ==> t[i] == p[|p| - |u| + i];
    CodeToNameLastWins(catalog, t);
  }

  // ---------------------------------------------------------------- sort cycle

  datatype Direction = Ascending | Descending

  /** The sorted column (-1 for none) and the direction (null for none). */
  datatype SortConfig = SortConfig(column: int, direction: Option<Direction>)

  const Unsorted := SortConfig(-1, None)

  /** `handleSort`: a new column sorts ascending; the same column goes asc, desc, unsorted. */
  function HandleSort(prev: SortConfig, col: int): SortConfig
  {
    if prev.column == col && prev.direction == Some(Ascending) then SortConfig(col, Some(Descending))
    else if prev.column == col && prev.direction == Some(Descending) then Unsorted
    else SortConfig(col, Some(Ascending))
  }

  /** The direction is null exactly when no column is selected. */
  predicate ValidConfig(c: SortConfig)
  {
    c.column >= -1 && (c.direction.None? <==> c.column == -1)
  }

  /** The initial configuration is valid, and clicks on column headers keep it valid. */
  lemma HandleSortValid(c: SortConfig, col: int)
    requires ValidConfig(c) && col >= 0
    ensures ValidConfig(Unsorted)
    ensures ValidConfig(HandleSort(c, col))
  {
  }

  /** Three clicks on a column not currently sorted go ascending, descending, then unsorted. */
  lemma ThreeClicks(c: SortConfig, col: int)
    requires ValidConfig(c) && col >= 0 && c.column != col
    ensures HandleSort(c, col) == SortConfig(col, Some(Ascending))
    ensures HandleSort(HandleSort(c, col), col) == SortConfig(col, Some(Descending))
    ensures HandleSort(HandleSort(HandleSort(c, col), col), col) == Unsorted
  {
  }

  // ---------------------------------------------------------------- rows

  /** Some cell of the row contains the query, both lowercased. */
  predicate RowMatches(row: Row, query: string)
  {
    exists k :: 0 <= k < |row| && Contains(Lower(row[k]), Lower(query))
  }

  /** The search: an empty query keeps every row. */
  function FilterRows(rows: seq<Row>, query: string): seq<Row>
  {
    if query != "" then Filter(rows, r => RowMatches(r, query)) else rows
  }

  /** Whether the configuration asks for a sort at all. */
  predicate SortActive(c: SortConfig)
  {
    c.column >= 0 && c.direction.Some?
  }

  /**
   * `filteredAndSortedData`; the comparator (numeric when both cells parse as numbers,
   * locale order otherwise) is a parameter: `after(a, b)` when it puts `a` after `b`.
   */
  function ViewRows(rows: seq<Row>, query: string, c: SortConfig, after: (Row, Row) -> bool): seq<Row>
  {
    var filtered := FilterRows(rows, query);
    if SortActive(c) then SortBy(filtered, after) else filtered
  }

  /** The same, filtering a copy of the rows and sorting it in place. */
  method FilteredAndSortedData(data: array<Row>, query: string, c: SortConfig, after: (Row, Row) -> bool)
    returns (result: seq<Row>)
    ensures result == ViewRows(data[..], query, c, after)
  {
    var rows := FilterRows(data[..], query);
    if SortActive(c) {
      var a := new Row[|rows|](k requires 0 <= k < |rows| => rows[k]);
      assert a[..] == rows;
      SortInPlace(a, after);
      result := a[..];
    } else {
      result := rows;
    }
  }

  /**
   * An empty search keeps every row; otherwise a row is kept exactly when some cell
   * contains the query. The kept rows keep their order unless a sort is active, and are
   * only reordered by it.
   */
  lemma ViewRowsFacts(rows: seq<Row>, query: string, c: SortConfig, after: (Row, Row) -> bool, x: Row)
    ensures query == "" ==> FilterRows(rows, query) == rows
    ensures x in FilterRows(rows, query) <==> x in rows && (query == "" || RowMatches(x, query))
    ensures IsSubseq(FilterRows(rows, query), rows)
    ensures !SortActive(c) ==> ViewRows(rows, query, c, after) == FilterRows(rows, query)
    ensures multiset(ViewRows(rows, query, c, after)) == multiset(FilterRows(rows, query))
  {
    var p := (r: Row) => RowMatches(r, query);
    if query != "" {
      FilterMembership(rows, p, x);
      FilterIsSubseq(rows, p);
    } else {
      PrefixIsSubseq(rows, |rows|);
      assert rows[..|rows|] == rows;
    }
    SortByPermutation(FilterRows(rows, query), after);
  }

  // ---------------------------------------------------------------- cells

  /** How a cell is shown. */
  datatype CellView =
    | Link(href: string, text: string)
    | Codes(labels: seq<CodeLabel>)
    | Plain(text: string)

  /** `s.replace(/\\/g, "")`. */
  function StripBackslashes(s: string): (r: string)
    ensures '\\' !in r
    ensures multiset(r) == multiset(s)['\\' := 0]
    ensures IsSubseq(r, s)
  {
    RemoveCharIsSubseq(s, '\\');
    RemoveChar(s, '\\')
  }

  /**
   * The cell in column `col` of a table with `width` columns: a non-empty last cell is a
   * link, column 3 lists codes, and any other cell is shown as it is ("–" when empty).
   */
  function CellOf(row: Row, col: nat, width: nat, m: map<string, string>): CellView
    requires col < |row|
  {
    var cell := row[col];
    if col == width - 1 && cell != "" then
      Link("https://" + StripBackslashes(cell), StripBackslashes(cell))
    else if col == 3 then Codes(CodeLabels(cell, m))
    else Plain(if cell == "" then "–" else cell)
  }

  /** A link's text and address have no backslash, and the address is the text behind `https://`. */
  lemma LinkHasNoBackslash(row: Row, col: nat, width: nat, m: map<string, string>)
    requires col < |row|
    ensures CellOf(row, col, width, m).Link? ==>
      var l := CellOf(row, col, width, m);
      && '\\' !in l.text && '\\' !in l.href
      && l.href == "https://" + l.text
      && l.text == StripBackslashes(row[col])
  {
    var l := CellOf(row, col, width, m);
    if l.Link? {
      assert forall i :: 0 <= i < |l.href| ==> l.href[i] == ("https://" + l.text)[i];
      assert '\\' !in "https://";
    }
  }

  /** Headers and data rows of the table. */
  datatype Table = Table(headers: Row, data: seq<Row>)

  /** The first sheet row becomes the headers; an empty sheet leaves both empty. */
  function SheetToTable(sheet: seq<Row>): (r: Table)
    ensures sheet == [] ==> r == Table([], [])
    ensures sheet != [] ==> [r.headers] + r.data == sheet
  {
    if |sheet| > 0 then Table(sheet[0], sheet[1..]) else Table([], [])
  }
}
