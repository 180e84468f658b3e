/**
 * A few rows of the shipped catalog (src/data/indicators.ts), as written there, and what
 * the catalog rules make of them: the replaced/new pairs that share a code, a row whose
 * 2025 score is a measured zero, and two rows whose score did not move.
 */
module ShippedRows {
  import opened Wrappers
  import opened Indicators
  import opened SourceViewer

  /** Source lines 124 to 128: the 1.2.5, 1.2.6 and 1.2.7 rows of the Market Landscape. */
  const Lines124To128: seq<RawIndicator> := [
    RawIndicator("1.2.5", "ICT Infrastructure", "Enable", "1.2 Market Landscape", Some(0.00), None, "", "", "AITI", Some(Replaced), Some("Replaced by 1.2.5 Population covered by at least a 3G mobile network")),
    RawIndicator("1.2.5", "Population covered by at least a 3G mobile network", "Enable", "1.2 Market Landscape", None, Some(93.09), "International Telecommunication Union, ITU DataHub", "datahub.itu.int", "AITI", Some(New), None),
    RawIndicator("1.2.6", "Urbanisation", "Enable", "1.2 Market Landscape", Some(74.28), None, "World Urbanization Prospects, United Nations", "population.un.org/wup", "Dept of Town and Country Planning (TCP)", Some(Replaced), Some("Replaced by 1.2.7 Urbanisation")),
    RawIndicator("1.2.6", "Internet access in schools", "Enable", "1.2 Market Landscape", None, None, "UNESCO Institute for Statistics, UIS.Stat", "data.uis.unesco.org", "Ministry of Education (MOE)", Some(New), None),
    RawIndicator("1.2.7", "Urbanisation", "Enable", "1.2 Market Landscape", None, Some(75.76), "World Urbanization Prospects, United Nations", "population.un.org/wup", "Dept of Town and Country Planning (TCP)", Some(CodeChanged), None)
  ]

  /** Source line 163: 3.2.1, scored 0 in both editions. */
  const Line163: RawIndicator :=
    RawIndicator("3.2.1", "Business masters education", "Grow", "3.2 Lifelong Learning", Some(0.00), Some(0.00), "Quacquarelli Symonds Ltd, QS Global MBA and Business Masters Rankings 2025", "www.topmba.com", "UBD / UTB", None, None)

  /** Source line 174: 4.1.1, scored 100 in both editions. */
  const Line174: RawIndicator :=
    RawIndicator("4.1.1", "Pension coverage", "Retain", "4.1 Sustainability", Some(100.00), Some(100.00), "International Labour Organization, Social Security Inquiry (SSI); UN Global SDG Indicators Database", "unstats.un.org/sdgs/indicatorsdatabase", "TAP (Employees Trust Fund)", None, None)

  /** Source line 218: 6.2.6, from 5.33 in 2023 to a measured 0.00 in 2025. */
  const Line218: RawIndicator :=
    RawIndicator("6.2.6", "New business density", "Global Knowledge Skills", "6.2 Talent Impact", Some(5.33), Some(0.00), "World Bank, Entrepreneurship Database", "www.worldbank.org/en/programs/entrepreneurship", "ROCBN (Registry of Companies and Business Names)", Some(CodeChanged), None)

  /**
   * Of the five rows, exactly the two replaced 2023 rows are 2023-only, so among them
   * `is2023Only` implies the `replaced` tag; the 1.2.7 "Urbanisation" row keeps its name
   * but not the code, so it is not 2023-only.
   */
  lemma ReplacedRowsAre2023Only()
    ensures forall k :: 0 <= k < |Lines124To128| ==>
      (Is2023Only(Lines124To128[k]) <==> k == 0 || k == 2)
    ensures forall k :: 0 <= k < |Lines124To128| && Is2023Only(Lines124To128[k]) ==>
      Lines124To128[k].indicatorStatus == Some(Replaced)
  {
    var r := Lines124To128;
    assert Is2023Only(r[0]) && Is2023Only(r[2]);
    assert r[1].name != "ICT Infrastructure" && r[3].name != "Urbanisation" && r[4].code != "1.2.6";
  }

  /**
   * Wherever the five rows sit in a catalog, if no later row reuses the codes 1.2.5 and
   * 1.2.6, the code-to-name lookup resolves each of them to the later (2025) row's name.
   */
  lemma ReplacementLookups(catalog: seq<Indicator>, at: nat)
    requires at + |Lines124To128| <= |catalog|
    requires forall i :: 0 <= i < |Lines124To128| ==>
      catalog[at + i].code == Lines124To128[i].code && catalog[at + i].name == Lines124To128[i].name
    requires forall j :: at + |Lines124To128| <= j < |catalog| ==>
      catalog[j].code != "1.2.5" && catalog[j].code != "1.2.6"
    ensures "1.2.5" in CodeToName(catalog)
    ensures CodeToName(catalog)["1.2.5"] == "Population covered by at least a 3G mobile network"
    ensures "1.2.6" in CodeToName(catalog)
    ensures CodeToName(catalog)["1.2.6"] == "Internet access in schools"
  {
    var r := Lines124To128;
    assert catalog[at + 1].code == r[1].code && catalog[at + 1].name == r[1].name;
    assert catalog[at + 2].code == r[2].code;
    assert catalog[at + 3].code == r[3].code && catalog[at + 3].name == r[3].name;
    assert catalog[at + 4].code == r[4].code;
    CodeToNameAt(catalog, at + 1);
    CodeToNameAt(catalog, at + 3);
  }

  /** 6.2.6 went from 5.33 to a measured 0.00: it counts as declined and not as missing. */
  lemma MeasuredZeroIsDeclined(k: nat)
    ensures GetIndicatorStats([ToIndicator(Line218, k)]) == Stats(0, 1, 0, 1)
  {
    StatsOfOne(ToIndicator(Line218, k));
  }

  /** 3.2.1 (0 to 0) and 4.1.1 (100 to 100) are in the universe but in no category. */
  lemma UnchangedRowsUncounted(k: nat)
    ensures GetIndicatorStats([ToIndicator(Line163, k)]) == Stats(0, 0, 0, 1)
    ensures GetIndicatorStats([ToIndicator(Line174, k)]) == Stats(0, 0, 0, 1)
  {
    StatsOfOne(ToIndicator(Line163, k));
    StatsOfOne(ToIndicator(Line174, k));
  }
}
