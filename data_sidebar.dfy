/**
 * The data-input sidebar: the catalog grouped by sub-pillar in order of first appearance,
 * the group headings and the read-only score inputs.
 */
module DataSidebar {
  import opened Wrappers
  import opened Seqs
  import opened Text
  import opened Indicators

  /** One sub-pillar and its rows, as enumerated from the grouping record. */
  datatype Group = Group(subpillar: string, inds: seq<Indicator>)

  /** The sub-pillar label of every row, in order. */
  function Subpillars(rows: seq<Indicator>): (r: seq<string>)
    ensures |r| == |rows| && forall k :: 0 <= k < |r| ==> r[k] == rows[k].subpillar
  {
    seq(|rows|, k requires 0 <= k < |rows| => rows[k].subpillar)
  }

  /** The rows with the given sub-pillar, in catalog order. */
  function GroupOf(rows: seq<Indicator>, subpillar: string): seq<Indicator>
  {
    Filter(rows, (i: Indicator) => i.subpillar == subpillar)
  }

  /** The groups of the given sub-pillars, in that order. */
  function GroupsFor(keys: seq<string>, rows: seq<Indicator>): (r: seq<Group>)
    ensures |r| == |keys|
    ensures forall j :: 0 <= j < |r| ==> r[j] == Group(keys[j], GroupOf(rows, keys[j]))
  {
    seq(|keys|, j requires 0 <= j < |keys| => Group(keys[j], GroupOf(rows, keys[j])))
  }

  /** The grouping record read back with `Object.entries`: sub-pillars in first-seen order. */
  function Grouped(catalog: seq<Indicator>): seq<Group>
  {
    GroupsFor(Dedup(Subpillars(catalog)), catalog)
  }

  /** The loop's record and key order group the rows seen so far. */
  ghost predicate GroupState(order: seq<string>, groups: map<string, seq<Indicator>>, seen: seq<Indicator>)
  {
    && order == Dedup(Subpillars(seen))
    && (forall k :: k in groups <==> k in order)
    && (forall k :: k in groups ==> groups[k] == GroupOf(seen, k))
  }

  lemma GroupOfStep(seen: seq<Indicator>, x: Indicator, k: string)
    ensures GroupOf(seen + [x], k) == GroupOf(seen, k) + (if x.subpillar == k then [x] else [])
  {
    FilterConcat(seen, [x], (i: Indicator) => i.subpillar == k);
  }

  /** A sub-pillar that no row carries has an empty group. */
  lemma GroupOfAbsent(seen: seq<Indicator>, sp: string)
    requires sp !in Subpillars(seen)
    ensures GroupOf(seen, sp) == []
  {
    if GroupOf(seen, sp) != [] {
      var y := GroupOf(seen, sp)[0];
      FilterMembership(seen, (i: Indicator) => i.subpillar == sp, y);
    }
  }

  /** The key order after one more row: its sub-pillar is appended unless already seen. */
  lemma OrderStep(seen: seq<Indicator>, x: Indicator)
    ensures Dedup(Subpillars(seen + [x])) ==
      if x.subpillar in Subpillars(seen) then Dedup(Subpillars(seen)) else Dedup(Subpillars(seen)) + [x.subpillar]
  {
    assert Subpillars(seen + [x]) == Subpillars(seen) + [x.subpillar];
    DedupStep(Subpillars(seen), x.subpillar);
  }

  /** Appending a row to its own, already present, bucket keeps every bucket equal to its group. */
  lemma BucketsStepSeen(groups: map<string, seq<Indicator>>, seen: seq<Indicator>, x: Indicator)
    requires forall k :: k in groups ==> groups[k] == GroupOf(seen, k)
    requires x.subpillar in groups
    ensures var groups' := groups[x.subpillar := groups[x.subpillar] + [x]];
      forall k :: k in groups' ==> groups'[k] == GroupOf(seen + [x], k)
  {
    var sp := x.subpillar;
    var groups' := groups[sp := groups[sp] + [x]];
    forall k | k in groups' ensures groups'[k] == GroupOf(seen + [x], k) {
      GroupOfStep(seen, x, k);
      if k == sp {
        assert groups'[k] == GroupOf(seen, k) + [x];
      } else {
        assert groups'[k] == GroupOf(seen, k);
      }
    }
  }

  /** A sub-pillar already in the key order leaves the order as it is. */
  lemma OrderStepSeen(order: seq<string>, seen: seq<Indicator>, x: Indicator)
    requires order == Dedup(Subpillars(seen)) && x.subpillar in order
    ensures order == Dedup(Subpillars(seen + [x]))
  {
    DedupMembership(Subpillars(seen), x.subpillar);
    OrderStep(seen, x);
  }

  lemma GroupStepSeen(order: seq<string>, groups: map<string, seq<Indicator>>, seen: seq<Indicator>, x: Indicator)
    requires GroupState(order, groups, seen) && x.subpillar in groups
    ensures GroupState(order, groups[x.subpillar := groups[x.subpillar] + [x]], seen + [x])
  {
    OrderStepSeen(order, seen, x);
    BucketsStepSeen(groups, seen, x);
  }

  lemma GroupStepNew(order: seq<string>, groups: map<string, seq<Indicator>>, seen: seq<Indicator>, x: Indicator)
    requires GroupState(order, groups, seen) && x.subpillar !in groups
    ensures GroupState(order + [x.subpillar], groups[x.subpillar := [x]], seen + [x])
  {
    var sp := x.subpillar;
    var groups' := groups[sp := [x]];
    assert sp !in Subpillars(seen) by {
      DedupMembership(Subpillars(seen), sp);
    }
    assert order + [sp] == Dedup(Subpillars(seen + [x])) by {
      OrderStep(seen, x);
    }
    assert forall k :: k in groups' ==> groups'[k] == GroupOf(seen + [x], k) by {
      GroupOfAbsent(seen, sp);
      forall k | k in groups' ensures groups'[k] == GroupOf(seen + [x], k) {
        GroupOfStep(seen, x, k);
      }
    }
  }

  lemma GroupStateEntries(order: seq<string>, groups: map<string, seq<Indicator>>, catalog: seq<Indicator>)
    requires GroupState(order, groups, catalog)
    ensures forall j :: 0 <= j < |order| ==> order[j] in groups
    ensures seq(|order|, j requires 0 <= j < |order| && order[j] in groups => Group(order[j], groups[order[j]])) == Grouped(catalog)
  {
  }

  /** `groupedIndicators`: one pass over the catalog appending each row to its group. */
  method GroupIndicators(catalog: seq<Indicator>) returns (entries: seq<Group>)
    ensures entries == Grouped(catalog)
  {
    var groups: map<string, seq<Indicator>> := map[];
    var order: seq<string> := [];
    for i := 0 to |catalog|
      invariant GroupState(order, groups, catalog[..i])
    {
      var x := catalog[i];
      assert catalog[..i + 1] == catalog[..i] + [x];
      if x.subpillar !in groups {
        GroupStepNew(order, groups, catalog[..i], x);
        groups := groups[x.subpillar := [x]];
        order := order + [x.subpillar];
      } else {
        GroupStepSeen(order, groups, catalog[..i], x);
        groups := groups[x.subpillar := groups[x.subpillar] + [x]];
      }
    }
    assert catalog[..|catalog|] == catalog;
    GroupStateEntries(order, groups, catalog);
    entries := seq(|order|, j requires 0 <= j < |order| && order[j] in groups => Group(order[j], groups[order[j]]));
  }

  // ---------------------------------------------------------------- partition

  /**
   * A row is in a group exactly when it is in the catalog and has the group's sub-pillar;
   * the sub-pillars are distinct, so every row lands in exactly one group. Each group is
   * non-empty and keeps catalog order, and groups come in order of first appearance.
   */
  lemma GroupedFacts(catalog: seq<Indicator>, j: nat, x: Indicator)
    requires j < |Grouped(catalog)|
    ensures var g := Grouped(catalog)[j];
      && (x in g.inds <==> x in catalog && x.subpillar == g.subpillar)
      && |g.inds| > 0 && g.inds[0].subpillar == g.subpillar
      && IsSubseq(g.inds, catalog)
    ensures forall a, b :: 0 <= a < b < |Grouped(catalog)| ==> Grouped(catalog)[a].subpillar != Grouped(catalog)[b].subpillar
    ensures x in catalog ==> exists k :: 0 <= k < |Grouped(catalog)| && Grouped(catalog)[k].subpillar == x.subpillar
    ensures forall a, b :: 0 <= a < b < |Grouped(catalog)| ==>
      FirstIndex(Subpillars(catalog), Grouped(catalog)[a].subpillar) < FirstIndex(Subpillars(catalog), Grouped(catalog)[b].subpillar)
  {
    var keys := Dedup(Subpillars(catalog));
    var g := Grouped(catalog)[j];
    var p := (i: Indicator) => i.subpillar == g.subpillar;
    FilterMembership(catalog, p, x);
    FilterIsSubseq(catalog, p);
    assert g.subpillar in Subpillars(catalog);
    var k :| 0 <= k < |catalog| && Subpillars(catalog)[k] == g.subpillar;
    FilterMembership(catalog, p, catalog[k]);
    assert g.inds[0] in g.inds;
    FilterMembership(catalog, p, g.inds[0]);
    if x in catalog {
      var m :| 0 <= m < |catalog| && catalog[m] == x;
      assert Subpillars(catalog)[m] == x.subpillar;
      DedupMembership(Subpillars(catalog), x.subpillar);
    }
    DedupFirstOccurrenceOrder(Subpillars(catalog));
  }

  /** The total number of rows over a list of groups. */
  function Sizes(gs: seq<Group>): nat
  {
    if gs == [] then 0 else Sizes(gs[..|gs| - 1]) + |gs[|gs| - 1].inds|
  }

  lemma {:induction false} SizesAppend(keys: seq<string>, k: string, rows: seq<Indicator>)
    ensures Sizes(GroupsFor(keys + [k], rows)) == Sizes(GroupsFor(keys, rows)) + |GroupOf(rows, k)|
  {
    assert GroupsFor(keys + [k], rows)[..|keys|] == GroupsFor(keys, rows);
  }

  /** One more row adds one to the total of the groups of distinct keys that include its sub-pillar. */
  lemma {:induction false} SizesOneMore(keys: seq<string>, rows: seq<Indicator>, x: Indicator)
    requires Distinct(keys)
    ensures Sizes(GroupsFor(keys, rows + [x])) == Sizes(GroupsFor(keys, rows)) + Ind(x.subpillar in keys)
  {
    if keys != [] {
      var init, k := keys[..|keys| - 1], keys[|keys| - 1];
      assert keys == init + [k];
      assert Distinct(init) && k !in init by {
        assert forall a :: 0 <= a < |init| ==> init[a] == keys[a];
      }
      SizesOneMore(init, rows, x);
      SizesAppend(init, k, rows + [x]);
      SizesAppend(init, k, rows);
      GroupOfStep(rows, x, k);
    }
  }

  /** The group sizes add up to the catalog size. */
  lemma {:induction false} GroupedSizes(catalog: seq<Indicator>)
    ensures Sizes(Grouped(catalog)) == |catalog|
  {
    if catalog != [] {
      var c, x := catalog[..|catalog| - 1], catalog[|catalog| - 1];
      assert catalog == c + [x];
      GroupedSizes(c);
      var col := Subpillars(c);
      assert Subpillars(catalog) == col + [x.subpillar];
      DedupStep(col, x.subpillar);
      DedupMembership(col, x.subpillar);
      var d := Dedup(col);
      SizesOneMore(d, c, x);
      if x.subpillar !in col {
        SizesAppend(d, x.subpillar, catalog);
        GroupOfAbsent(c, x.subpillar);
        GroupOfStep(c, x, x.subpillar);
      }
    }
  }

  // ---------------------------------------------------------------- display

  /** The group heading: the sub-pillar label without its 4-character number prefix. */
  function Heading(subpillar: string): (r: string)
    ensures |subpillar| >= 4 ==> subpillar == subpillar[..4] + r
    ensures |subpillar| <= 4 ==> r == ""
  {
    Drop(subpillar, 4)
  }

  /** The value of a read-only score input. */
  datatype InputValue = Blank | Number(x: real)

  /** `score ?? ""`: only a missing score is blank; a score of 0 is shown. */
  function ScoreInput(score: Option<real>): (r: InputValue)
    ensures r == Blank <==> score.None?
  {
    if score.Some? then Number(score.value) else Blank
  }

  /** The input shows the score itself: reading it back gives the score. */
  lemma ScoreInputRoundTrip(score: Option<real>)
    ensures (match ScoreInput(score) case Blank => None case Number(x) => Some(x)) == score
    ensures ScoreInput(Some(0.0)) == Number(0.0)
  {
  }
}
