/**
 * processor.py: the processing pipeline run over the progress file (keep
 * the active businesses, clean them, deduplicate them, write the two output
 * tables) and the per-source tally of the processing summary.
 */
module Processor {
  import opened Records
  import opened PyStr
  import Config
  import Cleaner
  import Deduplicator

  // ---------------------------------------------------------------------
  // Step 1: the active filter
  // ---------------------------------------------------------------------

  /** `status.isin(ACTIVE_STATUSES)`: an exact, case-sensitive comparison; a missing status is not active. */
  predicate IsActive(row: Row)
    ensures IsActive(row) <==> row.status == Some("Good Standing") || row.status == Some("Active")
  {
    row.status.Some? && row.status.value in Config.ActiveStatuses
  }

  /** The active rows, in their original order. */
  function ActiveRows(rows: seq<Row>): (active: seq<Row>)
    ensures |active| <= |rows|
  {
    if rows == [] then []
    else ActiveRows(rows[..|rows| - 1]) + (if IsActive(rows[|rows| - 1]) then [rows[|rows| - 1]] else [])
  }

  /** The filter keeps exactly the rows whose status is 'Good Standing' or 'Active'. */
  lemma {:induction false} ActiveRowsExactly(rows: seq<Row>)
    ensures forall r :: r in ActiveRows(rows) <==>
      r in rows && (r.status == Some("Good Standing") || r.status == Some("Active"))
  {
    if rows != [] {
      var init := rows[..|rows| - 1];
      ActiveRowsExactly(init);
      assert rows == init + [rows[|rows| - 1]];
    }
  }

  /** The positions of the active rows, in increasing order. */
  function ActivePositions(rows: seq<Row>): (pos: seq<nat>)
    ensures |pos| <= |rows|
  {
    if rows == [] then []
    else ActivePositions(rows[..|rows| - 1]) + (if IsActive(rows[|rows| - 1]) then [|rows| - 1] else [])
  }

  /**
   * The filter keeps order and multiplicity: the `j`-th active row is the
   * row at the `j`-th active position, the positions strictly increase, and
   * a position is listed exactly when its row is active.
   */
  lemma {:induction false} ActiveRowsInOrder(rows: seq<Row>)
    ensures |ActivePositions(rows)| == |ActiveRows(rows)|
    ensures forall j :: 0 <= j < |ActivePositions(rows)| ==>
      ActivePositions(rows)[j] < |rows| && ActiveRows(rows)[j] == rows[ActivePositions(rows)[j]]
    ensures forall j, k :: 0 <= j < k < |ActivePositions(rows)| ==> ActivePositions(rows)[j] < ActivePositions(rows)[k]
    ensures forall i :: 0 <= i < |rows| ==> (i in ActivePositions(rows) <==> IsActive(rows[i]))
  {
    if rows != [] {
      var n := |rows| - 1;
      var init := rows[..n];
      ActiveRowsInOrder(init);
      var pos, act := ActivePositions(rows), ActiveRows(rows);
      forall j | 0 <= j < |pos|
        ensures pos[j] < |rows| && act[j] == rows[pos[j]]
      {
        if j < |ActivePositions(init)| {
          assert pos[j] == ActivePositions(init)[j] && act[j] == ActiveRows(init)[j];
        }
      }
      forall i | 0 <= i < |rows|
        ensures i in pos <==> IsActive(rows[i])
      {
        if i < n {
          assert rows[i] == init[i];
        }
      }
    }
  }

  // ---------------------------------------------------------------------
  // The processing summary: match sources
  // ---------------------------------------------------------------------

  /** The group a match source is counted under: every target file is one group, 'target_files'. */
  function SourceGroup(source: string): (g: string)
    ensures g == "target_files" <==> StartsWith(source, "target_")
    ensures !StartsWith(source, "target_") ==> g == source
  {
    if StartsWith(source, "target_") then "target_files" else source
  }

  /** How many times `x` occurs in `xs`. */
  function Occurrences(xs: seq<string>, x: string): (n: nat)
    ensures n <= |xs|
  {
    if xs == [] then 0
    else Occurrences(xs[..|xs| - 1], x) + (if xs[|xs| - 1] == x then 1 else 0)
  }

  /** The distinct elements of `xs`, in the order they first occur. */
  function FirstOccurrences(xs: seq<string>): seq<string> {
    if xs == [] then []
    else
      var seen := FirstOccurrences(xs[..|xs| - 1]);
      if xs[|xs| - 1] in seen then seen else seen + [xs[|xs| - 1]]
  }

  /** The sum of the counts of some labels. */
  function Total(order: seq<string>, counts: map<string, nat>): nat
    requires forall l :: l in order ==> l in counts
  {
    if order == [] then 0 else Total(order[..|order| - 1], counts) + counts[order[|order| - 1]]
  }

  lemma {:induction false} FirstOccurrencesSet(xs: seq<string>)
    ensures forall x :: x in FirstOccurrences(xs) <==> x in xs
    ensures forall i, j :: 0 <= i < j < |FirstOccurrences(xs)| ==> FirstOccurrences(xs)[i] != FirstOccurrences(xs)[j]
  {
    if xs != [] {
      var init := xs[..|xs| - 1];
      FirstOccurrencesSet(init);
      assert xs == init + [xs[|xs| - 1]];
    }
  }

  lemma {:induction false} TotalAfterBump(order: seq<string>, counts: map<string, nat>, group: string)
    requires forall l :: l in order ==> l in counts
    requires group in order
    requires forall i, j :: 0 <= i < j < |order| ==> order[i] != order[j]
    ensures Total(order, counts[group := counts[group] + 1]) == Total(order, counts) + 1
  {
    var n := |order| - 1;
    var init := order[..n];
    if order[n] == group {
      assert group !in init by {
        forall i | 0 <= i < n ensures init[i] != group {
          assert init[i] == order[i];
        }
      }
      TotalIgnores(init, counts, group);
    } else {
      assert group in init;
      TotalAfterBump(init, counts, group);
    }
  }

  lemma {:induction false} TotalIgnores(order: seq<string>, counts: map<string, nat>, group: string)
    requires forall l :: l in order ==> l in counts
    requires group !in order && group in counts
    ensures Total(order, counts[group := counts[group] + 1]) == Total(order, counts)
  {
    if order != [] {
      TotalIgnores(order[..|order| - 1], counts, group);
    }
  }

  /** The `count` of the invariant of the tally loop. */
  ghost predicate IsTally(order: seq<string>, counts: map<string, nat>, labels: seq<string>) {
    && order == FirstOccurrences(labels)
    && (forall l :: l in counts <==> l in labels)
    && (forall l :: l in counts ==> counts[l] == Occurrences(labels, l))
  }

  /**
   * The tally loop of `_print_processing_summary`: each match's source is
   * grouped and counted. The dictionary it builds is modelled by its keys
   * in insertion order and its key-to-count map: every group is counted as
   * often as it occurs, the keys are the distinct labels in the order they
   * first occur, and the counts add up to the number of matches.
   */
  method CountSources(infos: seq<Deduplicator.MatchInfo>) returns (order: seq<string>, counts: map<string, nat>)
    ensures forall l :: l in order ==> l in counts
    ensures IsTally(order, counts, Groups(infos))
    ensures Total(order, counts) == |infos|
  {
    ghost var groups := Groups(infos);
    order, counts := [], map[];
    var i := 0;
    while i < |infos|
      invariant 0 <= i <= |infos|
      invariant IsTally(order, counts, groups[..i])
      invariant forall l :: l in order ==> l in counts
      invariant Total(order, counts) == i
    {
      var source := SourceGroup(infos[i].source);
      assert source == groups[i];
      ghost var order' := if source in counts then order else order + [source];
      ghost var counts' := counts[source := (if source in counts then counts[source] else 0) + 1];
      TallyStep(order, counts, groups, i);
      TallyFacts(order, counts, groups[..i]);
      TallyTotal(order, counts, source);
      if source !in counts {
        order := order + [source];
      }
      counts := counts[source := (if source in counts then counts[source] else 0) + 1];
      assert order == order' && counts == counts';
      i := i + 1;
    }
    assert groups[..|infos|] == groups;
  }

  /** One step of the tally loop keeps the tally invariant. */
  lemma TallyStep(order: seq<string>, counts: map<string, nat>, groups: seq<string>, i: nat)
    requires i < |groups| && IsTally(order, counts, groups[..i])
    ensures var g := groups[i];
      IsTally(if g in counts then order else order + [g],
              counts[g := (if g in counts then counts[g] else 0) + 1], groups[..i + 1])
  {
    assert groups[..i + 1] == groups[..i] + [groups[i]];
    TallyKeys(order, counts, groups[..i], groups[i], groups[..i + 1]);
  }

  /** The keys of a tally are its distinct labels, each once. */
  lemma TallyFacts(order: seq<string>, counts: map<string, nat>, seen: seq<string>)
    requires IsTally(order, counts, seen)
    ensures forall i, j :: 0 <= i < j < |order| ==> order[i] != order[j]
    ensures forall l :: l in counts <==> l in order
  {
    FirstOccurrencesSet(seen);
  }

  lemma TallyKeys(order: seq<string>, counts: map<string, nat>, seen: seq<string>, g: string, next: seq<string>)
    requires IsTally(order, counts, seen)
    requires next == seen + [g]
    ensures var order' := if g in counts then order else order + [g];
      var counts' := counts[g := (if g in counts then counts[g] else 0) + 1];
      IsTally(order', counts', next)
  {
    FirstOccurrencesSet(seen);
    assert next[..|next| - 1] == seen;
    var counts' := counts[g := (if g in counts then counts[g] else 0) + 1];
    forall l | l in counts' ensures counts'[l] == Occurrences(next, l) {
      if l != g {
        assert l in seen;
      } else if g !in counts {
        OccurrencesAbsent(seen, g);
      }
    }
  }

  lemma {:induction false} OccurrencesAbsent(xs: seq<string>, x: string)
    requires x !in xs
    ensures Occurrences(xs, x) == 0
  {
    if xs != [] {
      OccurrencesAbsent(xs[..|xs| - 1], x);
    }
  }

  lemma TallyTotal(order: seq<string>, counts: map<string, nat>, g: string)
    requires forall l :: l in order ==> l in counts
    requires forall i, j :: 0 <= i < j < |order| ==> order[i] != order[j]
    requires g in counts <==> g in order
    ensures var order' := if g in counts then order else order + [g];
      var counts' := counts[g := (if g in counts then counts[g] else 0) + 1];
      && (forall l :: l in order' ==> l in counts')
      && Total(order', counts') == Total(order, counts) + 1
  {
    if g in counts {
      TotalAfterBump(order, counts, g);
    } else {
      var order', counts' := order + [g], counts[g := 1];
      assert order'[..|order'| - 1] == order;
      TotalSame(order, counts, counts');
    }
  }

  lemma {:induction false} TotalSame(order: seq<string>, c1: map<string, nat>, c2: map<string, nat>)
    requires forall l :: l in order ==> l in c1 && l in c2 && c1[l] == c2[l]
    ensures Total(order, c1) == Total(order, c2)
  {
    if order != [] {
      TotalSame(order[..|order| - 1], c1, c2);
    }
  }

  lemma TotalNew(order: seq<string>, counts: map<string, nat>, group: string)
    requires order != [] && order[|order| - 1] == group && group !in order[..|order| - 1]
    requires forall l :: l in order ==> l in counts
    requires counts[group] == 0
    ensures Total(order, counts[group := counts[group] + 1]) == Total(order[..|order| - 1], counts) + 1
    ensures Total(order, counts) == Total(order[..|order| - 1], counts)
  {
    TotalIgnores(order[..|order| - 1], counts, group);
  }

  /** The source groups of some matches, in order. */
  function Groups(infos: seq<Deduplicator.MatchInfo>): (labels: seq<string>)
    ensures |labels| == |infos|
  {
    seq(|infos|, i requires 0 <= i < |infos| => SourceGroup(infos[i].source))
  }

  /** `source_counts.items()`: (group, count) pairs in insertion order. */
  function Items(order: seq<string>, counts: map<string, nat>): (items: seq<(string, nat)>)
    requires forall l :: l in order ==> l in counts
    ensures |items| == |order|
  {
    seq(|order|, i requires 0 <= i < |order| => (order[i], counts[order[i]]))
  }

  /** Counts never increase from left to right. */
  predicate SortedByCount(s: seq<(string, nat)>) {
    forall i, j :: 0 <= i < j < |s| ==> s[i].1 >= s[j].1
  }

  /** Inserts `x` after every element whose count is at least its own. */
  function Insert(s: seq<(string, nat)>, x: (string, nat)): (r: seq<(string, nat)>)
    ensures |r| == |s| + 1
  {
    if s == [] || s[|s| - 1].1 >= x.1 then s + [x]
    else Insert(s[..|s| - 1], x) + [s[|s| - 1]]
  }

  /**
   * `sorted(items, key=lambda x: x[1], reverse=True)`: Python's sort is
   * stable, and with `reverse=True` items of equal count keep their order.
   */
  function SortByCount(items: seq<(string, nat)>): (r: seq<(string, nat)>)
    ensures |r| == |items|
  {
    if items == [] then []
    else Insert(SortByCount(items[..|items| - 1]), items[|items| - 1])
  }

  /** The items with count `c`, in order. */
  function WithCount(s: seq<(string, nat)>, c: nat): seq<(string, nat)> {
    if s == [] then []
    else WithCount(s[..|s| - 1], c) + (if s[|s| - 1].1 == c then [s[|s| - 1]] else [])
  }

  lemma WithCountSnoc(s: seq<(string, nat)>, x: (string, nat), c: nat)
    ensures WithCount(s + [x], c) == WithCount(s, c) + (if x.1 == c then [x] else [])
  {
    assert (s + [x])[..|s|] == s;
  }

  lemma {:induction false} InsertPermutes(s: seq<(string, nat)>, x: (string, nat))
    ensures multiset(Insert(s, x)) == multiset(s) + multiset{x}
  {
    if !(s == [] || s[|s| - 1].1 >= x.1) {
      var init, last := s[..|s| - 1], s[|s| - 1];
      assert s == init + [last];
      InsertPermutes(init, x);
    }
  }

  /** Insertion keeps the relative order of the items of each count. */
  lemma {:induction false} InsertStable(s: seq<(string, nat)>, x: (string, nat), c: nat)
    ensures WithCount(Insert(s, x), c) == WithCount(s, c) + (if x.1 == c then [x] else [])
  {
    if s == [] || s[|s| - 1].1 >= x.1 {
      WithCountSnoc(s, x, c);
    } else {
      var init, last := s[..|s| - 1], s[|s| - 1];
      assert s == init + [last];
      InsertStable(init, x, c);
      WithCountSnoc(Insert(init, x), last, c);
      WithCountSnoc(init, last, c);
    }
  }

  lemma {:induction false} InsertSorted(s: seq<(string, nat)>, x: (string, nat))
    requires SortedByCount(s)
    ensures SortedByCount(Insert(s, x))
  {
    if !(s == [] || s[|s| - 1].1 >= x.1) {
      var init, last := s[..|s| - 1], s[|s| - 1];
      assert s == init + [last];
      InsertSorted(init, x);
      var r := Insert(init, x);
      InsertPermutes(init, x);
      forall y | y in r ensures y.1 >= last.1 {
        assert y in multiset(r);
        if y != x {
          assert y in init;
        }
      }
      forall i, j | 0 <= i < j < |r| + 1 ensures (r + [last])[i].1 >= (r + [last])[j].1 {
        if j == |r| {
          assert r[i] in r;
        }
      }
    }
  }

  /**
   * The source report is ordered by count, largest first; it holds
   * exactly the items it was given; and items with the same count stay in
   * the order they were given (the first group seen first).
   */
  lemma {:induction false} SortByCountFacts(items: seq<(string, nat)>)
    ensures SortedByCount(SortByCount(items))
    ensures multiset(SortByCount(items)) == multiset(items)
    ensures forall c :: WithCount(SortByCount(items), c) == WithCount(items, c)
  {
    if items != [] {
      var init, last := items[..|items| - 1], items[|items| - 1];
      assert items == init + [last];
      SortByCountFacts(init);
      InsertSorted(SortByCount(init), last);
      InsertPermutes(SortByCount(init), last);
      forall c ensures WithCount(SortByCount(items), c) == WithCount(items, c) {
        InsertStable(SortByCount(init), last, c);
        WithCountSnoc(init, last, c);
      }
    }
  }

  /** The counts of a list of groups, as a map. */
  function CountsOf(groups: seq<string>): (counts: map<string, nat>)
    ensures forall g :: g in counts <==> g in groups
  {
    map g | g in groups :: Occurrences(groups, g)
  }

  /** The "Match sources" lines of the summary: each group with its count, largest first. */
  function Report(infos: seq<Deduplicator.MatchInfo>): (r: seq<(string, nat)>)
    ensures SortedByCount(r) && |r| == |FirstOccurrences(Groups(infos))|
  {
    var groups := Groups(infos);
    FirstOccurrencesSet(groups);
    var items := Items(FirstOccurrences(groups), CountsOf(groups));
    SortByCountFacts(items);
    SortByCount(items)
  }

  /** What the tally loop builds is the tally of `Report`. */
  lemma TallyIsCountsOf(order: seq<string>, counts: map<string, nat>, groups: seq<string>)
    requires IsTally(order, counts, groups)
    ensures counts == CountsOf(groups)
  {
  }

  /**
   * The report lists every group of the matches exactly once, each with the
   * number of matches in that group, largest count first; the counts add up
   * to the number of matches.
   */
  lemma ReportFacts(infos: seq<Deduplicator.MatchInfo>)
    ensures var r, groups := Report(infos), Groups(infos);
      && SortedByCount(r)
      && |r| == |FirstOccurrences(groups)|
      && (forall p :: p in r ==> p.0 in groups && p.1 == Occurrences(groups, p.0))
      && (forall g :: g in groups ==> (g, Occurrences(groups, g)) in r)
  {
    var groups := Groups(infos);
    FirstOccurrencesSet(groups);
    var items := Items(FirstOccurrences(groups), CountsOf(groups));
    SortByCountFacts(items);
    var r := SortByCount(items);
    forall p | p in r ensures p.0 in groups && p.1 == Occurrences(groups, p.0) {
      assert p in multiset(items);
    }
    forall g | g in groups ensures (g, Occurrences(groups, g)) in r {
      var i :| 0 <= i < |FirstOccurrences(groups)| && FirstOccurrences(groups)[i] == g;
      assert items[i] == (g, Occurrences(groups, g));
      assert items[i] in multiset(r);
    }
  }

  // ---------------------------------------------------------------------
  // process_scraped_data
  // ---------------------------------------------------------------------

  /** A table written as CSV: its header and its rows of cells (`None` for an empty cell). */
  datatype Table = Table(columns: seq<string>, cells: seq<seq<Option<string>>>)

  /** The header of the matched file. */
  const MatchedColumns: seq<string> := ["business_name", "matched_name"]

  /** `new_df[DISPLAY_COLUMNS]`: the display columns of the new prospects. */
  function FinalTable(rows: seq<Row>): (t: Table)
    ensures t.columns == Config.DisplayColumns && |t.cells| == |rows|
    ensures forall i :: 0 <= i < |rows| ==>
      |t.cells[i]| == |t.columns| && t.cells[i][0] == rows[i].businessName && t.cells[i][1] == rows[i].previousName
      && t.cells[i][2] == rows[i].address && t.cells[i][3] == rows[i].agent && t.cells[i][4] == rows[i].status
  {
    Table(Config.DisplayColumns,
          seq(|rows|, i requires 0 <= i < |rows| =>
            [rows[i].businessName, rows[i].previousName, rows[i].address, rows[i].agent, rows[i].status]))
  }

  /** The matched rows as their two-column table. */
  function MatchedTable(matched: seq<Deduplicator.MatchedRow>): (t: Table)
    ensures t.columns == MatchedColumns && |t.cells| == |matched|
    ensures forall i :: 0 <= i < |matched| ==>
      |t.cells[i]| == |t.columns| && t.cells[i][0] == matched[i].businessName && t.cells[i][1] == Some(matched[i].matchedName)
  {
    Table(MatchedColumns,
          seq(|matched|, i requires 0 <= i < |matched| => [matched[i].businessName, Some(matched[i].matchedName)]))
  }

  /** `match_details.values()`, in insertion order. */
  function Values(details: seq<(nat, Deduplicator.MatchInfo)>): (infos: seq<Deduplicator.MatchInfo>)
    ensures |infos| == |details|
  {
    seq(|details|, i requires 0 <= i < |details| => details[i].1)
  }

  /** How a run of the pipeline ends. */
  datatype Outcome =
    | DivisionByZero       // an empty progress file: the active percentage divides by zero
    | NoActiveBusinesses   // no row is active: nothing is written
    | Processed(finalData: Table, matchedData: Table, sourceReport: seq<(string, nat)>)

  /**
   * `process_scraped_data`, with the comparison files given: keep the
   * active rows, clean them, deduplicate them, and produce the final data
   * table (the display columns of the new prospects, or only the header
   * when there are none), the matched table (likewise with its two
   * columns) and the summary's source report. The frame passed in is not
   * changed: the filter works on a copy.
   */
  method ProcessScrapedData(df: Frame, hubspot: Option<seq<Option<string>>>, targets: seq<Deduplicator.TargetFile>)
    returns (outcome: Outcome)
    ensures df.rows == [] ==> outcome == DivisionByZero
    ensures df.rows != [] && ActiveRows(df.rows) == [] ==> outcome == NoActiveBusinesses
    ensures ActiveRows(df.rows) != [] ==>
      var active := Cleaner.CleanRows(ActiveRows(df.rows));
      var es := Deduplicator.ComparisonEntries(hubspot, targets);
      outcome == Processed(
        FinalTable(Deduplicator.NewRows(active, es, Cleaner.NormalizeForMatching)),
        MatchedTable(Deduplicator.MatchedRows(active, es, Cleaner.NormalizeForMatching)),
        Report(Values(Deduplicator.Details(active, es, Cleaner.NormalizeForMatching))))
  {
    var activeDf := new Frame(ActiveRows(df.rows));
    if |df.rows| == 0 {
      return DivisionByZero;
    }
    if activeDf.rows == [] {
      return NoActiveBusinesses;
    }
    activeDf := Cleaner.CleanBusinessData(activeDf);
    ghost var active := activeDf.rows;
    var newDf, matched, details := Deduplicator.DeduplicateBusinesses(activeDf, hubspot, targets, Cleaner.NormalizeForMatching);
    Deduplicator.NothingToCompare(active, Cleaner.NormalizeForMatching);

    var finalData := if newDf.rows != [] then FinalTable(newDf.rows) else Table(Config.DisplayColumns, []);
    var matchedData := if matched != [] then MatchedTable(matched) else Table(MatchedColumns, []);
    var report: seq<(string, nat)> := [];
    if details != [] {
      var order, counts := CountSources(Values(details));
      TallyIsCountsOf(order, counts, Groups(Values(details)));
      report := SortByCount(Items(order, counts));
    }
    outcome := Processed(finalData, matchedData, report);
  }

  /** HubSpot matches are counted under 'hubspot'. */
  lemma HubspotGroup(source: string)
    requires source == "hubspot"
    ensures SourceGroup(source) == "hubspot"
  {
    assert source[0] != "target_"[0];
  }

  /** Matches from any target file are counted together under 'target_files'. */
  lemma TargetGroup(file: Deduplicator.TargetFile)
    ensures SourceGroup(Deduplicator.TargetSource(file)) == "target_files"
  {
    var source := Deduplicator.TargetSource(file);
    assert source[..|"target_"|] == "target_";
  }

  /** The group of every match is 'hubspot' or 'target_files'. */
  lemma MatchGroups(rows: seq<Row>, hubspot: Option<seq<Option<string>>>, targets: seq<Deduplicator.TargetFile>,
                    norm: Option<string> -> string)
    ensures var groups := Groups(Values(Deduplicator.Details(rows, Deduplicator.ComparisonEntries(hubspot, targets), norm)));
      forall g :: g in groups ==> g == "hubspot" || g == "target_files"
  {
    var es := Deduplicator.ComparisonEntries(hubspot, targets);
    var ds := Deduplicator.Details(rows, es, norm);
    var groups := Groups(Values(ds));
    Deduplicator.DetailsDescribeMatches(rows, es, norm);
    Deduplicator.ComparisonSources(hubspot, targets);
    forall g | g in groups ensures g == "hubspot" || g == "target_files" {
      var j :| 0 <= j < |groups| && groups[j] == g;
      var row := rows[ds[j].0];
      Deduplicator.MatchAgrees(row, es, norm);
      var e := Deduplicator.FirstMatch(row, es, norm);
      assert g == SourceGroup(e.source);
      if e.source == "hubspot" {
        HubspotGroup(e.source);
      } else {
        var k :| 0 <= k < |targets| && e.source == Deduplicator.TargetSource(targets[k]);
        TargetGroup(targets[k]);
      }
    }
  }

  /**
   * The source report only has the lines 'hubspot' and 'target_files':
   * the matches from all target files are added together.
   */
  lemma ReportGroups(rows: seq<Row>, hubspot: Option<seq<Option<string>>>, targets: seq<Deduplicator.TargetFile>,
                     norm: Option<string> -> string)
    ensures var r := Report(Values(Deduplicator.Details(rows, Deduplicator.ComparisonEntries(hubspot, targets), norm)));
      forall p :: p in r ==> p.0 == "hubspot" || p.0 == "target_files"
  {
    var infos := Values(Deduplicator.Details(rows, Deduplicator.ComparisonEntries(hubspot, targets), norm));
    MatchGroups(rows, hubspot, targets, norm);
    ReportFacts(infos);
  }
}
