/**
 * deduplicator.py: the existing records to compare against (the HubSpot
 * export and every target file), the lookup from matching key to those
 * records, and the pass that splits scraped businesses into new prospects
 * and exact matches.
 */
module Deduplicator {
  import opened Records
  import Cleaner

  /** One existing record: the name as it was read and the file it came from. */
  datatype Entry = Entry(original: string, source: string)

  /**
   * A `targets_*.csv` file: its base name, and its `business_name` column
   * when the file could be read (`None` when reading it raised).
   */
  datatype TargetFile = TargetFile(basename: string, column: Option<seq<Option<string>>>)

  /** A row of the matched output: the scraped name and the existing name it matched. */
  datatype MatchedRow = MatchedRow(businessName: Option<string>, matchedName: string)

  /** What the match details record about one matched row. */
  datatype MatchInfo = MatchInfo(matchedName: string, source: string, matchType: string)

  // ---------------------------------------------------------------------
  // load_comparison_data
  // ---------------------------------------------------------------------

  /** `dropna().tolist()`: the present cells of a column, in order. */
  function DropNa(column: seq<Option<string>>): (names: seq<string>)
    ensures |names| <= |column|
    ensures forall n :: n in names <==> Some(n) in column
  {
    if column == [] then []
    else
      var rest := DropNa(column[1..]);
      assert forall n :: Some(n) in column <==> column[0] == Some(n) || Some(n) in column[1..];
      (if column[0].Some? then [column[0].value] else []) + rest
  }

  /** `[source] * n` */
  function Repeat(source: string, n: nat): (r: seq<string>)
    ensures |r| == n && forall i :: 0 <= i < n ==> r[i] == source
  {
    seq(n, _ => source)
  }

  /** The records one readable column contributes: its present names, in order, each labelled with `source`. */
  function FileEntries(column: seq<Option<string>>, source: string): seq<Entry> {
    if column == [] then []
    else (if column[0].Some? then [Entry(column[0].value, source)] else []) + FileEntries(column[1..], source)
  }

  /** The records of a file that may be missing or unreadable (`None`): none at all in that case. */
  function ReadableEntries(column: Option<seq<Option<string>>>, source: string): seq<Entry> {
    if column.None? then [] else FileEntries(column.value, source)
  }

  /** The label of a target file's records: `target_` followed by its base name. */
  function TargetSource(file: TargetFile): string {
    "target_" + file.basename
  }

  /** The records of the target files, file by file in the order given. */
  function TargetEntries(targets: seq<TargetFile>): seq<Entry> {
    if targets == [] then []
    else
      var last := targets[|targets| - 1];
      TargetEntries(targets[..|targets| - 1]) + ReadableEntries(last.column, TargetSource(last))
  }

  /** Everything `load_comparison_data` collects: HubSpot first, then the target files. */
  function ComparisonEntries(hubspot: Option<seq<Option<string>>>, targets: seq<TargetFile>): seq<Entry> {
    ReadableEntries(hubspot, "hubspot") + TargetEntries(targets)
  }

  /** The `existing_names` list that goes with some records. */
  function Names(es: seq<Entry>): (names: seq<string>)
    ensures |names| == |es|
  {
    seq(|es|, i requires 0 <= i < |es| => es[i].original)
  }

  /** The `sources` list that goes with some records. */
  function Sources(es: seq<Entry>): (sources: seq<string>)
    ensures |sources| == |es|
  {
    seq(|es|, i requires 0 <= i < |es| => es[i].source)
  }

  /** Pairs up names and sources position by position, as `zip` does: the shorter list decides. */
  function Zip(names: seq<string>, sources: seq<string>): (es: seq<Entry>)
    ensures |es| == if |names| < |sources| then |names| else |sources|
  {
    seq(if |names| < |sources| then |names| else |sources|,
        i requires 0 <= i < |names| && 0 <= i < |sources| => Entry(names[i], sources[i]))
  }

  lemma NamesSourcesAppend(a: seq<Entry>, b: seq<Entry>)
    ensures Names(a + b) == Names(a) + Names(b) && Sources(a + b) == Sources(a) + Sources(b)
  {
  }

  /** The names and labels of a readable column's records are `dropna()` of it and one label per name. */
  lemma {:induction false} FileNamesSources(column: seq<Option<string>>, source: string)
    ensures Names(FileEntries(column, source)) == DropNa(column)
    ensures Sources(FileEntries(column, source)) == Repeat(source, |DropNa(column)|)
  {
    if column != [] {
      FileNamesSources(column[1..], source);
      var head: seq<Entry> := if column[0].Some? then [Entry(column[0].value, source)] else [];
      NamesSourcesAppend(head, FileEntries(column[1..], source));
    }
  }

  /** Zipping the two lists of some records back together gives those records. */
  lemma ZipNamesSources(es: seq<Entry>)
    ensures Zip(Names(es), Sources(es)) == es
  {
  }

  /** Appending a readable column's records appends its `dropna()` names and one label per name. */
  lemma AppendFile(es: seq<Entry>, column: seq<Option<string>>, source: string)
    ensures Names(es + FileEntries(column, source)) == Names(es) + DropNa(column)
    ensures Sources(es + FileEntries(column, source)) == Sources(es) + Repeat(source, |DropNa(column)|)
  {
    NamesSourcesAppend(es, FileEntries(column, source));
    FileNamesSources(column, source);
  }

  /** The records loaded after one more target file are those before it followed by the file's own. */
  lemma LoadStep(hubspot: Option<seq<Option<string>>>, targets: seq<TargetFile>, k: nat)
    requires k < |targets|
    ensures ReadableEntries(hubspot, "hubspot") + TargetEntries(targets[..k + 1])
      == ReadableEntries(hubspot, "hubspot") + TargetEntries(targets[..k])
        + ReadableEntries(targets[k].column, TargetSource(targets[k]))
  {
    assert targets[..k + 1][..k] == targets[..k];
  }

  /**
   * `load_comparison_data`, with the files' contents given: the HubSpot
   * column when `hubspot.csv` exists and could be read, and each target
   * file in the order the directory listing returned them. The two lists
   * it returns are the names and the labels of exactly the records of
   * `ComparisonEntries`.
   */
  method LoadComparisonData(hubspot: Option<seq<Option<string>>>, targets: seq<TargetFile>)
    returns (names: seq<string>, sources: seq<string>)
    ensures names == Names(ComparisonEntries(hubspot, targets))
    ensures sources == Sources(ComparisonEntries(hubspot, targets))
  {
    names, sources := [], [];
    ghost var loaded: seq<Entry> := [];
    if hubspot.Some? {
      AppendFile([], hubspot.value, "hubspot");
      names := names + DropNa(hubspot.value);
      sources := sources + Repeat("hubspot", |DropNa(hubspot.value)|);
      loaded := loaded + FileEntries(hubspot.value, "hubspot");
    }
    assert loaded == ReadableEntries(hubspot, "hubspot") + TargetEntries(targets[..0]);
    var k := 0;
    while k < |targets|
      invariant 0 <= k <= |targets|
      invariant loaded == ReadableEntries(hubspot, "hubspot") + TargetEntries(targets[..k])
      invariant names == Names(loaded) && sources == Sources(loaded)
    {
      var file := targets[k];
      LoadStep(hubspot, targets, k);
      if file.column.Some? {
        AppendFile(loaded, file.column.value, TargetSource(file));
        names := names + DropNa(file.column.value);
        sources := sources + Repeat(TargetSource(file), |DropNa(file.column.value)|);
        loaded := loaded + FileEntries(file.column.value, TargetSource(file));
      } else {
        assert loaded + ReadableEntries(file.column, TargetSource(file)) == loaded;
      }
      k := k + 1;
    }
    assert targets[..|targets|] == targets;
  }

  /** The target records of two lists of files are those of the first list followed by those of the second. */
  lemma {:induction false} TargetEntriesAppend(a: seq<TargetFile>, b: seq<TargetFile>)
    ensures TargetEntries(a + b) == TargetEntries(a) + TargetEntries(b)
    decreases |b|
  {
    if b == [] {
      assert a + b == a;
    } else {
      var init, last := b[..|b| - 1], b[|b| - 1];
      var tail := ReadableEntries(last.column, TargetSource(last));
      assert (a + b)[..|a + b| - 1] == a + init;
      assert (a + b)[|a + b| - 1] == last;
      assert TargetEntries(a + b) == TargetEntries(a + init) + tail;
      assert TargetEntries(b) == TargetEntries(init) + tail;
      TargetEntriesAppend(a, init);
    }
  }

  lemma UnreadableContributesNothing(pre: seq<TargetFile>, file: TargetFile)
    requires file.column.None?
    ensures TargetEntries(pre + [file]) == TargetEntries(pre)
  {
    assert (pre + [file])[..|pre|] == pre;
  }

  /** A target file that could not be read contributes nothing: the load goes on as if it were absent. */
  lemma UnreadableSkipped(targets: seq<TargetFile>, k: nat)
    requires k < |targets| && targets[k].column.None?
    ensures TargetEntries(targets) == TargetEntries(targets[..k] + targets[k + 1..])
  {
    var pre, file, post := targets[..k], targets[k], targets[k + 1..];
    AroundPosition(targets, k);
    UnreadableContributesNothing(pre, file);
    TargetEntriesAppend(pre + [file], post);
    TargetEntriesAppend(pre, post);
  }

  lemma AroundPosition(targets: seq<TargetFile>, k: nat)
    requires k < |targets|
    ensures targets == (targets[..k] + [targets[k]]) + targets[k + 1..]
  {
  }

  /** Every record of a readable column carries the column's label and one of its present names. */
  lemma {:induction false} FileEntriesFrom(column: seq<Option<string>>, source: string)
    ensures forall e :: e in FileEntries(column, source) ==> e.source == source && Some(e.original) in column
  {
    if column != [] {
      FileEntriesFrom(column[1..], source);
      forall e | e in FileEntries(column, source) ensures e.source == source && Some(e.original) in column {
        if e !in FileEntries(column[1..], source) {
          assert e == Entry(column[0].value, source);
        }
      }
    }
  }

  /**
   * Every target record is labelled `target_` plus the base name of a
   * readable target file and holds one of that file's present names.
   */
  lemma {:induction false} TargetEntriesFrom(targets: seq<TargetFile>)
    ensures forall e :: e in TargetEntries(targets) ==>
      exists k :: 0 <= k < |targets| && targets[k].column.Some? &&
        e.source == TargetSource(targets[k]) && Some(e.original) in targets[k].column.value
    decreases |targets|
  {
    if targets != [] {
      var n := |targets| - 1;
      var init := targets[..n];
      TargetEntriesFrom(init);
      if targets[n].column.Some? {
        FileEntriesFrom(targets[n].column.value, TargetSource(targets[n]));
      }
      forall e | e in TargetEntries(targets)
        ensures exists k :: (0 <= k < |targets| && targets[k].column.Some? &&
          e.source == TargetSource(targets[k]) && Some(e.original) in targets[k].column.value)
      {
        if e in TargetEntries(init) {
          var k :| 0 <= k < |init| && init[k].column.Some? &&
            e.source == TargetSource(init[k]) && Some(e.original) in init[k].column.value;
          assert targets[k] == init[k];
        } else {
          assert e in FileEntries(targets[n].column.value, TargetSource(targets[n]));
        }
      }
    }
  }

  /**
   * The comparison records are the HubSpot records, each labelled
   * 'hubspot', followed by the target records; with no readable file at
   * all there is nothing to compare against.
   */
  lemma ComparisonEntriesShape(hubspot: Option<seq<Option<string>>>, targets: seq<TargetFile>)
    ensures var es := ComparisonEntries(hubspot, targets);
      var h := |ReadableEntries(hubspot, "hubspot")|;
      && h <= |es|
      && (forall i :: 0 <= i < h ==> es[i].source == "hubspot" && Some(es[i].original) in hubspot.value)
      && es[h..] == TargetEntries(targets)
  {
    var es := ComparisonEntries(hubspot, targets);
    var hs := ReadableEntries(hubspot, "hubspot");
    if hubspot.Some? {
      FileEntriesFrom(hubspot.value, "hubspot");
    }
    forall i | 0 <= i < |hs| ensures es[i].source == "hubspot" && Some(es[i].original) in hubspot.value {
      assert es[i] == hs[i] && hs[i] in hs;
    }
    assert es[|hs|..] == TargetEntries(targets);
  }

  // ---------------------------------------------------------------------
  // create_normalized_lookup
  //
  // The definitions below take the key function `norm` as a parameter so
  // that the proofs about them hold whatever the key is; the pipeline
  // always passes `Cleaner.NormalizeForMatching`.
  // ---------------------------------------------------------------------

  /** The records whose matching key is `key`, in the order they were loaded. */
  function WithKey(es: seq<Entry>, key: string, norm: Option<string> -> string): (bucket: seq<Entry>)
    ensures |bucket| <= |es|
  {
    if es == [] then []
    else
      var e := es[|es| - 1];
      WithKey(es[..|es| - 1], key, norm) + (if norm(Some(e.original)) == key then [e] else [])
  }

  /**
   * What `create_normalized_lookup` builds from some records: a key for
   * every non-empty matching key some record has, mapped to all the
   * records with that key, in load order.
   */
  ghost predicate IsLookupOf(lookup: map<string, seq<Entry>>, es: seq<Entry>, norm: Option<string> -> string) {
    && (forall key :: key in lookup <==> key != [] && WithKey(es, key, norm) != [])
    && (forall key :: key in lookup ==> lookup[key] == WithKey(es, key, norm))
  }

  lemma WithKeyStep(es: seq<Entry>, i: nat, key: string, norm: Option<string> -> string)
    requires i < |es|
    ensures WithKey(es[..i + 1], key, norm)
      == WithKey(es[..i], key, norm) + (if norm(Some(es[i].original)) == key then [es[i]] else [])
  {
    assert es[..i + 1][..i] == es[..i];
  }

  /** One step of the lookup loop: a record with a non-empty key is appended to that key's list. */
  function Appended(lookup: map<string, seq<Entry>>, key: string, e: Entry): map<string, seq<Entry>> {
    if key == [] then lookup
    else lookup[key := (if key in lookup then lookup[key] else []) + [e]]
  }

  lemma EmptyLookup(es: seq<Entry>, norm: Option<string> -> string)
    ensures IsLookupOf(map[], es[..0], norm)
  {
    assert es[..0] == [];
  }

  lemma AppendedSteps(lookup: map<string, seq<Entry>>, key: string, e: Entry)
    requires key != []
    ensures var started := if key !in lookup then lookup[key := []] else lookup;
      Appended(lookup, key, e) == started[key := started[key] + [e]]
  {
  }

  lemma LookupStep(lookup: map<string, seq<Entry>>, es: seq<Entry>, i: nat, norm: Option<string> -> string, key: string)
    requires i < |es| && IsLookupOf(lookup, es[..i], norm) && key == norm(Some(es[i].original))
    ensures IsLookupOf(Appended(lookup, key, es[i]), es[..i + 1], norm)
  {
    var next := Appended(lookup, key, es[i]);
    forall k
      ensures (k in next <==> k != [] && WithKey(es[..i + 1], k, norm) != [])
      ensures k in next ==> next[k] == WithKey(es[..i + 1], k, norm)
    {
      WithKeyStep(es, i, k, norm);
    }
  }

  /** The body of the lookup loop: a record with a non-empty key joins the end of that key's list. */
  method AddRecord(lookup: map<string, seq<Entry>>, normName: string, e: Entry)
    returns (next: map<string, seq<Entry>>)
    ensures next == Appended(lookup, normName, e)
  {
    next := lookup;
    if normName != [] {
      AppendedSteps(lookup, normName, e);
      if normName !in next {
        next := next[normName := []];
      }
      next := next[normName := next[normName] + [e]];
    }
  }

  /** How many records have a non-empty key: the records the lookup keeps. */
  function KeyedCount(es: seq<Entry>, norm: Option<string> -> string): (n: nat)
    ensures n <= |es|
  {
    if es == [] then 0
    else KeyedCount(es[..|es| - 1], norm) + (if norm(Some(es[|es| - 1].original)) != [] then 1 else 0)
  }

  /** The number of records stored in a lookup, over all its keys. */
  ghost function StoredCount(lookup: map<string, seq<Entry>>): nat
    decreases |lookup|
  {
    if lookup == map[] then 0
    else
      var key :| key in lookup;
      |lookup[key]| + StoredCount(lookup - {key})
  }

  /** The stored count can be taken apart at any key. */
  lemma {:induction false} StoredCountAt(lookup: map<string, seq<Entry>>, key: string)
    requires key in lookup
    ensures StoredCount(lookup) == |lookup[key]| + StoredCount(lookup - {key})
    decreases |lookup|
  {
    var k :| k in lookup && StoredCount(lookup) == |lookup[k]| + StoredCount(lookup - {k});
    if k != key {
      var rest := lookup - {k};
      assert |rest| < |lookup| by {
        assert rest.Keys == lookup.Keys - {k};
      }
      StoredCountAt(rest, key);
      var rest2 := lookup - {key};
      assert |rest2| < |lookup| by {
        assert rest2.Keys == lookup.Keys - {key};
      }
      StoredCountAt(rest2, k);
      assert rest - {key} == rest2 - {k};
    }
  }

  /** Appending a record under a non-empty key stores one more record; an empty key stores nothing. */
  lemma StoredCountAppended(lookup: map<string, seq<Entry>>, key: string, e: Entry)
    ensures StoredCount(Appended(lookup, key, e)) == StoredCount(lookup) + (if key != [] then 1 else 0)
  {
    if key != [] {
      var next := Appended(lookup, key, e);
      StoredCountAt(next, key);
      if key in lookup {
        StoredCountAt(lookup, key);
        assert next - {key} == lookup - {key};
      } else {
        assert next - {key} == lookup;
      }
    }
  }

  lemma KeyedCountStep(es: seq<Entry>, i: nat, norm: Option<string> -> string)
    requires i < |es|
    ensures KeyedCount(es[..i + 1], norm)
      == KeyedCount(es[..i], norm) + (if norm(Some(es[i].original)) != [] then 1 else 0)
  {
    assert es[..i + 1][..i] == es[..i];
  }

  /** One step of the lookup loop stores one more record exactly when the record's key is not empty. */
  lemma LookupSizeStep(lookup: map<string, seq<Entry>>, es: seq<Entry>, i: nat, norm: Option<string> -> string, key: string)
    requires i < |es| && key == norm(Some(es[i].original))
    requires StoredCount(lookup) == KeyedCount(es[..i], norm)
    ensures StoredCount(Appended(lookup, key, es[i])) == KeyedCount(es[..i + 1], norm)
  {
    StoredCountAppended(lookup, key, es[i]);
    KeyedCountStep(es, i, norm);
  }

  /**
   * `create_normalized_lookup`, with the key function given (the pipeline
   * passes `Cleaner.NormalizeForMatching`): records with an empty key are
   * skipped, every other record is appended to the list of its key, and
   * `zip` stops at the shorter of the two lists.
   */
  method CreateNormalizedLookup(names: seq<string>, sources: seq<string>, norm: Option<string> -> string)
    returns (lookup: map<string, seq<Entry>>)
    ensures IsLookupOf(lookup, Zip(names, sources), norm)
    ensures StoredCount(lookup) == KeyedCount(Zip(names, sources), norm)
  {
    var es := Zip(names, sources);
    lookup := map[];
    EmptyLookup(es, norm);
    assert es[..0] == [];
    var i := 0;
    while i < |es|
      invariant 0 <= i <= |es|
      invariant IsLookupOf(lookup, es[..i], norm)
      invariant StoredCount(lookup) == KeyedCount(es[..i], norm)
    {
      var name, source := names[i], sources[i];
      assert es[i] == Entry(name, source);
      var normName := norm(Some(name));
      LookupStep(lookup, es, i, norm, normName);
      LookupSizeStep(lookup, es, i, norm, normName);
      lookup := AddRecord(lookup, normName, Entry(name, source));
      i := i + 1;
    }
    assert es[..|es|] == es;
  }

  /** Every record in a key's list has that key and is one of the records. */
  lemma {:induction false} WithKeyMembers(es: seq<Entry>, key: string, norm: Option<string> -> string)
    ensures forall e :: e in WithKey(es, key, norm) ==> e in es && norm(Some(e.original)) == key
  {
    if es != [] {
      WithKeyMembers(es[..|es| - 1], key, norm);
    }
  }

  /** No record with the key means an empty list. */
  lemma {:induction false} WithKeyNone(es: seq<Entry>, key: string, norm: Option<string> -> string)
    requires forall m :: 0 <= m < |es| ==> norm(Some(es[m].original)) != key
    ensures WithKey(es, key, norm) == []
  {
    if es != [] {
      WithKeyNone(es[..|es| - 1], key, norm);
    }
  }

  /**
   * When record `j` is the first with the key, the key's list is not
   * empty and starts with that record: looking up `[0]` gives the
   * earliest loaded record, HubSpot before the target files.
   */
  lemma {:induction false} WithKeyFirst(es: seq<Entry>, key: string, norm: Option<string> -> string, j: nat)
    requires j < |es| && norm(Some(es[j].original)) == key
    requires forall m :: 0 <= m < j ==> norm(Some(es[m].original)) != key
    ensures WithKey(es, key, norm) != [] && WithKey(es, key, norm)[0] == es[j]
    decreases |es|
  {
    var n := |es| - 1;
    if j < n {
      WithKeyFirst(es[..n], key, norm, j);
    } else {
      WithKeyNone(es[..n], key, norm);
    }
  }

  /** The lookup never holds the empty key, and every list in it is non-empty. */
  lemma LookupHasNoEmptyKey(lookup: map<string, seq<Entry>>, es: seq<Entry>, norm: Option<string> -> string)
    requires IsLookupOf(lookup, es, norm)
    ensures "" !in lookup
    ensures forall key :: key in lookup ==> lookup[key] != []
  {
  }

  // ---------------------------------------------------------------------
  // deduplicate_businesses
  // ---------------------------------------------------------------------

  /** `norm_name and norm_name in lookup_dict`, for the lookup of `es` */
  predicate Matches(row: Row, es: seq<Entry>, norm: Option<string> -> string) {
    norm(row.businessName) != [] && WithKey(es, norm(row.businessName), norm) != []
  }

  /** `lookup_dict[norm_name][0]`: the first loaded record with the row's key. */
  function FirstMatch(row: Row, es: seq<Entry>, norm: Option<string> -> string): Entry
    requires Matches(row, es, norm)
  {
    WithKey(es, norm(row.businessName), norm)[0]
  }

  /** The label every match carries. */
  const ExactMatch: string := "exact"

  /** The match details of one matched row. */
  function Info(row: Row, es: seq<Entry>, norm: Option<string> -> string): MatchInfo
    requires Matches(row, es, norm)
  {
    var e := FirstMatch(row, es, norm);
    MatchInfo(e.original, e.source, ExactMatch)
  }

  /** The rows without a match, in order: the new prospects. */
  function NewRows(rows: seq<Row>, es: seq<Entry>, norm: Option<string> -> string): (prospects: seq<Row>)
    ensures |prospects| <= |rows|
  {
    if rows == [] then []
    else
      var row := rows[|rows| - 1];
      NewRows(rows[..|rows| - 1], es, norm) + (if Matches(row, es, norm) then [] else [row])
  }

  /** One output row per matched row, in order: its name and the name it matched. */
  function MatchedRows(rows: seq<Row>, es: seq<Entry>, norm: Option<string> -> string): (matched: seq<MatchedRow>)
    ensures |matched| <= |rows|
  {
    if rows == [] then []
    else
      var row := rows[|rows| - 1];
      MatchedRows(rows[..|rows| - 1], es, norm)
        + (if Matches(row, es, norm) then [MatchedRow(row.businessName, FirstMatch(row, es, norm).original)] else [])
  }

  /**
   * The `matches` dictionary, as its (position, details) items in insertion
   * order, which is the order of the rows.
   */
  function Details(rows: seq<Row>, es: seq<Entry>, norm: Option<string> -> string): (items: seq<(nat, MatchInfo)>)
    ensures |items| <= |rows|
  {
    if rows == [] then []
    else
      var n := |rows| - 1;
      Details(rows[..n], es, norm) + (if Matches(rows[n], es, norm) then [(n, Info(rows[n], es, norm))] else [])
  }

  /** A row matches exactly when its non-empty key is in the lookup, and then the lookup's first record is its match. */
  lemma MatchesViaLookup(lookup: map<string, seq<Entry>>, es: seq<Entry>, norm: Option<string> -> string, row: Row)
    requires IsLookupOf(lookup, es, norm)
    ensures var key := norm(row.businessName);
      && (Matches(row, es, norm) <==> key != [] && key in lookup)
      && (Matches(row, es, norm) ==> lookup[key][0] == FirstMatch(row, es, norm))
  {
  }

  /** What row `i` adds to each of the three results. */
  lemma DedupStep(rows: seq<Row>, i: nat, es: seq<Entry>, norm: Option<string> -> string)
    requires i < |rows|
    ensures var row, prefix := rows[i], rows[..i + 1];
      && NewRows(prefix, es, norm) == NewRows(rows[..i], es, norm) + (if Matches(row, es, norm) then [] else [row])
      && MatchedRows(prefix, es, norm) == MatchedRows(rows[..i], es, norm)
        + (if Matches(row, es, norm) then [MatchedRow(row.businessName, FirstMatch(row, es, norm).original)] else [])
      && Details(prefix, es, norm) == Details(rows[..i], es, norm)
        + (if Matches(row, es, norm) then [(i, Info(row, es, norm))] else [])
  {
    var prefix := rows[..i + 1];
    assert prefix[..i] == rows[..i] && prefix[i] == rows[i] && |prefix| - 1 == i;
  }

  /**
   * `deduplicate_businesses`, with the comparison files and the key
   * function given (the pipeline passes `Cleaner.NormalizeForMatching`).
   * With nothing to compare against, the caller's own frame comes back
   * untouched with no matches. Otherwise the caller's frame gains and then
   * loses the `normalized` column (so it ends without one), and a new frame
   * holds the unmatched rows in order, next to the matched rows and the
   * match details in row order.
   */
  method DeduplicateBusinesses(df: Frame, hubspot: Option<seq<Option<string>>>, targets: seq<TargetFile>,
                               norm: Option<string> -> string)
    returns (newDf: Frame, matched: seq<MatchedRow>, details: seq<(nat, MatchInfo)>)
    modifies df
    ensures df.rows == old(df.rows)
    ensures ComparisonEntries(hubspot, targets) == [] ==>
      newDf == df && matched == [] && details == [] && df.normalized == old(df.normalized)
    ensures ComparisonEntries(hubspot, targets) != [] ==>
      && fresh(newDf)
      && newDf.rows == NewRows(df.rows, ComparisonEntries(hubspot, targets), norm)
      && newDf.normalized == None
      && matched == MatchedRows(df.rows, ComparisonEntries(hubspot, targets), norm)
      && details == Details(df.rows, ComparisonEntries(hubspot, targets), norm)
      && df.normalized == None
  {
    ghost var es := ComparisonEntries(hubspot, targets);
    var names, sources := LoadComparisonData(hubspot, targets);
    if names == [] {
      newDf, matched, details := df, [], [];
      return;
    }
    var lookup := CreateNormalizedLookup(names, sources, norm);
    ZipNamesSources(es);
    var rows := df.rows;
    df.normalized := Some(seq(|rows|, i requires 0 <= i < |rows| => norm(rows[i].businessName)));
    var keys := df.normalized.value;
    var newRows: seq<Row> := [];
    matched, details := [], [];
    var i := 0;
    while i < |rows|
      invariant 0 <= i <= |rows|
      invariant df.rows == rows
      invariant newRows == NewRows(rows[..i], es, norm)
      invariant matched == MatchedRows(rows[..i], es, norm)
      invariant details == Details(rows[..i], es, norm)
    {
      var row := rows[i];
      var normName := keys[i];
      DedupStep(rows, i, es, norm);
      MatchesViaLookup(lookup, es, norm, row);
      if normName != [] && normName in lookup {
        var matchInfo := lookup[normName][0];
        details := details + [(i, MatchInfo(matchInfo.original, matchInfo.source, ExactMatch))];
        matched := matched + [MatchedRow(row.businessName, matchInfo.original)];
      } else {
        newRows := newRows + [row];
      }
      i := i + 1;
    }
    assert rows[..|rows|] == rows;
    newDf := new Frame(newRows);
    df.normalized := None;
  }

  /**
   * Every scraped row ends up on exactly one side: the new prospects and the
   * matched rows together number the rows, and there is one detail entry
   * per matched row.
   */
  lemma {:induction false} DedupPartition(rows: seq<Row>, es: seq<Entry>, norm: Option<string> -> string)
    ensures |NewRows(rows, es, norm)| + |MatchedRows(rows, es, norm)| == |rows|
    ensures |Details(rows, es, norm)| == |MatchedRows(rows, es, norm)|
  {
    if rows != [] {
      DedupPartition(rows[..|rows| - 1], es, norm);
    }
  }

  /** The new prospects are exactly the rows without a match. */
  lemma {:induction false} NewRowsUnmatched(rows: seq<Row>, es: seq<Entry>, norm: Option<string> -> string)
    ensures forall r :: r in NewRows(rows, es, norm) <==> r in rows && !Matches(r, es, norm)
  {
    if rows != [] {
      var init := rows[..|rows| - 1];
      NewRowsUnmatched(init, es, norm);
      assert rows == init + [rows[|rows| - 1]];
    }
  }

  /** The positions of the rows without a match, in increasing order. */
  function NewPositions(rows: seq<Row>, es: seq<Entry>, norm: Option<string> -> string): (pos: seq<nat>)
    ensures |pos| <= |rows|
  {
    if rows == [] then []
    else NewPositions(rows[..|rows| - 1], es, norm) + (if Matches(rows[|rows| - 1], es, norm) then [] else [|rows| - 1])
  }

  /**
   * The new prospects keep order and multiplicity: the `j`-th prospect is
   * the row at the `j`-th unmatched position, the positions strictly
   * increase, and a position is listed exactly when its row has no match.
   */
  lemma {:induction false} NewRowsInOrder(rows: seq<Row>, es: seq<Entry>, norm: Option<string> -> string)
    ensures |NewPositions(rows, es, norm)| == |NewRows(rows, es, norm)|
    ensures forall j :: 0 <= j < |NewPositions(rows, es, norm)| ==>
      NewPositions(rows, es, norm)[j] < |rows| && NewRows(rows, es, norm)[j] == rows[NewPositions(rows, es, norm)[j]]
    ensures forall j, k :: 0 <= j < k < |NewPositions(rows, es, norm)| ==>
      NewPositions(rows, es, norm)[j] < NewPositions(rows, es, norm)[k]
    ensures forall i :: 0 <= i < |rows| ==> (i in NewPositions(rows, es, norm) <==> !Matches(rows[i], es, norm))
  {
    if rows != [] {
      var n := |rows| - 1;
      var init := rows[..n];
      NewRowsInOrder(init, es, norm);
      var pos, prospects := NewPositions(rows, es, norm), NewRows(rows, es, norm);
      forall j | 0 <= j < |pos|
        ensures pos[j] < |rows| && prospects[j] == rows[pos[j]]
      {
        if j < |NewPositions(init, es, norm)| {
          assert pos[j] == NewPositions(init, es, norm)[j] && prospects[j] == NewRows(init, es, norm)[j];
        }
      }
      forall i | 0 <= i < |rows|
        ensures i in pos <==> !Matches(rows[i], es, norm)
      {
        if i < n {
          assert rows[i] == init[i];
        }
      }
    }
  }

  /**
   * Detail entry `j` belongs to the `j`-th matched row: it names a row
   * position (positions strictly increase), that row matches, its details
   * are that row's first record with the type 'exact', and the `j`-th
   * matched output row pairs the row's name with the same existing name.
   */
  lemma {:induction false} DetailsDescribeMatches(rows: seq<Row>, es: seq<Entry>, norm: Option<string> -> string)
    ensures var ds, ms := Details(rows, es, norm), MatchedRows(rows, es, norm);
      && |ds| == |ms|
      && (forall j :: 0 <= j < |ds| ==>
        && ds[j].0 < |rows| && Matches(rows[ds[j].0], es, norm)
        && ds[j].1 == Info(rows[ds[j].0], es, norm) && ds[j].1.matchType == "exact"
        && ms[j] == MatchedRow(rows[ds[j].0].businessName, ds[j].1.matchedName))
      && (forall j, k :: 0 <= j < k < |ds| ==> ds[j].0 < ds[k].0)
  {
    DedupPartition(rows, es, norm);
    if rows != [] {
      var n := |rows| - 1;
      var init := rows[..n];
      DetailsDescribeMatches(init, es, norm);
      var ds, ms := Details(rows, es, norm), MatchedRows(rows, es, norm);
      forall j | 0 <= j < |ds|
        ensures && ds[j].0 < |rows| && Matches(rows[ds[j].0], es, norm)
          && ds[j].1 == Info(rows[ds[j].0], es, norm) && ds[j].1.matchType == "exact"
          && ms[j] == MatchedRow(rows[ds[j].0].businessName, ds[j].1.matchedName)
      {
        if j < |Details(init, es, norm)| {
          assert ds[j] == Details(init, es, norm)[j] && ms[j] == MatchedRows(init, es, norm)[j];
          assert rows[ds[j].0] == init[ds[j].0];
        }
      }
    }
  }

  /** Every matching row has a detail entry. */
  lemma {:induction false} MatchesHaveDetails(rows: seq<Row>, es: seq<Entry>, norm: Option<string> -> string, i: nat)
    requires i < |rows| && Matches(rows[i], es, norm)
    ensures exists j :: 0 <= j < |Details(rows, es, norm)| && Details(rows, es, norm)[j].0 == i
  {
    var n := |rows| - 1;
    if i < n {
      MatchesHaveDetails(rows[..n], es, norm, i);
      var j :| 0 <= j < |Details(rows[..n], es, norm)| && Details(rows[..n], es, norm)[j].0 == i;
      assert Details(rows, es, norm)[j] == Details(rows[..n], es, norm)[j];
    } else {
      assert Details(rows, es, norm)[|Details(rows, es, norm)| - 1].0 == i;
    }
  }

  /**
   * A matched row and the existing name it matched have the same key: a
   * match is an exact equality of normalised names, and the record taken is
   * one of the comparison records.
   */
  lemma MatchAgrees(row: Row, es: seq<Entry>, norm: Option<string> -> string)
    requires Matches(row, es, norm)
    ensures FirstMatch(row, es, norm) in es
    ensures norm(Some(FirstMatch(row, es, norm).original)) == norm(row.businessName)
  {
    WithKeyMembers(es, norm(row.businessName), norm);
  }

  /**
   * The earliest loaded record with a row's (non-empty) key is the one a
   * row is matched with: HubSpot records win over target files, and earlier
   * target files over later ones.
   */
  lemma EarliestRecordWins(row: Row, es: seq<Entry>, norm: Option<string> -> string, m: nat)
    requires m < |es| && norm(row.businessName) != [] && norm(Some(es[m].original)) == norm(row.businessName)
    requires forall m' :: 0 <= m' < m ==> norm(Some(es[m'].original)) != norm(row.businessName)
    ensures Matches(row, es, norm)
    ensures Info(row, es, norm) == MatchInfo(es[m].original, es[m].source, "exact")
  {
    WithKeyFirst(es, norm(row.businessName), norm, m);
  }

  /** A row whose key is empty (a missing name among them) is always a new prospect. */
  lemma EmptyKeyIsNew(rows: seq<Row>, es: seq<Entry>, i: nat)
    requires i < |rows| && Cleaner.NormalizeForMatching(rows[i].businessName) == []
    ensures rows[i] in NewRows(rows, es, Cleaner.NormalizeForMatching)
  {
    NewRowsUnmatched(rows, es, Cleaner.NormalizeForMatching);
  }

  /** With no comparison records every row is a new prospect and there are no matches. */
  lemma {:induction false} NothingToCompare(rows: seq<Row>, norm: Option<string> -> string)
    ensures NewRows(rows, [], norm) == rows
    ensures MatchedRows(rows, [], norm) == [] && Details(rows, [], norm) == []
  {
    if rows != [] {
      NothingToCompare(rows[..|rows| - 1], norm);
      assert rows == rows[..|rows| - 1] + [rows[|rows| - 1]];
    }
  }

  /** Every comparison record is labelled 'hubspot' or `target_` followed by a target file's base name. */
  lemma ComparisonSources(hubspot: Option<seq<Option<string>>>, targets: seq<TargetFile>)
    ensures forall e :: e in ComparisonEntries(hubspot, targets) ==>
      e.source == "hubspot" || exists k :: 0 <= k < |targets| && e.source == TargetSource(targets[k])
  {
    var es := ComparisonEntries(hubspot, targets);
    ComparisonEntriesShape(hubspot, targets);
    var h := |ReadableEntries(hubspot, "hubspot")|;
    forall e | e in es
      ensures e.source == "hubspot" || exists k :: 0 <= k < |targets| && e.source == TargetSource(targets[k])
    {
      var i :| 0 <= i < |es| && es[i] == e;
      if i >= h {
        InTail(es, h, TargetEntries(targets), i);
        TargetEntrySource(targets, e);
      }
    }
  }

  lemma InTail(es: seq<Entry>, h: nat, ts: seq<Entry>, i: nat)
    requires h <= i < |es| && es[h..] == ts
    ensures es[i] in ts
  {
    assert es[i] == ts[i - h];
  }

  /** A target record is labelled with the source of one of the target files. */
  lemma TargetEntrySource(targets: seq<TargetFile>, e: Entry)
    requires e in TargetEntries(targets)
    ensures exists k :: 0 <= k < |targets| && e.source == TargetSource(targets[k])
  {
    TargetEntriesFrom(targets);
    var k :| 0 <= k < |targets| && targets[k].column.Some? &&
      e.source == TargetSource(targets[k]) && Some(e.original) in targets[k].column.value;
  }
}
