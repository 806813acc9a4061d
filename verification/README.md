# NH SOS scraper: cleaning, exact-match deduplication and pipeline decisions

The NH SOS scraper collects business records from the New Hampshire
Secretary of State business search, one search term at a time, and then
processes the progress file. Processing keeps the active businesses, cleans
their display fields, and drops every business whose name already appears in
the HubSpot export or in a `targets_*.csv` file. The comparison is exact on a
normalised key, not fuzzy. The rest of the run goes to new prospects
(`final_data.csv`) and matches (`matched.csv`), plus a tally of where the
matches came from.

This project models that processing core in Dafny and proves what it promises:

- **PyStr** (`pystr.dfy`) holds the ASCII string primitives the cleaners are
  made of:
  - `str.isspace` and `\s`; `str.lower` and `str.title`; `str.strip`;
  - `re.sub(r'\s+', ' ', …)`; `str.split()` and `' '.join`;
  - `str.count` and `str.split(',')`.
- **Cleaner** (`cleaner.py`):
  - the display cleaners `clean_business_name`, `clean_address` and
    `clean_agent_name`;
  - the copying `clean_business_data`;
  - the matching key `normalize_for_matching`, including its one-suffix
    regex, modelled as the leftmost position from which the rest of the
    string matches.
- **DataCleaner** (`data_cleaner.py`): the in-place `clean_business_data`.
  The field cleaners of data_cleaner.py are identical, line by line, to
  those of cleaner.py. They are modelled once, in Cleaner, so the two
  files' cleaners agree on every input by construction.
- **Deduplicator** (`deduplicator.py`):
  - the pairing of comparison names with their source labels;
  - `create_normalized_lookup`, a loop that appends to a map of lists;
  - `deduplicate_businesses`, a loop that partitions the rows into new and
    matched, adds the helper `normalized` column to the caller's frame and
    drops it again.
- **Processor** (`processor.py`):
  - the active-status filter and the early returns of
    `process_scraped_data`;
  - the column choice of the two output files;
  - the match-source tally and its sort.
- **Orchestrator** (`main.py`): `check_completion_status` and the branches
  of `main`.
- **Config** (`config.py`): the search terms, display columns and active
  statuses.
- **Records**: the row record, with `None` for a missing (NaN) cell, and the
  `Frame` class, a data frame held by reference.

Strings follow Python's ASCII rules:

- `\s` is a tab, a line feed, a vertical tab, a form feed, a carriage return, characters 28 to 31, or a space.
- `\w` is an ASCII letter, a digit or `_`.
- `title()` upper-cases a letter exactly when it does not follow a letter.

## Model

| member | source | states |
|---|---|---|
| PyStr.Title | cleaner.py:20 | every letter is upper-case exactly when it does not follow a letter; letters stay letters and non-letters are untouched |
| PyStr.TitleLower | cleaner.py:20 | case-insensitively, title-cased text is the text itself |
| PyStr.Lower | cleaner.py:98 | `lower()` keeps the length; PyStr.SplitLower and Cleaner.CaseInsensitiveKey say what it does to the words and to the key |
| PyStr.Strip | cleaner.py:13 | the result has no leading or trailing whitespace, is no longer than the input, and is empty exactly when the input is all whitespace |
| PyStr.StripSlice | cleaner.py:13 | the stripped text is one contiguous slice of the input with only whitespace before and after it |
| PyStr.SplitStrip | cleaner.py:13 | stripping does not change the words `split()` finds |
| PyStr.NonSpaceStrip | cleaner.py:13 | stripping removes only whitespace |
| PyStr.CollapseSpace | cleaner.py:16 | empty exactly for empty input; no two whitespace characters in a row and only plain spaces; the first and the last character are whitespace exactly when they were in the input |
| PyStr.NonSpaceCollapse | cleaner.py:16 | collapsing whitespace keeps every other character in order |
| PyStr.CollapseKeepsLast | cleaner.py:16 | text ending in a non-space character still ends in it after collapsing |
| PyStr.SplitCollapse | cleaner.py:16 | collapsing whitespace runs does not change the words `split()` finds: every run becomes one space, never none |
| PyStr.Split | cleaner.py:108 | `split()` yields non-empty words without whitespace |
| PyStr.SplitJoinFixed | cleaner.py:108 | `' '.join(s.split())` gives back any trimmed, single-spaced text |
| PyStr.JoinShape | cleaner.py:108 | joining non-empty words with single spaces gives trimmed, single-spaced text made of the words' characters |
| PyStr.JoinSpace | cleaner.py:108 | `' '.join` adds no character but the joining spaces and the words' own |
| PyStr.SplitJoin | cleaner.py:108 | splitting what `' '.join` made of non-empty words without whitespace gives back exactly those words |
| PyStr.SplitLower | cleaner.py:98 | lower-casing and then splitting gives the lower-cased words of the input, one for one |
| PyStr.Count | cleaner.py:59 | `count` is zero exactly when the character is absent |
| PyStr.SplitOn | cleaner.py:60 | `split(',')` gives one more part than there are commas, and no part holds a comma |
| Cleaner.SplitOnOneComma | cleaner.py:59-62 | with exactly one comma, the two parts are the text before and after it |
| PyStr.StripKeeps | cleaner.py:62 | every character of the stripped text satisfies what every input character did |
| Cleaner.CommaSpacing | cleaner.py:17 | comma spacing gives empty text exactly for empty text; Cleaner.CommaSpacingBySplit gives its reference meaning |
| Cleaner.CommaSpacingBySplit | cleaner.py:17 | comma spacing equals an independent definition: split at the commas, drop the trailing whitespace of each part and the leading whitespace of each part after a comma, and join the parts with `, ` |
| Cleaner.CommaSpacingSpaced | cleaner.py:17 | after `\s*,\s*` becomes `, `, every comma is followed by exactly one space and then a non-space or the end, and whitespace directly before a comma can only be the space of an earlier `, ` |
| Cleaner.CommaSpacingContent | cleaner.py:17 | comma spacing changes only whitespace: the non-whitespace characters stay the same, in order |
| Cleaner.CommaSpacingSingle | cleaner.py:16-17 | comma spacing keeps text single-spaced with plain spaces |
| Cleaner.AdjacentCommas | cleaner.py:17 | two adjacent commas each get their own space, so the second comma follows a space (`,,` gives `, ,…`) |
| Cleaner.CommaSpacingTrailing | cleaner.py:17 | text ending in a comma ends in a space after comma spacing |
| Cleaner.CleanBusinessName | cleaner.py:8-22 | a missing or empty name gives `''`; every result is title-cased |
| Cleaner.CleanBusinessNameShape | cleaner.py:13-20 | the result has the input's non-whitespace characters, up to case; it has no double whitespace, only plain spaces and spaced commas; it does not start with whitespace; it is empty exactly when the input is all whitespace |
| Cleaner.CommaFreeNameKeepsWords | cleaner.py:8-22 | for a name without commas, the cleaned name has the same words as the input, up to case |
| Cleaner.TrailingCommaSpace | cleaner.py:13-20 | a name whose stripped text ends in a comma gets a trailing space |
| Cleaner.UsaMatch | cleaner.py:40 | a match of `,?\s*Usa\s*` at the start of the text has a length between 3 and the text's length |
| Cleaner.RemoveUsa | cleaner.py:40 | deleting the matches never lengthens the text; Cleaner.TrailingUsaRemoved and Cleaner.RemoveUsaUnchanged say what it deletes |
| Cleaner.TrailingUsaRemoved | cleaner.py:39-40 | text without a match followed by `, Usa` loses exactly that `, Usa` and nothing else |
| Cleaner.RemoveUsaShrinks | cleaner.py:40 | the left-to-right deletion never lengthens the text, and strictly shortens it when a match exists anywhere |
| Cleaner.RemoveUsaUnchanged | cleaner.py:40 | the deletion leaves the text unchanged exactly when no position starts a match |
| Cleaner.NoCapitalU | cleaner.py:40 | text without a capital `U` is left unchanged |
| Cleaner.UsaInsideWord | cleaner.py:40 | the match is not tied to a word: `Usage` becomes `ge` |
| Cleaner.CleanAddress | cleaner.py:25-42 | a missing or empty address gives `''`; every result is trimmed |
| Cleaner.CleanAddressLikeName | cleaner.py:27-42 | the address is the business-name cleaning of the input, stripped, when that contains no `Usa` match; otherwise it is strictly shorter |
| Cleaner.AddressDropsTrailingUsa | cleaner.py:25-42 | an address whose cleaned form is text without a match plus `, Usa` is that text, stripped: the trailing country is removed |
| Cleaner.CleanAgentName | cleaner.py:45-48 | a missing or empty name gives `''` |
| Cleaner.CleanAgentNameSwap | cleaner.py:59-63 | with exactly one comma, the result is the stripped second part, a space, the stripped first part, and holds no comma |
| Cleaner.CleanAgentNameKeeps | cleaner.py:50-65 | with no comma or several, the result is title-cased, single-spaced with plain spaces and trimmed, and has the same words as the input up to case |
| Cleaner.AgentTextShape | cleaner.py:50-56 | strip, whitespace collapse and title case give title-cased, single-spaced, trimmed text with plain spaces and the same words as the input up to case |
| Cleaner.SpacingKeepsWords | cleaner.py:50-56 | strip, whitespace collapse and title case keep the words, up to case |
| Cleaner.FillNa | cleaner.py:76 | `fillna` keeps a present value and replaces a missing one by the default |
| Cleaner.FillEmptyIrrelevant | cleaner.py:76-82 | filling a missing name with `''` does not change what the name and agent cleaners return |
| Cleaner.CleanRow | cleaner.py:73-85 | the search term is kept, a present status is kept, a missing status becomes `Unknown`, and a missing previous name or agent becomes `''` |
| Cleaner.CleanRows | cleaner.py:73-85 | the number of rows is preserved |
| Cleaner.CleanColumns | cleaner.py:72-85 | the five column assignments leave each row cleaned as `CleanRow` says, and the helper column alone |
| Cleaner.CleanBusinessData | cleaner.py:68-87 | the cleaned frame is a fresh copy and the caller's frame is not modified |
| Cleaner.AfterSeparator | cleaner.py:101 | the `\s*,?\s*` prefix that is removed consists of separator characters only, and what follows it does not start with whitespace |
| Cleaner.FirstSuffixMatch | cleaner.py:101-102 | the returned position is a match of the suffix pattern, or the end, and no earlier position matches |
| Cleaner.StripLegalSuffix | cleaner.py:101-102 | the result is a prefix of the input; when it is shorter, the suffix pattern matches right where it ends, and at no earlier position |
| Cleaner.LeftmostMatch | cleaner.py:101-102 | when the leftmost match is at position i, the result is the first i characters |
| Cleaner.LegalSuffixRemoved | cleaner.py:101-102 | text that ends in the listed suffix `w`, optionally followed by a period, loses at least `w`, and the period too when there is one |
| Cleaner.NoLegalSuffixKept | cleaner.py:101-102 | trimmed text that does not end in a listed suffix is left as it is |
| Cleaner.MatchEndsWithSuffix | cleaner.py:101 | on trimmed text, the pattern can only match where a listed suffix ends the text |
| Cleaner.StripsOneSuffix | cleaner.py:101-102 | a name, a separator of spaces and at most one comma, a listed suffix and an optional period: only the name is left |
| Cleaner.SuffixMatchInWord | cleaner.py:101 | inside a single word, the pattern matches exactly where the rest of the word is a listed suffix (there is no word boundary) |
| Cleaner.PunctuationToSpace | cleaner.py:105 | `[^\w\s]` to space keeps the length |
| Cleaner.NormalizeForMatching | cleaner.py:90-110 | a missing or empty name gives `''`; every key has no upper-case letter, no leading, trailing or double space, and only letters, digits, `_` and single spaces |
| Cleaner.CaseInsensitiveKey | cleaner.py:90-98 | two names that differ only in the case of letters get the same key: the matching is case-insensitive |
| Cleaner.NormalizeTextIsKey | cleaner.py:98-108 | each of the four steps leads to a well-formed key |
| Cleaner.NoSuffixOnlyCleans | cleaner.py:98-108 | without a listed suffix at the end, only lower-casing, punctuation-to-space and whitespace collapsing apply |
| Cleaner.KeyFromSteps | cleaner.py:98-108 | when the lowered, stripped, suffix-stripped text is already single-spaced lower-case words, it is the key |
| Cleaner.AcmeTruckingCommaExample | cleaner.py:98-108 | `Acme Trucking, LLC.` has the key `acme trucking` |
| Cleaner.AcmeTruckingPlainExample | cleaner.py:98-108 | `acme trucking llc` has the same key as `Acme Trucking, LLC.` |
| Cleaner.NotIdempotent | cleaner.py:101-102 | only one suffix goes per call: `acme co inc` gives `acme co`, and normalising that again gives `acme` |
| Cleaner.NoWordBoundary | cleaner.py:101 | `taco` has the key `ta` |
| Cleaner.TacoFrom | cleaner.py:101 | in `taco` the pattern first matches at position 2 |
| DataCleaner.CleanBusinessData | data_cleaner.py:8-26 | the caller's frame is cleaned in place, row by row as `CleanRow` says, and is itself returned |
| Deduplicator.DropNa | deduplicator.py:22 | `dropna().tolist()` keeps exactly the present names and never adds any |
| Deduplicator.FileNamesSources | deduplicator.py:22-24 | a file contributes its present names, each paired with the file's label |
| Deduplicator.ZipNamesSources | deduplicator.py:53 | zipping the names with the labels gives back the records |
| Deduplicator.LoadComparisonData | deduplicator.py:12-44 | the names and labels are those of the HubSpot records followed by the target files' records, in the order the files are given |
| Deduplicator.ComparisonEntriesShape | deduplicator.py:18-41 | the HubSpot names come first, labelled `hubspot`, and everything after them is the target files' records |
| Deduplicator.TargetEntriesFrom | deduplicator.py:33-38 | every target record comes from a readable file, is labelled `target_` plus that file's base name, and is one of its present names |
| Deduplicator.UnreadableSkipped | deduplicator.py:34-41 | a file that cannot be read contributes nothing |
| Deduplicator.ComparisonSources | deduplicator.py:24-38 | every label is `hubspot` or `target_` plus a target file's base name |
| Deduplicator.AddRecord | deduplicator.py:55-61 | one step: an empty key leaves the map alone; otherwise the record is appended to its key's list, which is created when missing |
| Deduplicator.LookupStep | deduplicator.py:53-61 | one step keeps the lookup equal to the records grouped by key, in input order |
| Deduplicator.CreateNormalizedLookup | deduplicator.py:47-62 | the keys are exactly the non-empty keys of some record; each key holds all records with that key, in input order; the stored records number exactly the records with a non-empty key |
| Deduplicator.LookupHasNoEmptyKey | deduplicator.py:55 | the lookup has no empty key and no empty list |
| Deduplicator.WithKeyMembers | deduplicator.py:54-61 | every record stored under a key normalises to that key |
| Deduplicator.WithKeyFirst | deduplicator.py:58 | the first record stored under a key is the earliest record with that key |
| Deduplicator.MatchesViaLookup | deduplicator.py:93-95 | a row matches exactly when its key is non-empty and in the lookup, and then its match is the first record stored there |
| Deduplicator.DedupStep | deduplicator.py:90-107 | each row goes to the new rows or to the matched rows and details, in input order |
| Deduplicator.DeduplicateBusinesses | deduplicator.py:65-124 | with no comparison data, the same frame comes back with no matches; otherwise a fresh frame holds the unmatched rows without the helper column, the matches and details are as described, the caller's rows are kept and its helper column is dropped |
| Deduplicator.DedupPartition | deduplicator.py:90-111 | new plus matched rows number the input rows, and there is one detail per matched row |
| Deduplicator.NewRowsUnmatched | deduplicator.py:105-107 | a row is among the new rows exactly when it is an input row that matches nothing |
| Deduplicator.NewRowsInOrder | deduplicator.py:105-110 | the new rows are the unmatched input rows in their input order, each exactly once: the `j`-th new row is the row at the `j`-th unmatched position, the positions increase strictly, and every unmatched position is listed |
| Deduplicator.DetailsDescribeMatches | deduplicator.py:95-104 | each detail names a matching row, in increasing row order, with match type `exact`; it pairs with the matched row of the same scraped name and matched name |
| Deduplicator.MatchesHaveDetails | deduplicator.py:93-100 | every matching row has a detail |
| Deduplicator.MatchAgrees | deduplicator.py:95 | the record a row is matched to is a comparison record with the same key |
| Deduplicator.EarliestRecordWins | deduplicator.py:95-100 | the matched name and source come from the earliest record with the row's key |
| Deduplicator.EmptyKeyIsNew | deduplicator.py:93 | a row whose key is empty is always new |
| Deduplicator.NothingToCompare | deduplicator.py:73-75 | without comparison records every row is new and nothing matches |
| Processor.ActiveRows | processor.py:30 | the filter keeps at most the rows it is given |
| Processor.IsActive | processor.py:30 | a row is active exactly when its status is `Good Standing` or `Active`, compared exactly; a missing status is not active |
| Processor.ActiveRowsExactly | processor.py:30 | a row is kept exactly when its status is `Good Standing` or `Active` |
| Processor.ActiveRowsInOrder | processor.py:30 | the active rows are in their input order, each exactly once: the `j`-th kept row is the row at the `j`-th active position, the positions increase strictly, and every active position is listed |
| Processor.CountSources | processor.py:82-88 | the tally counts each group as often as it occurs, with the keys in the order they first occur; the counts add up to the number of matches |
| Processor.TallyStep | processor.py:84-88 | one step of the loop keeps the tally exact |
| Processor.TallyIsCountsOf | processor.py:82-88 | the loop's dictionary is the count of each group |
| Processor.SourceGroup | processor.py:86-87 | a source is counted under `target_files` exactly when it starts with `target_`; any other source is counted under itself |
| Processor.TargetGroup | processor.py:86-87 | every target-file label is counted under `target_files` |
| Processor.HubspotGroup | processor.py:84-88 | the `hubspot` label is counted under itself |
| Processor.MatchGroups | processor.py:84-88 | the only groups are `hubspot` and `target_files` |
| Processor.InsertPermutes | processor.py:91 | one insertion adds exactly the inserted item |
| Processor.InsertSorted | processor.py:91 | one insertion keeps the order of non-increasing counts |
| Processor.SortByCount | processor.py:91 | the sort keeps the number of items; Processor.SortByCountFacts gives its order and stability |
| Processor.SortByCountFacts | processor.py:91 | the sort orders by non-increasing count, is a permutation, and keeps equal counts in their first-seen order (stable) |
| Processor.Report | processor.py:82-92 | the report is sorted by non-increasing count and has one entry per distinct group |
| Processor.ReportFacts | processor.py:82-92 | the report is sorted by count; it has one entry per distinct group, giving that group's number of matches |
| Processor.ReportGroups | processor.py:82-92 | the report lists only `hubspot` and `target_files` |
| Processor.FinalTable | processor.py:49-55 | the new prospects are written with the display columns, one line per row, and line `i`'s cells are row `i`'s business name, previous name, address, agent and status |
| Processor.MatchedTable | processor.py:57-63 | the matches are written with `business_name` and `matched_name`, one line per match, and line `i` holds match `i`'s business name and matched name |
| Processor.ProcessScrapedData | processor.py:13-67 | an empty input stops at the active percentage; no active row stops before cleaning; otherwise the result is the tables and report of the cleaned active rows against the comparison data |
| Orchestrator.CheckCompletionStatus | main.py:30-40 | complete exactly when there is a state and every search term has a known page total with at least that many pages done |
| Orchestrator.UnknownTotalIncomplete | main.py:37-38 | a term without a known total makes the run incomplete |
| Orchestrator.NoPagesRecorded | main.py:36 | a term with no pages recorded counts as zero pages done |
| Orchestrator.OtherTermsIrrelevant | main.py:35 | only the configured search terms affect completion |
| Orchestrator.CompletionMonotone | main.py:35-40 | finishing more pages never undoes completion |
| Orchestrator.Decide | main.py:55-61 | the process-only path is taken exactly when the progress file exists and the first argument is `--process-only` |
| Orchestrator.ProcessOnlyIgnoresCrawl | main.py:55-61 | on the process-only path, how a crawl would end plays no part |
| Orchestrator.ProcessScrapedOnlyWhenComplete | main.py:63-86 | scraped data is processed exactly when process-only is not taken, the crawl returned a state, the state is complete and the progress file exists |

## Left out

- Reading files. `read_csv`, `glob.glob` and `os.path.exists` are not modelled; what they return is an input. The HubSpot column is given, or `None` when it cannot be read. Target files come as a sequence in `glob`'s order, so which record counts as first is relative to that order.
- Console output: every `print`, the header, and the per-term summary.
- Timing: `time.time`.
- The active and outcome percentages are not computed. Only the divide-by-zero of an empty progress file (processor.py:31) is modelled, as an outcome.
- Writing CSV files: only the columns and the rows of each output are modelled.
- The crawl itself: `asyncio`, `scraper.run`, `scraper.print_final_summary`, and the crawl-state manager and session scheduler. The scraper module is not part of this model. Only the shape of its state (pages done per term, page total per term) is used.
- Reading `sys.argv` and the file system in `main`: the arguments and the existence of the progress file are parameters.
- clean_csv.py (a load, clean and save script) and visuals.py (SQLite and Datasette) are not part of this model.
- Pandas index labels: the match details key each match by its row position.
- Non-string cells and `str()` of them: every cell is a string or missing.
- Unicode: the character classes, `lower()` and `title()` follow the ASCII rules only.
- Processor.CountSources: the `'unknown'` default for a missing source is not modelled, because every match detail has a source.
- Deduplicator.DeduplicateBusinesses: the key function is a parameter, not fixed. ProcessScrapedData passes `normalize_for_matching`, and the generic lemmas hold for any key function.
- Cleaner.CommaSpacingSpaced: a comma can still follow whitespace after an earlier `, ` (`,,` gives `, , `), so "no whitespace before a comma" is proved only with that exception.
- Cleaner.RemoveUsaUnchanged: the single left-to-right pass can form a new `Usa` out of the remaining text, so "no `Usa` left afterwards" is not claimed.
- Cleaner.CleanBusinessNameShape: the same words are claimed only for names without a comma (Cleaner.CommaFreeNameKeepsWords), because comma spacing turns `a,b` into the two words `a,` and `b`.
- Cleaner.NormalizeForMatching: the key function is not idempotent, since one suffix goes per call. Cleaner.NotIdempotent proves this, so no idempotence is claimed.
