# DC Statehood tracker: reconciler and candidate table, in Dafny

This project models the two pieces of logic in the DC Statehood candidate tracker.

**The reconciler script** is `scripts/update-candidates.js`. It turns a spreadsheet export of questionnaire responses into the candidate records the site shows. It works in four steps:

1. It tokenises the export line by line (`parseCSV`).
2. It keeps the rows whose `Status` is exactly `Approved`.
3. It projects each kept row into a response and classifies the answer to "Do you support DC Statehood?" (`parseStatehoodAnswer`).
4. It merges the responses onto the fixed roster `BASE_CANDIDATES`. A roster entry takes the first response whose name and office equal its own after lower-casing.

**The candidate table** is the pure helpers of `src/Party.jsx`, the party-committee page:

- the office list for the position selector;
- the office/slate filter with its `"all"` wildcard;
- grouping by office in a fixed order;
- the status badge, the two slate maps and the fallbacks of a table row.

Everything is pure functions over immutable datatypes:

- A parsed row is a `map<string, string>`.
- Absent or `null` JavaScript values are `Option.None`.
- Strings are `seq<char>`.

The modules follow the program:

| file | module | what it holds |
|---|---|---|
| `wrappers.dfy` | `Wrappers` | `Option` |
| `seqs.dfy` | `Seqs` | `filter`, `map`, `indexOf` and `[...new Set(s)]` on sequences, with subsequence and duplicate facts |
| `text.dfy` | `Text` | `trim`, `toLowerCase`, `startsWith`, `includes` and `split` |
| `csv.dfy` | `Csv` | `parseCSV`, including an exact model of its one regular expression |
| `statehood.dfy` | `Statehood` | `parseStatehoodAnswer` |
| `reconcile.dfy` | `Reconcile` | the approval filter, the projection, the roster and the merge |
| `party.dfy` | `Party` | the helpers of the committee page |

Some behaviour of the script is easy to misread, and the model follows the code exactly:

- **Tokeniser.** The text is split on every line feed before any line is tokenised, so no field spans two lines. Each line is cut with the regular expression `/(".*?"|[^,]+)(?=\s*,|\s*$)/g`. A doubled quote `""` inside a quoted field is never unescaped.
- **Status.** The `Status` value is compared with `Approved` exactly as the tokeniser left it. The only trimming is the tokeniser's own.
- **Merge flags.** The script's roster has no `declined` or `undeliverable` fields, and the records it writes never carry them. Only the committee page reads those flags, from its own data file.
- **Question headers.** The header of question 2 holds the line breaks, and the header of question 4 holds the apostrophe.

## Model

| member | source | states |
|---|---|---|
| Text.Split | scripts/update-candidates.js:83-84 | `split` on one character gives at least one piece, and no piece contains the separator |
| Text.JoinSplit | scripts/update-candidates.js:83 | joining the pieces of a split with the separator gives the text back |
| Text.SplitJoin | scripts/update-candidates.js:83-84 | splitting pieces that lack the separator, once joined with it, gives those pieces back |
| Text.SplitAppend | scripts/update-candidates.js:83 | splitting `a + sep + b` is splitting `a`, then splitting `b` |
| Text.Trim | scripts/update-candidates.js:95 | a trimmed text neither starts nor ends with white space |
| Text.TrimIsInfix | scripts/update-candidates.js:95 | `trim` removes only a run of leading and a run of trailing white space: the result is the infix of the text between them |
| Text.TrimNoEdges | scripts/update-candidates.js:95 | a text with no white space at either end is its own trim |
| Text.TrimIdempotent | scripts/update-candidates.js:143-153 | trimming twice is trimming once |
| Text.LowerTrimCommute | scripts/update-candidates.js:108 | `toLowerCase().trim()` equals `trim().toLowerCase()` |
| Csv.StripQuotes | scripts/update-candidates.js:84 | the empty text and a text without quotes at its ends are kept; a text quoted at both ends loses exactly those two quotes; a lone leading quote, including a text that is just one quote, is dropped; a lone trailing quote is dropped |
| Csv.CleanQuotedField | scripts/update-candidates.js:95 | a quoted value comes out as its inside, with commas, inner white space and doubled quotes kept |
| Csv.CleanWithoutQuotes | scripts/update-candidates.js:95 | on a value without quotes, cleaning is trimming |
| Csv.CloseQuote | scripts/update-candidates.js:92 | the lazy `".*?"` stops at the first quote that the lookahead accepts, and only if no line terminator comes before it; otherwise no quoted match exists |
| Csv.RunEnd | scripts/update-candidates.js:92 | `[^,]+` takes the longest run of non-commas: it ends at a comma or at the end |
| Csv.Tokens | scripts/update-candidates.js:92 | every match of the regular expression is non-empty |
| Csv.TokensWithoutQuotes | scripts/update-candidates.js:92 | on a line without `"`, the values are exactly the non-empty comma-separated pieces, in order, so `,,` yields nothing |
| Csv.QuotedFieldIsOneToken | scripts/update-candidates.js:92 | a well-formed quoted field at the front of a line is one value, commas included |
| Csv.UnquotedFieldIsOneToken | scripts/update-candidates.js:92 | an unquoted run ended by a comma or the end of the line is one value |
| Csv.TokensAvoid | scripts/update-candidates.js:92 | the values of a line lack every character that the line lacks |
| Csv.LastWrite | scripts/update-candidates.js:94-97 | the surviving write for a key is the last position below `n` whose header is that key |
| Csv.RowOf | scripts/update-candidates.js:94-97 | a key is in the row exactly when some position writes it (past the last header the key is "undefined"), and it holds the value of the last such position |
| Csv.Headers | scripts/update-candidates.js:83-84 | no header contains a comma or a line feed |
| Csv.ParseCsv | scripts/update-candidates.js:86-102 | one row per non-blank line after the header line |
| Csv.LineRowWithoutQuotes | scripts/update-candidates.js:87-99 | on a line without `"`, header `i` maps to the `i`-th non-empty comma-separated piece, trimmed; later duplicate headers win |
| Csv.ParseCsvAppendLine | scripts/update-candidates.js:87-100 | appending a line appends that line's row at the end, or nothing when the line is blank, and changes no earlier row |
| Csv.RowOfWellFormed | scripts/update-candidates.js:94-97 | a row built from comma- and line-feed-free headers and line-feed-free values has no such characters |
| Csv.LineRowWellFormed | scripts/update-candidates.js:83-97 | the row of a line without line feeds is well formed under headers without commas or line feeds |
| Csv.ParseCsvWellFormed | scripts/update-candidates.js:83-97 | no parsed key contains a comma or a line feed, and no parsed value contains a line feed |
| Statehood.ParseStatehoodAnswer | scripts/update-candidates.js:105-117 | null exactly for an absent or empty answer; otherwise "Yes", "No" or "Conditional" exactly when that test is the first to succeed on the lower-cased, trimmed text; the trimmed original exactly when no test succeeds, and then it is none of the three labels |
| Statehood.VerbatimIsNoLabel | scripts/update-candidates.js:110-116 | an answer that passes no test does not trim to "Yes", "No" or "Conditional" |
| Statehood.NormalizedTrim | scripts/update-candidates.js:108 | normalising a trimmed answer is normalising the answer |
| Statehood.ClassifierFixpoint | scripts/update-candidates.js:106-116 | classifying a non-empty result again returns it unchanged |
| Statehood.WhitespaceOnlyGivesEmpty | scripts/update-candidates.js:106-108 | a white-space-only answer is truthy and yields the empty string, not null |
| Reconcile.ApprovalFilter | scripts/update-candidates.js:133-139 | the kept rows are a subsequence of the input; each has `Status` exactly "Approved"; every such row is kept, with as many copies as the input holds, and no other row is kept; none is kept exactly when no row is approved |
| Reconcile.TrimmedCellDefaults | scripts/update-candidates.js:143-153 | `row[key]?.trim()` is undefined exactly when the column is missing, and trimmed text otherwise; `?.trim() \|\| ''` is trimmed, and empty when the column is missing |
| Reconcile.ProjectionDefaults | scripts/update-candidates.js:142-155 | name and office are undefined exactly when their columns are missing and are trimmed cell text otherwise; all seven answers are trimmed strings; a missing column for any of the seven questions gives `''` |
| Reconcile.Q2HasLineFeed | scripts/update-candidates.js:148 | the header of question 2 contains a line feed |
| Reconcile.Q3HasComma | scripts/update-candidates.js:149 | the header of question 3 contains a comma |
| Reconcile.Q4HasComma | scripts/update-candidates.js:150 | the header of question 4 contains a comma |
| Reconcile.Q5HasComma | scripts/update-candidates.js:151 | the header of question 5 contains a comma |
| Reconcile.UnreadableQuestions | scripts/update-candidates.js:148-151 | on any parsed row, the columns of questions 2 to 5 are missing, so those four answers are `''` |
| Reconcile.FirstMatch | scripts/update-candidates.js:160-163 | `find` stops at a matching response with no match before it, and finds nothing exactly when no response matches |
| Reconcile.FirstMatchIs | scripts/update-candidates.js:160-163 | a matching position with no match before it is the one `find` returns |
| Reconcile.FindAppend | scripts/update-candidates.js:160-163 | `find` over `a + b` looks at `b` only when `a` has no match |
| Reconcile.FindWithout | scripts/update-candidates.js:160-163 | `find` skips a response that does not match |
| Reconcile.Merge | scripts/update-candidates.js:159-184 | one record per roster entry, in roster order, with the roster's name, party and office; responded exactly when some response matches; a responded record carries the first match's classification and answers; an unmatched record has null support and no answers |
| Reconcile.MergeIgnoresUnmatched | scripts/update-candidates.js:159-184 | a response that matches no roster entry changes no record, wherever it stands |
| Reconcile.MergeFirstMatchWins | scripts/update-candidates.js:160-175 | responses appended later never change a record that already has a response |
| Reconcile.RunStops | scripts/update-candidates.js:133-139 | a run stops before merging exactly when no parsed row has `Status` "Approved" |
| Reconcile.MergedQuestionsEmpty | scripts/update-candidates.js:165-174 | a merged record carries only answers that some response gave, so answers empty in every response stay empty in every record |
| Reconcile.RunShape | scripts/update-candidates.js:128-184 | a run stops early exactly when no parsed row is approved; otherwise it yields one record per roster entry with the roster's identity fields, and questions 2 to 5 are empty in every response |
| Reconcile.ApprovedMatching | scripts/update-candidates.js:133-163 | an entry is responded exactly when some approved row, once projected, matches it |
| Reconcile.RespondedHasRow | scripts/update-candidates.js:133-163 | a matching approved response comes from a parsed row that is approved and matches |
| Reconcile.UnrespondedHasNoRow | scripts/update-candidates.js:133-163 | when no approved response matches, no approved row of the input matches |
| Reconcile.RunMatching | scripts/update-candidates.js:128-184 | the same for a whole run over the sheet's text |
| Reconcile.MatchIgnoresCase | scripts/update-candidates.js:161-162 | a response matches a roster entry exactly when its name and office are both present and each has the roster text's length and equals it up to the case of ASCII letters |
| Reconcile.LowerAgree | scripts/update-candidates.js:161-162 | two texts lower-case alike exactly when they have the same length and differ only in letter case |
| Reconcile.MatchIsExactOtherwise | scripts/update-candidates.js:161-162 | a name or office of another length, or one that differs from the roster's at a character other than an ASCII letter, is no match |
| Reconcile.RunCardinality | scripts/update-candidates.js:24-80 | the script's own run always yields as many records as the roster holds, 55 |
| Reconcile.SummaryAsWritten | scripts/update-candidates.js:193-194 | the printed counts: the number of approved responses, and the roster size minus that number |
| Reconcile.SummaryOf | scripts/update-candidates.js:193-194 | corrected counts of the merged records: never negative, adding up to the roster size, the first equal to the number of roster entries some response matches |
| Reconcile.MatchedCountExtremes | scripts/update-candidates.js:159-163 | the matched-entry count is zero exactly when no roster entry is matched, and the roster size exactly when every entry is |
| Reconcile.RespondedRecords | scripts/update-candidates.js:159-163 | the merged records with a response are exactly the records of roster entries some response matches |
| Reconcile.RespondedCount | scripts/update-candidates.js:159-163 | records flagged as responded exactly where a response matches the roster entry at the same position are as many as the matched entries |
| Reconcile.SummaryOfSplitsRoster | scripts/update-candidates.js:193-194 | the records counted first are exactly those of roster entries some response matches; the first count is zero exactly when no entry is matched, the second exactly when every entry is |
| Reconcile.SummaryAsWrittenMiscounts | scripts/update-candidates.js:193-194 | one unmatched response over a one-entry roster prints 1 with and 0 without, where the merge has 0 with and 1 without |
| Seqs.Filter | src/Party.jsx:46-50 | `filter` keeps exactly the elements that pass, and each passes |
| Seqs.FilterCounts | src/Party.jsx:46-50 | `filter` keeps every copy of an element that passes and no copy of one that fails |
| Seqs.FilterAppend | src/Party.jsx:46-50 | filtering a concatenation filters each part and concatenates the results |
| Seqs.FilterIsSubseq | src/Party.jsx:46-50 | a filter keeps the relative order of what it keeps |
| Seqs.IndexOf | src/Party.jsx:41 | `indexOf` is -1 exactly for an absent element, and otherwise the first position holding it |
| Seqs.Dedup | src/Party.jsx:27 | `[...new Set(s)]` holds exactly the elements of `s`, each once |
| Seqs.DedupFirstAppearance | src/Party.jsx:27 | `[...new Set(s)]` lists elements in order of first appearance |
| Party.Insert | src/Party.jsx:41 | insertion adds exactly one element |
| Party.SortByRank | src/Party.jsx:41 | the sort is a permutation |
| Party.InsertSorted | src/Party.jsx:41 | insertion into a list sorted by rank keeps it sorted |
| Party.SortSorted | src/Party.jsx:41 | the sorted office list is ordered by `order.indexOf` |
| Party.SortNoDups | src/Party.jsx:41 | sorting keeps a list free of repeats |
| Party.InsertJoinsClass | src/Party.jsx:41 | insertion puts an office in front of the rest of its rank class |
| Party.InsertSparesOtherClasses | src/Party.jsx:41 | insertion leaves other rank classes as they were |
| Party.SortStable | src/Party.jsx:41 | the sort is stable: within each rank, input order is kept |
| Party.RankDistinct | src/Party.jsx:29-41 | two different offices on the list never share a rank |
| Party.OfficeListContents | src/Party.jsx:26-27 | the office list holds every office of the data, each exactly once |
| Party.OfficeListOrder | src/Party.jsx:29-41 | listed offices appear in list order and after every unlisted one; unlisted offices (rank -1) come in order of first appearance |
| Party.FilterContract | src/Party.jsx:45-51 | with both selectors at "all" the filter is the identity; otherwise the result is an order-preserving subsequence holding exactly the candidates that both selectors admit, each as many times as the data holds it |
| Party.GroupOf | src/Party.jsx:68-79 | an office has a group exactly when some candidate holds it, and the group holds that office's candidates in filtered order |
| Party.GroupsOver | src/Party.jsx:54-82 | each group's office is in the order, is non-empty, and holds exactly the filtered candidates with that office, in filtered order |
| Party.GroupKeysOrdered | src/Party.jsx:76-80 | the group keys form a subsequence of the fixed order |
| Party.KeyHasCandidate | src/Party.jsx:68-80 | every group key is an office of the order that has a candidate |
| Party.CandidateHasKey | src/Party.jsx:68-80 | every office of the order that has a candidate is a group key |
| Party.GroupKeysPresent | src/Party.jsx:68-80 | a key is present exactly for an office of the order that has at least one candidate |
| Party.GroupKeysDistinct | src/Party.jsx:76-80 | no two groups share a key |
| Party.GroupsDisjoint | src/Party.jsx:68-80 | no candidate is in two groups |
| Party.GroupOfRows | src/Party.jsx:68-79 | a group's rows are the office's filtered candidates |
| Party.MembersAppend | src/Party.jsx:226-227 | the rows of concatenated groups are concatenated |
| Party.GroupRows | src/Party.jsx:68-80 | the rows under the groups are, as a multiset, exactly the candidates whose office is on the list: offices not on the list are dropped |
| Party.OrderSplits | src/Party.jsx:76-80 | an order without repeats splits into its head and a tail without it |
| Party.RowCount | src/Party.jsx:226-227 | the table has as many rows as there are filtered candidates with a listed office |
| Party.GetStatus | src/Party.jsx:228-233 | status precedence: responded, then declined, then undeliverable, else no response; each status exactly when its flag is the first one set |
| Party.StatusDistinct | src/Party.jsx:228-233 | different statuses have different classes and different labels |
| Party.SlateClass | src/Party.jsx:84-88 | only "Free DC Slate" gives `free-dc`, only "Democrats United to Free DC" gives `dems-united`, and every other slate gives `independent` |
| Party.SlateAbbrev | src/Party.jsx:90-94 | only "Free DC Slate" gives `FDC`, only "Democrats United to Free DC" gives `DU`, and every other slate gives `IND` |
| Party.SlateMapsAgree | src/Party.jsx:84-94 | two slates share a class exactly when they share an abbreviation |
| Party.SupportShown | src/Party.jsx:249 | the statehood cell is never blank and shows a truthy value as it is |
| Party.SupportFallback | src/Party.jsx:249 | the dash shows exactly for a falsy value, or for a value that is itself the dash |
| Party.TableShape | src/Party.jsx:219-262 | one row per filtered candidate with a listed office; "View Response" exactly when the status is responded; a position cell exactly when the office selector is "all"; the statehood cell never blank |

## Left out

- File I/O, the existence check, `process.exit` and the console output (scripts/update-candidates.js:120-127, 130, 134, 137-138, 158, 166, 186-214). A run returns `Updated(records)` or `NoApprovedResponses` instead of writing a file or exiting. The counts of the closing summary are modelled only for the finding below.
- `JSON.stringify` formatting of the output file (scripts/update-candidates.js:188). The library serialiser is not part of this model.
- Unicode. `trim` and the regular-expression class `\s` are modelled on ASCII white space (space, tab, line feed, vertical tab, form feed, carriage return). `toLowerCase` is modelled on `A`-`Z` only. The regular expression's `.` excludes line feed and carriage return only; U+2028, U+2029 and the non-ASCII white space are not modelled.
- JavaScript objects' inherited properties. A header such as `__proto__`, or a lookup of a key such as `constructor`, behaves as an ordinary map key here.
- Csv.Tokens: backtracking inside `".*?"` with the lookahead is modelled exactly for this one regular expression, but no general regular-expression engine is modelled.
- Csv.QuotedFieldIsOneToken: the tokenising of quoted fields is stated for well-formed fields at the front of a line; other quoted shapes are covered by `Csv.Tokens` itself and have no separate lemma.
- Matching: a response is matched by equality of lower-cased text. No whitespace collapsing or other normalisation is done, and the code does none either.
- React plumbing in src/Party.jsx: `useState` and `useMemo`, the modal, the markup, the JSON import, the slate-legend and selector counts, the modal's "No response provided" fallbacks and the date (lines 1-24, 96-225, 263-385).
- Party.OfficeListOrder: the office list is computed from an arbitrary order list (`Party.OfficesBy`), and `Party.Offices` applies it to the page's list. The page writes the same list twice (lines 29-40 and 56-67), and the model defines it once.
- src/App.jsx, src/Respond.jsx and src/main.jsx are static markup and routing; they are not part of this model.

## Findings

| source | as written | input that shows it | evidently intended | confidence | as-written member | corrected member |
|---|---|---|---|---|---|---|
| scripts/update-candidates.js:193-194 | the summary prints the number of approved responses as "candidates with responses", and the roster size minus that number as "candidates without responses" | one approved response whose name matches no roster entry: printed 1 with and 0 without, where the merged records have 0 with and 1 without; 56 approved responses over the 55-entry roster print -1 without | count the merged records with and without a response | medium, not executed | Reconcile.SummaryAsWritten, Reconcile.SummaryAsWrittenMiscounts | Reconcile.SummaryOf, Reconcile.SummaryOfSplitsRoster |
