# Code coverage report engine, modelled in Dafny

This project models the engine of a GitHub action that posts a code coverage summary on a
pull request. The engine works in four steps:

- It builds a tree of coverage records from the working directory (`findFiles`).
- It folds an lcov tracefile into that tree (`CoverageReport.parse`).
- It sums the records up the tree and memoises the sums (`getMetrics`).
- It renders each percentage and each uncovered-line list with emoji tiers
  (`formatPercentage`, `_getUncoveredLinesPretty`, `getFormattedCoveragePercentage`).

The current version lives in `src/`. The older version at the repository root differs in
three places: its `get` has no error wrapping, its summary shows only the percentage, and its
`formatPercentage` has three tiers. Both versions are modelled.

The layout follows the program:

- **Value models.** The pure parts are datatypes and functions: `TextFormat`,
  `TextFormatLegacy`, `Ranges`, `CoverageTree`, `TreeBuild`, `LcovParse` and `Summary`.
- **Classes.** `CoverageReport` holds `FileCoverage`, `DirectoryCoverage` and
  `CoverageReport` as classes over the heap. Each class is proved to compute exactly what the
  value model computes:
  - `DirectoryCoverage.Abs()` reads the heap tree back as a `CoverageTree.Directory`.
  - Every heap method's `ensures` ties the new `Abs()` to a function of the old one.
  - The properties of the source are proved as lemmas about those functions.
- **Helpers.** `Strings` writes out the JavaScript built-ins the engine uses:
  - `toFixed(2)`, `toLocaleString()` and `Number()` of a digit string;
  - `split`, `join`, `indexOf`, `substring`, `startsWith`, and `replace` with a string pattern.
- **The JavaScript `Map`.** `OrderedMap` models it as an insertion-ordered list of pairs.

The threshold is an input that `src/text-format.js:3` reads once when the module loads. Here
it is a `real` parameter. The test fixtures are stated with the threshold at 80, which is the
value that `src/text-format.spec.js:1` sets.

## Model

| member | source | states |
|---|---|---|
| TextFormat.Decorate | src/text-format.js:5-19 | each tier's helper output reads back, through Undecorate, as that tier and the exact input: no helper's prefix is a prefix of another, so the tier of a text is never ambiguous |
| TextFormat.Classify | src/text-format.js:21-33 | below the threshold is failing; from the threshold (inclusive) up to 1.1 times it is warning; full coverage is reachable only past both and only when the percentage lies in [99.995, 100.005), which is when the two-decimal text is "100.00%"; otherwise passing. Each tier is stated in both directions, all on the unrounded value |
| TextFormat.FormatPercentage | src/text-format.js:21-33 | the result reads back as the classified tier plus `toFixed(2)` of the percentage followed by `%` |
| TextFormat.ToFixed2Percent100 | src/text-format.js:29 | the text is "100.00%" exactly when the non-negative value rounds to 100.00 |
| TextFormat.FailingAt0 | src/text-format.spec.js:21 | 0 at threshold 80 is ":no_entry: 0.00%" |
| TextFormat.FailingAt25 | src/text-format.spec.js:22 | 25.3 is ":no_entry: 25.30%" |
| TextFormat.FailingAt79 | src/text-format.spec.js:23 | 79.499 renders as 79.50 but is still below 80: ":no_entry: 79.50%" |
| TextFormat.WarningAt80 | src/text-format.spec.js:26 | 80 at threshold 80 is a warning, so the lower bound is inclusive |
| TextFormat.WarningAt85 | src/text-format.spec.js:27 | 85.24 is ":warning: 85.24%" |
| TextFormat.WarningAt87 | src/text-format.spec.js:28 | 87.999 renders as 88.00 but is still below 88: ":warning: 88.00%" |
| TextFormat.PassingAt88 | src/text-format.spec.js:31 | 88.001 is ":white_check_mark: 88.00%" |
| TextFormat.PassingAt89 | src/text-format.spec.js:32 | 89 is ":white_check_mark: 89.00%" |
| TextFormat.FullAt100 | src/text-format.js:29-31 | 100 at threshold 80 is ":gem: 100.00%" in the current version |
| TextFormatLegacy.Classify3 | text-format.js:17-26 | failing below the threshold, warning from the threshold up to 1.1 times it, success otherwise; never full coverage; each one in both directions |
| TextFormatLegacy.FormatPercentage3 | text-format.js:17-26 | the result reads back as the three-tier class plus the two-decimal text and `%` |
| TextFormatLegacy.VersionsAgree | text-format.js:17-26 | the two formatPercentage versions agree except where the newer one says full coverage; there the older one gives the success text of the same percentage |
| TextFormatLegacy.FullIsSuccessFixture | src/text-format.spec.js:33 | 100 at threshold 80 is ":white_check_mark: 100.00%" in the older version |
| Strings.NatToString | src/coverage-report.js:59 | `${n}` is a non-empty digit string with no leading zero |
| Strings.ParseNatToString | src/coverage-report.js:24 | `Number` of the text of `n` is `n` again |
| Strings.NatToStringInjective | src/coverage-report.js:59-61 | different numbers have different texts |
| Strings.Hundredths | src/text-format.js:22 | the hundredths that toFixed(2) picks lie within half a hundredth of the value |
| Strings.ParseToFixed2 | src/text-format.js:22 | the two-decimal text reads back as exactly the rounded hundredths |
| Strings.ToFixed2Is100 | src/text-format.js:29 | the text is "100.00" exactly when the value lies in [99.995, 100.005) |
| Strings.LocaleStringDigits | src/coverage-report.js:12 | `toLocaleString()` read without its group separators is the plain decimal text of the number |
| Strings.SplitPiecesFree | src/coverage-report.js:170 | no piece of `split` holds the separator |
| Strings.SplitLength | src/coverage-report.js:102 | `split('\n').length` is the number of newlines plus one |
| Strings.JoinSplit | src/coverage-report.js:170 | joining the pieces of `split` with the same separator gives back the text |
| Strings.IndexOf | src/coverage-report.js:118 | `indexOf` is -1 exactly when the character is absent, else the position of its first occurrence |
| Strings.RemoveFirstLeading | src/coverage-report.js:101 | `replace('./', '')` on a path that starts with `./` drops exactly that prefix |
| OrderedMap.IndexOfKey | src/coverage-report.js:120 | the position of the key's entry, -1 exactly when no entry has the key |
| OrderedMap.LookupPut | src/coverage-report.js:104 | after `set(k, v)`, `get(k)` is `v` and every other key reads as before |
| OrderedMap.PutDistinct | src/coverage-report.js:104 | `set` keeps keys distinct and keeps every old key |
| OrderedMap.KeysPut | src/coverage-report.js:149 | `set` of a new key appends it to the insertion order; `set` of a present key changes no order |
| OrderedMap.PutTwice | src/coverage-report.js:104 | a second `set` of the same key overwrites the first in place |
| Ranges.Sort | src/coverage-report.js:46 | the numeric sort is sorted and a permutation of its input |
| Ranges.SortedUnique | src/coverage-report.js:46 | a sorted permutation is unique, so the sort is determined by its input's multiset |
| Ranges.ScanInvariant | src/coverage-report.js:51-66 | after each step of the loop, the flushed runs plus the open run expand to exactly the lines seen so far; the runs are well formed and maximal |
| Ranges.Compress | src/coverage-report.js:51-71 | no contract of its own; CompressRoundTrip, CompressSeparated and DuplicatesKept state what it returns |
| Ranges.CompressRoundTrip | src/coverage-report.js:51-71 | the runs emitted re-expand to exactly the input list, are well formed and maximal, and are empty only for an empty input |
| Ranges.CompressSeparated | src/coverage-report.js:55 | for a strictly increasing input the runs are increasing and separated by gaps of at least 2 |
| Ranges.DuplicatesKept | src/coverage-report.js:55 | a repeated number is not merged but starts a new run: [4, 4, 5] gives 4 and 4-5 |
| Ranges.DecodeRenderRange | src/coverage-report.js:58-62 | each piece reads back as its run; a run of one number renders as "n" with no dash, never "n-n" |
| Ranges.DecodeRenderRanges | src/coverage-report.js:73 | the pieces joined with ", " read back as exactly the runs |
| Ranges.UncoveredText | src/coverage-report.js:42-74 | no contract of its own; UncoveredTextMeaning states what it returns |
| Ranges.UncoveredTextMeaning | src/coverage-report.js:42-74 | with nothing hit, the missing-coverage message whatever the list holds; otherwise ":white_check_mark: None" exactly for an empty list, and else a warning that lists exactly the sorted uncovered lines, duplicates included |
| Ranges.CompressFixture1 | src/coverage-report.spec.js:74 | [4, 6, 7, 8] compresses to 4 and 6-8 |
| Ranges.RenderFixture1 | src/coverage-report.spec.js:74 | those runs render as "4, 6-8" |
| Ranges.CompressFixture2 | src/coverage-report.spec.js:92 | [1, 4, 5, 6, 7, 10, 12, 123] compresses to 1, 4-7, 10, 12 and 123 |
| Ranges.RenderFixture2 | src/coverage-report.spec.js:92 | those runs render as "1, 4-7, 10, 12, 123" |
| Ranges.UncoveredTextFixture1 | src/coverage-report.spec.js:74 | the file1 record of the tests (4 hit; lines 4, 6, 7 and 8 uncovered) shows ":warning: 4, 6-8" |
| Ranges.UncoveredTextFixture2 | src/coverage-report.spec.js:92 | the file3 record of the tests shows ":warning: 1, 4-7, 10, 12, 123" |
| CoverageReport.FileCoverage.constructor | src/coverage-report.js:15-21 | a new record has the given name and line count, nothing hit and no uncovered line |
| CoverageReport.FileCoverage.AddUncoveredLine | src/coverage-report.js:23-25 | appends `Number(lineNumber)` and changes no other field |
| CoverageReport.FileCoverage.SetLinesHit | src/coverage-report.js:27-29 | overwrites `linesHit` with `Number(linesHit)` and changes no other field |
| CoverageReport.FileCoverage.SetLinesFound | src/coverage-report.js:31-33 | overwrites `linesFound` with `Number(linesFound)` and changes no other field |
| CoverageReport.FileCoverage.Apply | src/coverage-report.js:179-184 | a setter call changes the record exactly as the value-level edit LcovParse.ApplyEdit does |
| CoverageReport.FileCoverage.UncoveredLinesPretty | src/coverage-report.js:42-74 | returns Ranges.UncoveredText of the fields it was called with; sorts `uncoveredLines` in place when something was hit and leaves it alone otherwise; changes no other field |
| CoverageReport.DirectoryCoverage.constructor | src/coverage-report.js:89-94 | a new directory has its path, an empty Map and no memo |
| CoverageReport.DirectoryCoverage.Get | src/coverage-report.js:116-128 | a failure always carries the message naming the whole path that was asked for |
| CoverageReport.DirectoryCoverage.GetAbs | src/coverage-report.js:116-128 | the heap lookup succeeds or fails where CoverageTree.Get does on the abstract tree, with the same message; nothing found is nothing found, a FileCoverage is found as its record's fields, and a DirectoryCoverage as its own abstract subtree |
| CoverageReport.DirectoryCoverage.GetDirAbs | src/coverage-report.js:116-128 | a DirectoryCoverage that `get(p)` returns is a proper tree below this one, and CoverageTree.Get at `p` finds exactly its abstract subtree |
| CoverageReport.DirectoryCoverage.GetLegacy | coverage-report.js:114-122 | a path without `/` never fails; a failure names one of the path's directory segments, never the last |
| CoverageReport.DirectoryCoverage.GetLegacyAbs | coverage-report.js:114-122 | the older heap lookup succeeds or fails where CoverageTree.GetLegacy does, with the same TypeError; a FileCoverage is found as its record's fields and a DirectoryCoverage as its own abstract subtree |
| CoverageReport.DirectoryCoverage.LegacyFound | coverage-report.js:114-122 | where the older lookup succeeds, the newer one finds the same entry |
| CoverageReport.DirectoryCoverage.FoundIsBelow | src/coverage-report.js:116-124 | a FileCoverage that `get` returns is one of the tree's own records |
| CoverageReport.DirectoryCoverage.AbsWithUpdate | src/coverage-report.js:173-184 | changing the record that `get(p)` returns changes the abstract tree exactly as SetRecord at `p` |
| CoverageReport.DirectoryCoverage.GetMetrics | src/coverage-report.js:130-140 | returns CoverageTree.DirMetrics of the tree as it was (the memo if set, else the sum of the children); afterwards the tree is CoverageTree.Memoize of the old one: a directory that had a memo is left exactly as it was, one without gets a memo after each of its children got theirs, and no record changes |
| CoverageReport.DirectoryCoverage.AllMetrics | src/coverage-report.js:132-133 | `cache.values().map(getMetrics)` is CoverageTree.ChildMetrics of the old tree, in Map order, each child memoised on the way; a file child contributes what FileCoverage.getMetrics (src/coverage-report.js lines 35 to 40) returns, its `linesFound` and `linesHit`, and these are the values that CoverageTree.TotalIsSumOfRecords adds up |
| CoverageReport.DirectoryCoverage.MetricsOf | src/coverage-report.js:133 | one child's `getMetrics()`: its metrics, its subtree memoised, the other children unchanged |
| CoverageReport.DirectoryCoverage.SubMetrics | src/coverage-report.js:130-140 | `getMetrics()` of a subdirectory: its metrics, its subtree memoised, its siblings unchanged |
| CoverageReport.DirectoryCoverage.Set | src/coverage-report.js:104-110 | `cache.set(name, entry)`: the Map becomes OrderedMap.Put of the old one, and the directory stays a proper tree |
| CoverageReport.DirectoryCoverage.SetKeeping | src/coverage-report.js:104-110 | the same `set`, and no entry already in the Map and not the stored entry changes its abstract value |
| CoverageReport.DirectoryCoverage.Attach | src/coverage-report.js:104-110 | after `set`, the Map mirrors OrderedMap.Put of the visited prefix |
| CoverageReport.DirectoryCoverage.AddRecord | src/coverage-report.js:101-104 | a selected file gets a fresh record named without the first `./`, with the file's newline count plus one as `linesFound` |
| CoverageReport.DirectoryCoverage.Scan | src/coverage-report.js:106-107 | `new DirectoryCoverage(fullPath)` followed by `findFiles`: a fresh tree equal to TreeBuild.BuildDir, or the error it throws |
| CoverageReport.DirectoryCoverage.AddSubdirectory | src/coverage-report.js:105-111 | an unselected directory is scanned, and attached only when its Map is non-empty |
| CoverageReport.DirectoryCoverage.VisitEntry | src/coverage-report.js:97-112 | one turn of the `forEach` does what TreeBuild.Visit does, including the EISDIR, EACCES and ENOENT errors of `readFileSync`, `statSync` and a subdirectory's `readdirSync` |
| CoverageReport.DirectoryCoverage.FindFiles | src/coverage-report.js:96-114 | the Map it fills reads back as TreeBuild.BuildDir of the directory, or it returns the file system error (EISDIR, EACCES or ENOENT) that BuildDir reports |
| CoverageReport.DirectoryCoverage.EditRecord | src/coverage-report.js:179-184 | a setter call on the record at `p` turns the abstract tree into SetRecord at `p` with the edited record; the tree keeps its shape, so `get(p)` still finds it |
| CoverageReport.DirectoryCoverage.ApplyBelow | src/coverage-report.js:179-184 | the setter changes only the record: lookups and every memo read as before |
| CoverageReport.DirectoryCoverage.RecordFound | src/coverage-report.js:173 | the FileCoverage that `get(p)` returns is the record CoverageTree.RecordOf reads at `p` |
| CoverageReport.DirectoryCoverage.Edited | src/coverage-report.js:179-184 | a new value for the record at `p` is SetRecord at `p` of the abstract tree |
| CoverageReport.GenerateCoverageRoot | src/coverage-report.js:155-161 | the root built at `.` reads back as TreeBuild.BuildRoot, or its construction fails with BuildRoot's error, EACCES when the working directory may not be listed |
| CoverageReport.NewCoverageReport | src/coverage-report.js:163-166 | the report's root is that of GenerateCoverageRoot |
| CoverageReport.CoverageReport.constructor | src/coverage-report.js:163-166 | the report holds the given root |
| CoverageReport.CoverageReport.Parse | src/coverage-report.js:168-187 | the loop over the lines leaves the records exactly as the fold LcovParse.Parse does, and throws exactly the error the fold stops with |
| CoverageReport.CoverageReport.ParseLine | src/coverage-report.js:171-185 | one turn of the loop is one LcovParse.Step, and `currentFile` keeps tracking the cursor |
| CoverageReport.CoverageReport.RecordLine | src/coverage-report.js:174-185 | the `DA:`, `LH:` and `LF:` branches, and the ignored lines, do what LcovParse.Step does |
| CoverageReport.CoverageReport.SelectFile | src/coverage-report.js:172-173 | an `SF:` line moves `currentFile` as LcovParse.Select moves the cursor, and throws exactly when Select fails |
| CoverageReport.CoverageReport.SelectCurrent | src/coverage-report.js:116-128 | the newer lookup's failure is the wrapped "Could not find a coverage record" message |
| CoverageReport.CoverageReport.SelectLegacy | coverage-report.js:114-122 | the older lookup's failure is the TypeError of its innermost step |
| CoverageReport.CoverageReport.CallSetter | src/coverage-report.js:179-184 | the setter edits the current record as LcovParse.ApplyAtCursor does, and throws when `currentFile` is not a FileCoverage |
| CoverageTree.Get | src/coverage-report.js:116-128 | with no `/`, the direct child, possibly absent, and never a failure; otherwise any failure is the message naming the whole path |
| CoverageTree.GetThroughDir | src/coverage-report.js:122-124 | through a subdirectory, `get` is the subdirectory's `get` of the text after the first `/` |
| CoverageTree.GetBlockedDir | src/coverage-report.js:124-126 | a missing or non-directory first segment raises the error naming the whole path |
| CoverageTree.GetResolve | src/coverage-report.js:116-128 | `get` is a walk along the `/`-separated segments: absent leaves are found as absent, and blocked walks fail with the wrapped message |
| CoverageTree.GetLegacy | coverage-report.js:114-122 | a path without `/` never fails; a failure names one of the path's directory segments, never the last |
| CoverageTree.GetVersionsAgree | coverage-report.js:114-122 | both versions of `get` succeed on the same paths with the same answer; only the error differs |
| CoverageTree.RecordOfSetRecord | src/coverage-report.js:179-184 | after SetRecord at `p`, the record at `p` is the new one exactly when `p` named a file |
| CoverageTree.RecordOfSetRecordOther | src/coverage-report.js:179-184 | SetRecord at `p` leaves the record at every other path unchanged |
| CoverageTree.SetRecordTwice | src/coverage-report.js:182-184 | the last record written at a path wins |
| CoverageTree.SetRecord | src/coverage-report.js:179-184 | a record update never changes the tree's shape: the keys, the order, the directories or the memos; which records change is stated by RecordOfSetRecord and RecordOfSetRecordOther |
| CoverageTree.DirMetrics | src/coverage-report.js:130-140 | no contract of its own; MemoizeMetrics, MemoizeFresh, FreshMetricsAreTotals, StaleMemo and TotalIsSumOfRecords state what it returns |
| CoverageTree.Memoize | src/coverage-report.js:130-140 | after `getMetrics()`, the directory has a memo, and its path and Map size are kept |
| CoverageTree.MemoizeMetrics | src/coverage-report.js:130-140 | a second `getMetrics()` returns what the first returned |
| CoverageTree.MemoizeFresh | src/coverage-report.js:131-137 | without a memo, the memo stored is the sum over the children |
| CoverageTree.FreshMetricsAreTotals | src/coverage-report.js:132-137 | with no memo anywhere, the metrics are the element-wise sums of the children, recursively |
| CoverageTree.StaleMemo | src/coverage-report.js:131 | once a memo is set, later record updates do not change what `getMetrics()` returns |
| CoverageTree.SumMetricsAppend | src/coverage-report.js:133-137 | the reduce is additive over concatenation |
| CoverageTree.TotalIsSumOfRecords | src/coverage-report.js:130-140 | a memo-free tree's metrics are the sum over all its file records |
| CoverageTree.EmptyMetrics | src/coverage-report.js:137 | no children and no memo give `{0, 0}` |
| TreeBuild.Build | src/coverage-report.js:97-112 | the first `k` turns of the `forEach` store at most one entry per turn; BuildChildren states which |
| TreeBuild.Visit | src/coverage-report.js:98-111 | one turn stores at most one new entry and keeps every earlier key in its place; VisitLookup states which |
| TreeBuild.BuildDir | src/coverage-report.js:96-114 | a built directory carries its path, has no memo and at most one entry per listed name; BuildDirBuilt states what the entries are |
| TreeBuild.BuildRoot | src/coverage-report.js:155-161 | a working directory that may not be listed fails with EACCES on `.`; otherwise the root is the directory `.`, with no memo |
| TreeBuild.BuildFailureSticks | src/coverage-report.js:97 | an exception ends the `forEach`: once a visit throws, the directory fails with that error |
| TreeBuild.BuildDirBuilt | src/coverage-report.js:96-114 | every record is named after its full path without the first `./` and starts unhit with nothing uncovered; every subdirectory carries its own path and is non-empty; no memo is set |
| TreeBuild.BuiltRecordName | src/coverage-report.js:98-101 | the record at `p` in a directory `dir` is named `dir/p` without the first `./` |
| TreeBuild.RootRecordName | src/coverage-report.js:158-159 | below the root `.`, the record at `p` is named `p` |
| TreeBuild.BuildChildren | src/coverage-report.js:97-112 | every entry of the directory ends up under its name as EntryRule says: a record for a selected file, the non-empty subtree for an unselected directory, and nothing otherwise |
| TreeBuild.VisitLookup | src/coverage-report.js:99-111 | one visit stores what EntryRule says under the new name and touches no other key |
| TreeBuild.FileLeafRule | src/coverage-report.js:99 | an entry is a file record exactly when it is a file that the include pattern matches and the exclude pattern does not, so exclude wins |
| TreeBuild.SelectedDirectoryFails | src/coverage-report.js:99-102 | a built directory has no selected subdirectory, because reading one as a file throws |
| TreeBuild.UnreadableEntriesFail | src/coverage-report.js:97-107 | a built directory has no dangling link (ENOENT from `readFileSync` or `statSync`), no unlistable subdirectory and no selected unreadable file (EACCES from `readdirSync` or `readFileSync`) |
| TreeBuild.NewRecordLines | src/coverage-report.js:102-103 | a new record's `linesFound` is the newline count plus one, and an empty file gives 1 (the file2 fixture of src/coverage-report.spec.js:80) |
| LcovParse.Step | src/coverage-report.js:171-185 | the cursor after a line again names a record of the tree, or no file; what each tag does is stated by SourceFileLine, DataLine, CountLines and OtherLinesIgnored |
| LcovParse.Run | src/coverage-report.js:170-186 | the loop keeps the cursor on a record of the tree, or on no file; RunAppend, RunKeepsShape and RunKeepsCounts state what it does to the tree |
| LcovParse.Parse | src/coverage-report.js:168-187 | a parse keeps the tree's shape, changing records only, and leaves the cursor valid |
| LcovParse.ApplyEdit | src/coverage-report.js:23-33 | `DA` appends its number, `LH` and `LF` overwrite their counts; the name and the other fields are kept |
| LcovParse.ApplyAtCursor | src/coverage-report.js:179-184 | a setter call never moves the cursor |
| LcovParse.Select | src/coverage-report.js:172-173 | an `SF:` line never changes the tree |
| LcovParse.OtherLinesIgnored | src/coverage-report.js:171-186 | a line with none of the four tags changes nothing |
| LcovParse.SourceFileLine | src/coverage-report.js:172-173 | an `SF:` line points the cursor at the path when `get` finds a file, clears it when `get` finds nothing or a directory, and throws the lookup error otherwise |
| LcovParse.DataLine | src/coverage-report.js:174-180 | `DA:n,h` appends `n` to the current record exactly when `h` is the text "0" |
| LcovParse.CountLines | src/coverage-report.js:181-184 | `LH:` and `LF:` overwrite `linesHit` and `linesFound` of the current record |
| LcovParse.NoCurrentFileThrows | src/coverage-report.js:179-184 | a setter line with no current FileCoverage throws |
| LcovParse.OnlyCurrentRecordChanges | src/coverage-report.js:168-187 | a line changes no record other than the current one, and never the tree's shape |
| LcovParse.LastCountWins | src/coverage-report.js:181-184 | of two `LH:` lines in a row, or two `LF:` lines in a row, the second one wins |
| LcovParse.RunAppend | src/coverage-report.js:170-186 | the loop over two blocks of lines is the loop over the first followed by the loop over the second |
| LcovParse.StepKeepsCounts | src/coverage-report.js:171-185 | no line removes a record; only an `LH:` line changes a record's `linesHit`, only an `LF:` line its `linesFound` |
| LcovParse.RunKeepsCounts | src/coverage-report.js:170-186 | per record: no line removes a record, and a record's `linesHit` stays as it was unless an `LH:` line is read while `currentFile` is that record (likewise `linesFound` and `LF:`); `LH:` lines for other records do not matter |
| LcovParse.LastCountWinsOverall | src/coverage-report.js:181-184 | the last `LH:` (or `LF:`) line read for a record fixes its `linesHit` (or `linesFound`): the lines after it may hold any `DA:` and `SF:` lines and set any other record's counts, as long as none of the same tag is read while `currentFile` is that record again |
| LcovParse.RunKeepsShape | src/coverage-report.js:168-187 | a whole parse changes only records, never the tree's shape |
| LcovParse.VariantsAgree | coverage-report.js:162-181 | both versions of `parse` leave the same records and cursor, and throw on the same inputs |
| LcovParse.StepVariantsAgree | coverage-report.js:162-181 | both versions agree line by line |
| Summary.Percentage | src/coverage-report.js:5-11 | the percentage is 0 when no line was found, so there is never a division by zero; otherwise percentage times found is hit times 100; it is within [0, 100] when hit <= found, and exactly 100 when every line was hit |
| Summary.FormattedCoverage | src/coverage-report.js:5-13 | the summary starts with "<hit> of <found> lines covered ( " and ends with ")", and what lies between reads back as the tier Classify gives the percentage plus its two-decimal text and `%` |
| Summary.FormattedCoverageLegacy | coverage-report.js:5-13 | the older summary reads back as the three-tier class of the percentage plus its two-decimal text and `%` |
| Summary.SummariesAgree | coverage-report.js:5-13 | the older summary is the parenthesised part of the newer one, except that full coverage shows as success there |
| Summary.SummaryCounts | src/coverage-report.js:12 | the counts in the summary read back, without separators, as the plain digits of hit and found |
| Summary.EmptyReportFails | src/coverage-report.js:7-8 | a report without lines reads as ":no_entry: 0.00%" for every positive threshold |
| Summary.AllHitIsFull | src/coverage-report.js:10-12 | with every found line hit and a threshold up to 100 / 1.1, the percentage part is ":gem: 100.00%" |
| Summary.EmptyReportFixture | src/coverage-report.spec.js:118 | the empty report's summary is "0 of 0 lines covered ( :no_entry: 0.00%)" |
| Summary.ReportFixture | src/coverage-report.spec.js:60 | 17 of 30 gives "17 of 30 lines covered ( :no_entry: 56.67%)" |
| Summary.HalfFixture | src/coverage-report.spec.js:71 | 4 of 8 gives "4 of 8 lines covered ( :no_entry: 50.00%)" |
| Summary.UntouchedFileFixture | src/coverage-report.spec.js:80 | 0 of 1 gives "0 of 1 lines covered ( :no_entry: 0.00%)" |
| Summary.ThirdFileFixture | src/coverage-report.spec.js:89 | 5 of 13 gives "5 of 13 lines covered ( :no_entry: 38.46%)" |
| Summary.FullFixture | src/coverage-report.spec.js:98 | 8 of 8 gives "8 of 8 lines covered ( :gem: 100.00%)" |
| Summary.LegacyFullFixture | coverage-report.js:5-13 | the older summary of 8 of 8 is ":white_check_mark: 100.00%" |

## Left out

- I/O is not modelled:
  - The file system calls of `findFiles` (`readdirSync`, `readFileSync`, `statSync`) read an
    `FsNode` value instead. A directory's entries come in the sequence's order, which stands
    for the order `readdirSync` returns.
  - The file system failures modelled are EISDIR (a selected directory), EACCES (an entry
    that may not be read: a selected file, or a directory to list) and ENOENT (a dangling
    link). Failures of other kinds (EMFILE, EIO, a directory that may be listed but not
    searched, entries changing while they are visited) are not modelled.
  - The include and exclude regular expressions, built from action inputs, are predicates on
    the full path.
  - index.js and src/index.js are not part of this model. They read the tracefile, read the
    inputs and post the comment through Octokit, which is I/O and foreign calls.
- `console.info` logging (src/coverage-report.js:100,109) has no effect on the state and is
  omitted.
- Floating point: percentages are exact reals.
  - `toFixed(2)` rounds the exact value half up. Binary rounding of doubles is not modelled.
  - `toLocaleString()` is en-US thousands grouping.
- The threshold is a `real`. Its coercion from a string by `<`, and NaN, are not modelled.
- `Number()` is modelled only on digit strings:
  - LcovParse.NumericLines requires every `DA` line number and every `LH`/`LF` payload to
    be decimal digits, and FileCoverage's setters require the same.
  - This excludes payloads that JavaScript does convert: `Number("5\r")` and `Number(" 5")`
    are 5, `Number("1e3")` is 1000, and `Number("-1")` is -1. It also excludes the payloads
    that give NaN.
  - `Number("")` is 0, which the model follows.
- DirectoryCoverage.FindFiles requires a freshly constructed directory: an empty Map and no
  memo. That is the only way the source calls it.
- CoverageReport.generateReport, FileCoverage.generateReport and
  DirectoryCoverage.generateReport are not modelled. They are Markdown templates whose exact
  whitespace the tests do not agree with. Their pieces are modelled: the summary text
  (Summary), the uncovered-lines text (UncoveredLinesPretty) and the children's order
  (the Map's insertion order, OrderedMap.KeysPut).
- CoverageReport.NewCoverageReport returns a `Result`. The JavaScript constructor throws when
  `findFiles` throws, and the object is then never seen.
- CoverageReport.DirectoryCoverage.FindFiles: when a file system call throws partway
  through, JavaScript leaves the partly filled Map behind. The model only returns the error,
  because the exception escapes the constructor and nobody sees that Map.
- The `DA:`, `LH:` and `LF:` lines before any `SF:`, or after an `SF:` that found nothing or
  a directory, are modelled as the TypeError the code throws (ParseError.NoCurrentRecord).
  They are not excluded by a precondition, because the code handles them by throwing.
- The `:shipit:` text and the missing "Uncovered lines:" prefix that the report test of
  src/coverage-report.spec.js:83,107 expects are not produced by src/coverage-report.js:83,
  so they are not stated.
- The 100% success in src/text-format.spec.js:33 matches text-format.js
  (TextFormatLegacy.FullIsSuccessFixture) and not src/text-format.js, where 100% is the full
  tier (TextFormat.FullAt100).
- The end-to-end report test (building the test directory, parsing the mock tracefile and
  reading the totals) is not restated as one lemma. Its pieces are: the file record sizes
  (TreeBuild.NewRecordLines), the uncovered-line texts (Ranges.UncoveredTextFixture1/2) and
  the summaries (the Summary fixtures).
