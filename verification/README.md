# Election results aggregator — Dafny model

This project models `main/main.go`, a program that reads a semicolon-separated
file of first-round presidential election results, one line per polling
station. The program:

- skips the header line;
- decodes every other line into a `Vote`: the candidates and their counts, the
  department, and the line's total;
- adds the decoded lines into four accumulators: the global total, the total
  per candidate, the total per candidate and department under the composite
  key `candidate + "_" + department`, and the total per department;
- prints three reports: per candidate, per candidate and department, and a
  ranking of departments by total.

The model is split into modules that follow the program's structure:

| file | module | what it holds |
|---|---|---|
| results.dfy | `Results` | `Option` and `Result` |
| strings.dfy | `Strings` | Go's `strings.Split` on one separator character, with `Join` as its inverse |
| decimal.dfy | `Decimal` | the grammar of `strconv.Atoi` (optional sign, then decimal digits), with `Itoa` as its inverse |
| mapsums.dfy | `MapSums` | Go's `m[k] += v` on a map whose missing keys read as 0, and the sum of a map's values |
| compositekey.dfy | `CompositeKey` | the `candidate_department` key: building it, splitting it, and where it fails to round-trip |
| lineparser.dfy | `LineParser` | `Vote`, `parseCandidates`, `createEntryFromString` |
| aggregator.dfy | `Aggregator` | the ingestion loop of `main`, and reference definitions of every total as a sum over the decoded lines |
| ranking.dfy | `Ranking` | the stable sort by decreasing total used by `sort.SliceStable` |
| reports.dfy | `Reports` | the three reporters, returning their lines instead of printing them |

Go semantics that the model spells out:

- `strings.Split` always returns at least one piece.
- `strconv.Atoi` accepts a leading `+` or `-` and can return a negative number.
- Reading a missing map key gives 0, and `m[k] += v` inserts `k`.
- `range` over a map visits the keys in an unspecified order. `ApplyLine`
  chooses each next key arbitrarily with `:|`. The reporters take the order as
  a parameter constrained by `EnumeratesKeys`.
- An index out of range panics and stops the program before any report is
  printed. Only the conversion errors of earlier lines have been printed by
  then. The model represents a panic as a `Failure(IndexOutOfRange(index, length))`.
  `Ingest` stops at the first line that panics.

Consequences of the code that the model keeps:

- A line with fewer than 11 fields panics at field 1 or field 10, so
  `CreateEntry` fails and `Ingest` fails.
- `parseCandidates` runs before fields 1 and 10 are read. On a line of 25, 32,
  39, … fields it reads one past the end and panics (see "## Findings"), so
  `CreateEntry` and `Ingest` fail on such a line too. On every other line the
  candidates it returns are those of the bounded extraction `Candidates`.
- Counts can be negative, because `strconv.Atoi` accepts `-5`. Counts are `int`.
- The composite key is not injective once a candidate or department contains
  `_` (`KeyCollision`). The properties that need it therefore assume
  `SeparatorFree`.

## Model

| member | source | states |
|---|---|---|
| Strings.Split | main/main.go:107 | splitting yields at least one piece, and no piece contains the separator |
| Strings.SplitCount | main/main.go:107 | a line with n separators splits into exactly n + 1 fields |
| Strings.SplitJoin | main/main.go:107 | re-joining the fields with the separator gives back the original line |
| Strings.JoinSplit | main/main.go:79 | separator-free pieces joined with the separator split back into the same pieces |
| Strings.SplitAtSeparator | main/main.go:79 | splitting `a + sep + b` is splitting `a` followed by splitting `b` |
| Strings.SplitWithoutSeparator | main/main.go:79 | a string without the separator splits into itself alone |
| Decimal.Atoi | main/main.go:111 | a successful conversion needs a non-empty text, and a negative result needs a leading `-` |
| Decimal.AtoiItoa | main/main.go:111 | every integer's decimal form converts back to that integer |
| Decimal.AtoiDigits | main/main.go:130 | a non-empty run of digits converts to its decimal value |
| Decimal.AtoiSign | main/main.go:130 | a leading `+` leaves the value unchanged and a leading `-` negates it |
| Decimal.AtoiRejects | main/main.go:130 | a non-digit after the optional sign, or a lone sign, makes the conversion fail |
| MapSums.AddToEntries | main/main.go:52 | `m[k] += v` adds `k` to the keys, adds `v` at `k`, and leaves every other key unchanged |
| MapSums.MergeAddEntries | main/main.go:47-51 | adding a line's map into an accumulator adds pointwise, over the union of the keys |
| MapSums.SumAddTo | main/main.go:52-53 | `m[k] += v` raises the sum of the map's values by exactly `v` |
| MapSums.SumMergeAdd | main/main.go:47-51 | merging a map adds its whole sum to the accumulator's sum |
| MapSums.MergeAddInsert | main/main.go:47-51 | merging a map with one more entry is merging the rest, then adding that entry |
| CompositeKey.SplitKey | main/main.go:79-81 | the key has a candidate and a department piece exactly when it contains `_` |
| CompositeKey.KeyAlwaysSplits | main/main.go:48 | every key built by the loop has the two pieces the reporter reads |
| CompositeKey.KeyRoundTrip | main/main.go:48 | splitting a built key gives back its candidate and department if and only if neither contains `_` |
| CompositeKey.KeyCollision | main/main.go:48 | ("A_B","C") and ("A","B_C") share the key "A_B_C", which splits into ("A","B") |
| CompositeKey.CandidateOfKey | main/main.go:48 | the candidate is recovered from a key when the department is known |
| CompositeKey.KeyInjective | main/main.go:48-49 | within one department, different candidates never share a key |
| CompositeKey.KeyInjectiveClean | main/main.go:48-49 | for `_`-free names and departments, different pairs never share a key |
| CompositeKey.KeyedEntries | main/main.go:47-49 | a line's counts re-keyed by its department hold each count under its own key and have no other keys |
| CompositeKey.KeyedInsert | main/main.go:47-49 | re-keying a map with one more candidate adds exactly that candidate's key |
| CompositeKey.SumKeyed | main/main.go:47-49 | re-keying a line's counts by department preserves their sum |
| LineParser.GroupCount | main/main.go:122-124 | the number of name/count groups the loop visits is the least one whose count field lies past the end of the line |
| LineParser.LastGroup | main/main.go:124-134 | the last group naming a candidate whose count parses is found, or no group names it and parses |
| LineParser.CandidatesUpToLast | main/main.go:124-135 | a candidate is in the map exactly when some group names it with a parsable count, and its value is that of the last such group |
| LineParser.ParseCandidates | main/main.go:120-137 | the loop, with the bound check of the corrected guard, builds the candidate map described by `CandidatesUpToLast` |
| LineParser.AsWrittenPanics | main/main.go:124-129 | the loop as written panics exactly when the line has 25 + 7k fields, reading index `len`; otherwise its result equals the corrected one |
| LineParser.AsWrittenCrashesOn25Fields | main/main.go:125-129 | a line of 25 empty fields panics at index 25 as written, while the corrected loop returns an empty map |
| LineParser.ShortLineHasNoCandidates | main/main.go:124-129 | as written, a line of at most 24 fields yields no candidates and one of exactly 25 panics at index 25; the bounded extraction yields none for both |
| LineParser.CreateEntry | main/main.go:106-117 | the entry fails exactly when the line has at most 10 fields or 25 + 7k fields, always on an index past its end (index `len` in the second case); otherwise it holds the candidates of the bounded extraction, field 1 as department, and field 10's value as total, or 0 when field 10 does not parse |
| LineParser.ParseLine | main/main.go:106-110 | a raw line fails exactly when it has fewer than 10 separators or 24 + 7k separators, the latter at index `len`; a decoded department never contains `;` |
| LineParser.TwentyFiveFieldLinePanics | main/main.go:107-109 | any line with 24 separators panics at index 25 of 25 |
| Aggregator.LineFrame | main/main.go:47-53 | one line adds each candidate's count to that candidate and to its key, and its total to its department and the global total; no other entry changes |
| Aggregator.LineSums | main/main.go:47-53 | one line raises the per-candidate and per-key sums by the sum of its counts, and the per-department sum by its total |
| Aggregator.VisitCandidates | main/main.go:47-51 | visiting the line's candidates in any order adds each count to its candidate and to its key, the same merge whatever the order |
| Aggregator.ApplyLine | main/main.go:47-53 | one pass of the loop body gives the accumulators described by `LineFrame`, whatever order the candidates are visited in |
| Aggregator.Run | main/main.go:29-54 | the loop with its `firstLine` flag computes the whole ingestion: header skipped, the first line that panics (short, or 25 + 7k fields) aborts |
| Aggregator.TwentyFiveFieldFileAborts | main/main.go:37-44 | a header followed by one line of 25 fields aborts the run on line 1, at index 25 |
| Aggregator.IngestIgnoresHeader | main/main.go:37-41 | the header line's contents never affect the outcome, and a failure never points at it |
| Aggregator.IngestStep | main/main.go:37-44 | after a decoded prefix, the next line either extends the decoded lines or ends the ingestion with its panic and position |
| Aggregator.ParseAllFailureSticks | main/main.go:37-44 | once a line panics, later lines cannot change the outcome |
| Aggregator.ParseAllStops | main/main.go:44 | the first line that panics is the one reported |
| Aggregator.TotalIsSumOfLines | main/main.go:53 | the global total is the sum of the line totals |
| Aggregator.DepartmentsAddUpToTotal | main/main.go:52-53 | the per-department totals add up to the global total |
| Aggregator.CandidateViewsAgree | main/main.go:49-50 | the per-candidate totals and the per-key totals have the same sum |
| Aggregator.CandidateTotals | main/main.go:50 | each candidate's total is the sum of its counts over all lines |
| Aggregator.CandidatePresence | main/main.go:50 | a candidate has a total exactly when some line lists it |
| Aggregator.DepartmentTotals | main/main.go:52 | each department's total is the sum of the totals of its lines |
| Aggregator.DepartmentPresence | main/main.go:52 | a department has a total exactly when some line belongs to it |
| Aggregator.KeysAreBuilt | main/main.go:48 | every composite key comes from a candidate listed on some line of that department |
| Aggregator.KeyAfterLine | main/main.go:47-49 | a key present after a line was present before it or is the key of one of that line's candidates |
| Aggregator.KeyBuilder | main/main.go:48 | for every key, some line names a candidate whose key in that line's department it is |
| Aggregator.CandidateDepartmentTotals | main/main.go:48-49 | for `_`-free names, each key's total is the candidate's count summed over that department's lines |
| Aggregator.KeysRoundTrip | main/main.go:48-49 | for `_`-free names, every key splits, rebuilds to itself, and holds the total of the pair it splits into |
| Ranking.InsertPermutation | main/main.go:95-97 | inserting an element adds exactly that element |
| Ranking.InsertSorted | main/main.go:95-97 | inserting into a list sorted by decreasing total keeps it sorted |
| Ranking.InsertStable | main/main.go:95-97 | insertion places the element after every element with the same total |
| Ranking.SortPermutation | main/main.go:89-97 | sorting is a permutation of the departments |
| Ranking.SortSorted | main/main.go:95-97 | the sorted list never puts a lower total before a higher one |
| Ranking.SortStable | main/main.go:95-97 | departments with equal totals keep their relative order |
| Reports.CandidateReportTotals | main/main.go:70-74 | the candidate report has one line per candidate, with the candidate's total over all lines |
| Reports.DepartmentReportLines | main/main.go:77-84 | when every key contains `_`, the report has one line per key, with the key's first two pieces and its total |
| Reports.DepartmentReportRoundTrip | main/main.go:77-84 | the report never panics on the keys the loop builds; for `_`-free names each line's pair rebuilds the key printed, with that pair's total |
| Reports.DistinctCardinality | main/main.go:89-92 | a list of map keys without repeats has as many elements as the map |
| Reports.SortedEnumeration | main/main.go:89-97 | the sorted list holds every department exactly once |
| Reports.RankingReportOrder | main/main.go:87-103 | the ranking lists every department once, numbered 1, 2, …, never puts a lower total before a higher one, and keeps ties in enumeration order |

## Left out

- Opening and closing the file, `bufio.Scanner`, and the `os.Open` error path are not modelled. The input is the sequence of lines.
- The wording of the printed lines and of the panic and error messages is not modelled. The reports are sequences of records.
- Printing the `strconv.Atoi` error at lines 114 and 133 has no effect on the results and is not modelled.
- Decimal.Atoi: the 64-bit range check of `strconv.Atoi` is not modelled. Numbers of any size convert, because the file's counts are far below 2^63.
- `bufio.Scanner`'s 64 KiB line-length limit is not modelled.
- Go's `int` is 64 bits wide and `+=` at main/main.go:49-53 wraps around on overflow. The accumulators here are unbounded `int`, and no sum is reduced modulo 2^64. The lemmas below therefore describe the Go program only while no sum overflows.
- Aggregator.TotalIsSumOfLines: holds in Go only while the running total stays within 64 bits.
- Aggregator.DepartmentsAddUpToTotal: holds in Go only while no department total or the global total overflows.
- Aggregator.CandidateViewsAgree: holds in Go only while no per-candidate or per-key total overflows.
- Aggregator.CandidateTotals: holds in Go only while no candidate's running total overflows.
- Aggregator.DepartmentTotals: holds in Go only while no department's running total overflows.
- Aggregator.CandidateDepartmentTotals: holds in Go only while no per-key running total overflows.
- The order in which Go visits a map is not a function of the map. It is a parameter (`Reports`) or an arbitrary choice (`ApplyLine`).

## Findings

| source | as written | input that shows it | evidently intended | confidence | as-written member | corrected member |
|---|---|---|---|---|---|---|
| main/main.go:125-129 | the guard breaks only when `i >= len-1`, but line 129 reads index `i+2` | a line of 25 fields (or 32, 39, …): `i = 23` passes the guard and `splitedData[25]` panics | stop when the count field `i+2` is past the end (`i+2 >= len`) | not executed | LineParser.ParseCandidatesAsWritten (AsWrittenPanics, AsWrittenCrashesOn25Fields) | LineParser.ParseCandidates |
