# Churn-risk snapshot, modelled in Dafny

The churn-risk snapshot script takes a CSV export of users. It cleans the column names and turns the "Churn Status (Yes/No)" answers into a 0/1 `churn_flag`. It then builds a KPI table: for each payment-history status, the number of users, the number who churned, and the churn rate, highest rate first. This project models that pipeline in `src/churn_risk_snapshot.py` and proves what each step promises.

The model is built from values. A data frame is a `Frame.Table`: an ordered list of column labels plus rows of cells. A cell is either text or an integer. Each pipeline step in the source starts with `df.copy()`, so here each step is a function that builds a new table. The steps are:

* `SnakeCase.ToSnakeCase` (`to_snake_case`): strip, lower-case, drop every character that is neither `\w` nor `\s`, then turn every run of whitespace into one `_`.
* `ChurnSnapshot.StandardiseColumns` (`standardise_columns`).
* `Frame.CellText` (`astype(str)`): text is kept and an integer becomes its decimal text. `ChurnSnapshot.ChurnValue` then strips and lower-cases a churn cell, and `ChurnSnapshot.PaymentValue` strips a payment cell.
* `ChurnSnapshot.MapChurnFlag` (`map_churn_flag`). It fails with `MissingColumn`, listing the first 15 labels, when the churn column is absent. It fails with `Unmappable`, listing up to 10 `value_counts` entries, when a normalised churn value is neither `yes` nor `no`. Otherwise it returns the table with the normalised churn column and `churn_flag`.
* `ChurnSnapshot.ChurnByPayment` (`churn_by_payment`). It groups with `Grouping.Aggregate`, which computes the groups, sizes and sums of `groupby(dropna=False).agg(size, sum)`. `Aggregate` keeps the groups in first-occurrence order, while pandas lists them in sorted key order. It orders the rows with `Ordering.SortDesc`, which promises what `sort_values(ascending=False)` promises: non-increasing rates and the same rows.
* `ChurnSnapshot.RunReport` (`main`). The data file's existence is a parameter, so a missing file gives `MissingFile`.

The errors the source raises (`KeyError`, `ValueError`, `FileNotFoundError`) become the `Failure` cases of `ChurnSnapshot.Result`.

Modules: `Seqs` (counts, sums, prefixes), `Ordering` (descending insertion sort), `Grouping` (group-by), `Frame` (tables), `SnakeCase` (header normalisation), `ChurnSnapshot` (the pipeline).

## Model

| member | source | states |
|---|---|---|
| SnakeCase.TrimStartSpec | src/churn_risk_snapshot.py:17 | `strip()` cuts exactly the leading whitespace: what is cut is all whitespace, and what remains does not start with whitespace |
| SnakeCase.TrimEndSpec | src/churn_risk_snapshot.py:17 | `strip()` cuts exactly the trailing whitespace, symmetrically |
| SnakeCase.StripSpec | src/churn_risk_snapshot.py:17 | the stripped name is a slice of the input, with no whitespace at either end, cut from whitespace-only margins; a name without whitespace is unchanged |
| SnakeCase.StripAscii | src/churn_risk_snapshot.py:17 | stripping keeps ASCII input ASCII |
| SnakeCase.LowerChar | src/churn_risk_snapshot.py:17 | `lower()` maps `A`-`Z` to `a`-`z` and leaves every other character alone |
| SnakeCase.LowerAppend | src/churn_risk_snapshot.py:17 | lower-casing distributes over concatenation |
| SnakeCase.LowerSpaces | src/churn_risk_snapshot.py:17 | lower-casing keeps the length and which characters are whitespace, and leaves no upper-case letter |
| SnakeCase.RemovePunctuationSpec | src/churn_risk_snapshot.py:18 | what `[^\w\s]` removal leaves is only word characters and whitespace; it never lengthens the string, keeps a string of such characters unchanged, and keeps ASCII and upper-case-free input so |
| SnakeCase.RemovePunctuationCounts | src/churn_risk_snapshot.py:18 | every occurrence of a word or whitespace character survives, and every other character is dropped |
| SnakeCase.RemovePunctuationKeeps | src/churn_risk_snapshot.py:18 | any property shared by all input characters holds for all output characters |
| SnakeCase.RemovePunctuationAppend | src/churn_risk_snapshot.py:18 | removal distributes over concatenation |
| SnakeCase.CollapseWhitespaceSpec | src/churn_risk_snapshot.py:19 | after `\s+` replacement no whitespace is left and no string grows; a string without whitespace is unchanged; lower-case word input gives only lower-case word characters and `_` |
| SnakeCase.TrimRun | src/churn_risk_snapshot.py:19 | the regex's `\s+` consumes a whole whitespace run: dropping the run in front of a non-space leaves exactly what follows it |
| SnakeCase.CollapseRun | src/churn_risk_snapshot.py:19 | a whitespace run of any length, followed by a non-space or the end, becomes exactly one `_` |
| SnakeCase.CollapseKeeps | src/churn_risk_snapshot.py:19 | any property of `_` and of every non-whitespace input character holds for every output character |
| SnakeCase.CollapseAfterWord | src/churn_risk_snapshot.py:19 | a whitespace-free prefix passes through unchanged |
| SnakeCase.CollapseAfterSpace | src/churn_risk_snapshot.py:19 | one space before a non-space becomes one `_` |
| SnakeCase.CollapseThreeWords | src/churn_risk_snapshot.py:19 | three words separated by single spaces become the words joined by `_` |
| SnakeCase.SnakeCaseChars | src/churn_risk_snapshot.py:15-20 | every character of a normalised name is a lower-case word character or `_`, so the name holds no whitespace |
| SnakeCase.SnakeCaseAlphabet | src/churn_risk_snapshot.py:15-20 | on ASCII input, a normalised name uses only `a`-`z`, `0`-`9` and `_` |
| SnakeCase.SnakeCaseIdempotent | src/churn_risk_snapshot.py:15-20 | normalising a normalised name changes nothing |
| SnakeCase.SnakeCaseBracketed | src/churn_risk_snapshot.py:15-20 | a header of the form `A B (X/Y)` normalises to `a_b_xy`, built from the lower-cased words |
| SnakeCase.ChurnHeader | src/churn_risk_snapshot.py:29 | the header "Churn Status (Yes/No)" normalises to the default churn column `churn_status_yesno` |
| ChurnSnapshot.StandardiseColumns | src/churn_risk_snapshot.py:23-26 | the rows are kept and every label is replaced by its normal form, position by position |
| ChurnSnapshot.StandardiseIdempotent | src/churn_risk_snapshot.py:23-26 | standardising keeps a table well formed and standardising twice equals standardising once |
| ChurnSnapshot.StandardiseAlphabet | src/churn_risk_snapshot.py:23-26 | ASCII labels become labels over `a`-`z`, `0`-`9` and `_` |
| ChurnSnapshot.StandardiseChurnHeader | src/churn_risk_snapshot.py:25 | a raw "Churn Status (Yes/No)" label becomes the default churn column |
| Frame.Column | src/churn_risk_snapshot.py:39 | `df[name]` reads one cell per row, at the label's position |
| Frame.SetColumn | src/churn_risk_snapshot.py:40 | `df[name] = cells`: the named column afterwards holds exactly `cells`, the labels gain `name` at the end only when it was absent, and every other cell is kept |
| Frame.SetColumnKeepsOthers | src/churn_risk_snapshot.py:39-40 | writing one column leaves every other column's cells unchanged |
| Frame.NatText | src/churn_risk_snapshot.py:39 | `astype(str)` of a natural number: one or more decimal digits, with a leading `0` exactly for zero |
| Frame.NatTextValue | src/churn_risk_snapshot.py:39 | reading the digits back gives the number, so the decimal text loses nothing |
| Frame.CellText | src/churn_risk_snapshot.py:39 | `astype(str)` of a cell: text is kept as it is; an integer becomes its decimal text, starting with `-` exactly when it is negative and made of digits otherwise |
| Frame.IntText | src/churn_risk_snapshot.py:39 | the text of an integer cell determines the integer: its sign from the `-`, its magnitude from the digits |
| ChurnSnapshot.ChurnValueSpec | src/churn_risk_snapshot.py:39 | a normalised churn value has no whitespace at either end and no upper-case letter, is never longer than the cell's text, and a text without whitespace is only lower-cased |
| ChurnSnapshot.PaymentValueSpec | src/churn_risk_snapshot.py:61 | a normalised payment status has no whitespace at either end and is never longer than the cell's text; text without whitespace, and the decimal text of an integer, is kept as it is |
| ChurnSnapshot.MapChurnFlag | src/churn_risk_snapshot.py:29-50 | a successful result is a well-formed table |
| ChurnSnapshot.MapChurnFlagMissing | src/churn_risk_snapshot.py:33-37 | `MissingColumn` is returned exactly when the churn column is absent; it names that column and lists the first 15 labels (all of them when there are fewer) |
| ChurnSnapshot.UnmappedSpec | src/churn_risk_snapshot.py:40-44 | the rows with no flag are exactly the rows whose value is neither `yes` nor `no`, each value with its full count; there are none exactly when every value maps |
| ChurnSnapshot.MapChurnFlagSucceeds | src/churn_risk_snapshot.py:39-49 | with the column present, the mapping succeeds exactly when every stripped, lower-cased churn value is `yes` or `no` |
| ChurnSnapshot.MapChurnFlagShape | src/churn_risk_snapshot.py:40-50 | on success the row count is unchanged, `churn_flag` is appended unless present, and the result has a single integer `churn_flag` column |
| ChurnSnapshot.MapChurnFlagFlags | src/churn_risk_snapshot.py:39-40 | on success `churn_flag` is 1 in the rows whose normalised value is `yes` and 0 in those whose value is `no` |
| ChurnSnapshot.MapChurnFlagKeeps | src/churn_risk_snapshot.py:39-40 | on success the churn column holds the stripped, lower-cased text and every other column is unchanged |
| ChurnSnapshot.MissingChurnColumnFirst | src/churn_risk_snapshot.py:33-37 | the missing churn column is reported whatever the other labels are, even with `churn_flag` duplicated |
| ChurnSnapshot.ValueCountsSpec | src/churn_risk_snapshot.py:44 | `value_counts` has one entry per distinct value, with that value's number of occurrences, and covers every value |
| ChurnSnapshot.SortedCountsSpec | src/churn_risk_snapshot.py:44 | the sorted counts are still exact, distinct and complete, and the counts never increase |
| ChurnSnapshot.MostFrequentSpec | src/churn_risk_snapshot.py:44 | `.head(n)` keeps at most `n` entries, at least one for non-empty input, each exact, distinct and in non-increasing count; a value left off is no more frequent than any listed one, and a list shorter than `n` is complete |
| ChurnSnapshot.UnmappedExamples | src/churn_risk_snapshot.py:43-48 | the error lists between 1 and 10 distinct unmappable values with their counts in the churn column, most frequent first; an unlisted bad value is no more frequent than any listed one |
| ChurnSnapshot.MapChurnFlagExamples | src/churn_risk_snapshot.py:43-48 | the same, stated for the `Unmappable` error `MapChurnFlag` returns on a table |
| ChurnSnapshot.MapChurnFlagOnFlagColumn | src/churn_risk_snapshot.py:40-44 | when the churn column is `churn_flag` itself, the failing cells hold no value after the mapping, so the example list is empty |
| ChurnSnapshot.ChurnByPayment | src/churn_risk_snapshot.py:53-75 | it fails exactly when the payment column is absent |
| ChurnSnapshot.ChurnByPaymentMissing | src/churn_risk_snapshot.py:54-58 | for every well-formed table without the payment column, whatever its flag column, the error names the payment column and lists the first 15 labels |
| ChurnSnapshot.SummariesRows | src/churn_risk_snapshot.py:61-72 | before sorting, every group row has users equal to its status's row count, churned equal to the sum of those rows' flags, and rate equal to churned over users |
| ChurnSnapshot.ChurnByPaymentRows | src/churn_risk_snapshot.py:61-73 | every output row has users equal to the number of rows with that stripped status (at least one), churned equal to the sum of those rows' flags, and rate equal to churned over users |
| ChurnSnapshot.SummariesDistinct | src/churn_risk_snapshot.py:63-71 | before sorting, the group statuses are distinct |
| ChurnSnapshot.SummariesFrom | src/churn_risk_snapshot.py:63-71 | every group status is a stripped payment value |
| ChurnSnapshot.SummariesTo | src/churn_risk_snapshot.py:63-71 | every stripped payment value has a group |
| ChurnSnapshot.ChurnByPaymentDistinct | src/churn_risk_snapshot.py:63-73 | the output statuses are distinct |
| ChurnSnapshot.ChurnByPaymentStatusesFrom | src/churn_risk_snapshot.py:61-73 | every output status is a stripped payment value of the input |
| ChurnSnapshot.ChurnByPaymentStatusesTo | src/churn_risk_snapshot.py:61-73 | every stripped payment value of the input has an output row |
| ChurnSnapshot.ChurnByPaymentTotals | src/churn_risk_snapshot.py:63-73 | the users add up to the number of input rows, the churned counts add up to the sum of all flags, and the rates are in non-increasing order |
| ChurnSnapshot.ChurnByPaymentBounds | src/churn_risk_snapshot.py:66-72 | with 0/1 flags, every row has `0 <= churned <= users` and a rate between 0 and 1 |
| ChurnSnapshot.DescribesBounds | src/churn_risk_snapshot.py:66-72 | a row counted from 0/1 flags has between none and all of its users churned |
| ChurnSnapshot.MapChurnFlagZeroOne | src/churn_risk_snapshot.py:40-50 | on success every `churn_flag` cell is `0` or `1` and the table is ready for the payment summary |
| ChurnSnapshot.MapChurnFlagBounds | src/churn_risk_snapshot.py:38-72 | the payment summary of the mapped table succeeds and every row has `0 <= churned <= users` and a churn rate between 0 and 1 |
| ChurnSnapshot.ExampleOrder | src/churn_risk_snapshot.py:53-75 | for any table whose payment values are `a, a, b` and flags `1, 0, 1`: two users of one status (one churned) and one churned user of another give the second status first, at rate 1, then the first at rate 1/2 |
| ChurnSnapshot.ExampleSummary | src/churn_risk_snapshot.py:53-75 | the same on a concrete table already holding `churn_flag` |
| ChurnSnapshot.RawAnswers | src/churn_risk_snapshot.py:39 | the raw answers ` YES`, `no` and `Yes` normalise to `yes`, `no`, `yes` |
| ChurnSnapshot.RawFlags | src/churn_risk_snapshot.py:38-50 | a churn column ` YES`, `no`, `Yes` maps successfully, to the flags 1, 0, 1 |
| ChurnSnapshot.ExampleRun | src/churn_risk_snapshot.py:38-75 | end to end from raw answers: `map_churn_flag` on ` YES`, `no`, `Yes` adds `churn_flag` 1, 0, 1 after the existing columns, and `churn_by_payment` then lists the `b` status (rate 1) before the `a` status (rate 1/2) |
| ChurnSnapshot.ConcreteRun | src/churn_risk_snapshot.py:102-108 | on the default column names with raw answers ` YES`, `no`, `Yes` and statuses `On-time`, `On-time`, `Delayed`, the run lists `Delayed` at rate 1 before `On-time` at rate 1/2 |
| ChurnSnapshot.RunReport | src/churn_risk_snapshot.py:90-108 | a missing data file gives `MissingFile` for that path |
| ChurnSnapshot.RunReportSteps | src/churn_risk_snapshot.py:99-108 | with the file present, the run reports a missing churn column, then any mapping failure, and otherwise returns the payment summary of the flagged, standardised table; it succeeds exactly when the payment column is present |
| ChurnSnapshot.RunReportBounds | src/churn_risk_snapshot.py:99-108 | every row of a successful run has `0 <= churned <= users` and a churn rate between 0 and 1 |
| Grouping.TallyLength | src/churn_risk_snapshot.py:64 | a row opens a new group exactly when its key has none |
| Grouping.TallyAt | src/churn_risk_snapshot.py:64-68 | a row bumps the size and sum of its own group and leaves the other groups alone |
| Grouping.TallyNew | src/churn_risk_snapshot.py:64-68 | a row with a new key opens a last group of size 1 holding its value |
| Grouping.TallySums | src/churn_risk_snapshot.py:66-67 | each row adds one to the total size and its value to the total sum |
| Grouping.TallyDistinct | src/churn_risk_snapshot.py:64 | group keys stay distinct |
| Grouping.TallyKeys | src/churn_risk_snapshot.py:64 | the keys after a row are the old keys plus the row's key |
| Grouping.TallyCounted | src/churn_risk_snapshot.py:66-67 | every group keeps the exact size and sum of its key's rows |
| Grouping.TallySummarises | src/churn_risk_snapshot.py:63-68 | adding one row keeps the groups the group-by of the input |
| Grouping.AggregateSummarises | src/churn_risk_snapshot.py:63-68 | the groups have distinct keys, one per distinct input key; each has the exact size (at least 1) and sum of its key's rows; sizes add up to the row count and sums to the sum of the values |
| Ordering.InsertSorted | src/churn_risk_snapshot.py:73 | inserting into a non-increasing sequence keeps it non-increasing |
| Ordering.InsertPermutes | src/churn_risk_snapshot.py:73 | insertion adds exactly one occurrence of the inserted element |
| Ordering.SortDescSpec | src/churn_risk_snapshot.py:73 | the sorted sequence is in non-increasing key order and is a permutation of its input |
| Ordering.SumOfSortDesc | src/churn_risk_snapshot.py:73 | sorting keeps every column total |
| Ordering.SortDescFrom | src/churn_risk_snapshot.py:73 | every sorted element comes from the input |
| Ordering.DistinctBySortDesc | src/churn_risk_snapshot.py:73 | sorting keeps labels distinct |
| Seqs.Count | src/churn_risk_snapshot.py:44 | an occurrence count is at most the length, and positive exactly when the value occurs |
| Seqs.SumWhere | src/churn_risk_snapshot.py:67 | a group's sum of 0/1 flags lies between 0 and the group's size, and is 0 for an absent key |
| Seqs.Head | src/churn_risk_snapshot.py:36 | `xs[:n]` is the prefix of length `min(n, len(xs))` |

## Left out

- `save_chart` (matplotlib), the creation of the output folder, `read_csv`, `to_csv` and the printed messages are I/O. Reading the CSV is not modelled: `RunReport` receives the parsed table, and whether the data file exists is a parameter.
- ChurnSnapshot.ChurnByPayment: the churn rate is the exact rational `churned / users`. The source computes a floating-point quotient rounded by `.round(3)`. Two groups whose exact rates differ but round to the same value may be ordered differently by the source.
- ChurnSnapshot.ChurnByPaymentTotals: only non-increasing order is promised. The order among groups with equal rates depends on pandas' sort algorithm and on the order of its input: pandas' `groupby` lists groups in sorted key order, `Grouping.Aggregate` in first-occurrence order. That order is left open.
- ChurnSnapshot.MostFrequentSpec: the order among values with equal counts is left open, as in pandas. The printed layout of the `value_counts` table in the error message is not modelled; the error carries the value/count pairs.
- ChurnSnapshot.MapChurnFlag: when the churn column is present, requires that it and `churn_flag` each occur at most once. With such a label duplicated, `df[name]` is a frame rather than a column and the source fails inside pandas; no behaviour is modelled for that case. When the churn column is absent nothing is required of the labels, since the `KeyError` comes first. `ChurnByPayment` requires the same of the payment column only when that column is present. `RunReport` requires both only on the paths that reach them (`ChurnSnapshot.ChecksLabels`): the churn and flag labels when the churn column is there, the payment label when the mapping succeeds.
- ChurnSnapshot.ChurnByPayment: when the payment column is present, requires a single integer `churn_flag` column, which is what `map_churn_flag` produces (when it is absent the `KeyError` comes first and nothing is required of the flag column). It also requires that the payment column is not `churn_flag` itself. The source would group by the stringified flags and aggregate over the same column; that corner case is not modelled.
- Missing cells: `astype(str)` turns a missing cell into the text `nan`. Cells here are always text or integers, so that conversion is not modelled.
- SnakeCase.ToSnakeCase: whitespace, `\w` and case are modelled for ASCII only. A non-ASCII character is treated as a word character that is not whitespace and has no case; Python's Unicode tables (non-ASCII spaces, letters with case mappings) are not modelled.
- ChurnSnapshot.MapChurnFlag: cell values are trimmed and lower-cased with the same ASCII-only `Strip` and `Lower` as the headers. A churn cell `Yes` followed by a no-break space (U+00A0) is `yes` to Python's `str.strip` and maps to 1 in the source, but the model keeps the space and reports it as `Unmappable`.
- ChurnSnapshot.ChurnByPayment: payment statuses are trimmed with the ASCII-only `Strip`. `On-time` and `On-time` followed by U+00A0 form one group in the source but two groups in the model.
- `to_snake_case` also receives non-string column labels in pandas (for example integers); labels here are strings.
- Exceptions become `Failure` values. Their message text is not modelled beyond the column name, the listed labels and the listed value counts.
