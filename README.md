# Houston collision heat map — the query pipeline in Dafny

`heatmap_app_final.py` is a Dash app. It loads a table of Houston Fire
Department crash records and draws them on a map as one marker per
location. Under the UI sits a small query pipeline, and this project
models it and proves what it does:

- **Load.** Each record's "Contributing Factors" cell is split on `;` and
  every piece is stripped. The list is then normalised by
  `update_factors_list`, which folds three legacy labels into their
  current names and drops the duplicates this creates. The crash severity
  label gets an ordinal score from 0 to 4. Rows missing a latitude or a
  longitude are dropped.
- **Filter.** `update_graph` applies nine dropdown filters one after
  another: factor, month, day of week, hour, severity, first harmful event,
  light, weather and surface. A dropdown at `"All"` constrains nothing.
- **Aggregate.** The surviving rows are grouped by their exact
  coordinates. Each location gets its crash total and the concatenation of
  its rows' factor lists.
- **Rank and render.** Each location gets its three most frequent factors
  (`value_counts().head(3)`) and a hover text: the total, the metric line,
  and one line per top factor with an ordinal suffix, joined by `<br>`.

Files, one module each (seqs.dfy holds two):

- `seqs.dfy`:
  - `Wrappers`: `Option`.
  - `Seqs`: element sets, duplicate freedom, occurrence counts, the
    order-keeping row mask `Where`, subsequences, and `list(set(xs))` as
    `ListOfSet`.
- `text.dfy`, module `Text`: Python's `str.strip`, `str.split`, `str.join`
  and the decimal rendering of a non-negative integer.
- `factors.dfy`, module `Factors`: parsing the factor cell and
  `update_factors_list`.
- `records.dfy`, module `Records`: raw and cleaned records, the severity
  table, the coordinate drop and the load step.
- `filter.dfy`, module `Filter`: the dropdown selection and the nine-step
  filter chain.
- `aggregation.dfy`, module `Aggregation`: the `groupby` on coordinates.
- `ranking.dfy`, module `Ranking`: `value_counts().head(3)`.
- `hover.dfy`, module `Hover`: the hover text.
- `dashboard.dfy`, module `Dashboard`: one run of the `update_graph`
  callback, composed from the above.

Coordinates are integers in units of 1e-4 degree, the precision the app
rounds to. A missing cell is `None`.

Two operations of the source change state step by step, and the model
keeps that form:

- `update_factors_list` is a `for` loop with `continue`: the method
  `Factors.UpdateFactorsList`.
- The filter chain reassigns `filtered_data` nine times:
  `Filter.FilterRecords`, a call to `Filter.FilterStep` per dropdown.

Each is proved against a specification function:

- `Factors.CanonicalSet`: every input label under its current name.
- `Filter.Select`: a single mask with the conjunction of all nine
  constraints.

The remaining operations are expressions in the source and are functions
here. Each has a reference definition or an invariant proved beside it:

- `Aggregation.GroupBy` against `Aggregation.Members`, which masks by key.
- `Ranking.TopFactors` against `Ranking.IsTopFactors`, which says what any
  correct top three must satisfy.
- `Text.Split` against `Text.Join`, each the inverse of the other.

## Model

| member | source | states |
|---|---|---|
| Text.Strip | heatmap_app_final.py:50 | `strip()` returns a core that neither starts nor ends with whitespace. In the input, that core is preceded and followed only by whitespace. |
| Text.StripUnique | heatmap_app_final.py:50 | `strip()` is characterised without reference to how it scans. Whitespace, then a core that neither starts nor ends with whitespace, then whitespace, strips to exactly that core. Whitespace is Python's `isspace` set. |
| Text.StripIdempotent | heatmap_app_final.py:50 | Stripping an already stripped piece changes nothing. |
| Text.Split | heatmap_app_final.py:49 | `split(";")` yields one more piece than the text has separators, and no piece contains the separator. |
| Text.Join | heatmap_app_final.py:458 | `sep.join(parts)` starts with the first piece, and its length is the pieces' lengths plus one separator per gap between two pieces. Text.JoinSplit and Text.SplitJoin show it is the inverse of `split`. |
| Text.JoinSplit | heatmap_app_final.py:49 | Joining the pieces of a split with the separator gives back the original text. |
| Text.SplitJoin | heatmap_app_final.py:49 | Splitting the join of one or more separator-free pieces gives back those pieces. |
| Text.NatToString | heatmap_app_final.py:457 | An integer in an f-string is a non-empty run of decimal digits with no leading zero. |
| Text.NatToStringValue | heatmap_app_final.py:457 | Reading the rendered digits back gives the number, so the rendering loses nothing. |
| Factors.ParseFactors | heatmap_app_final.py:47-51 | The parsed cell has one label per `;` plus one. No label contains `;`, and every label is already stripped. Factors.ParseJoin pins down the contents. |
| Factors.ParseJoin | heatmap_app_final.py:47-51 | A cell written as `;`-separated pieces parses to exactly those pieces, each stripped, in their order. |
| Factors.TargetsAreCurrent | heatmap_app_final.py:56-60 | No replacement target is itself a legacy label, so one substitution is final. |
| Factors.Substitute | heatmap_app_final.py:67-74 | A label's current name is never a legacy label. |
| Factors.RewrittenMembers | heatmap_app_final.py:63-75 | Before deduplication, the loop's list has at most one label per input label and holds no legacy label. It holds only current names of input labels. It holds every non-legacy input label, and the target of every legacy label whose target is absent from the input. |
| Factors.RewrittenCanonical | heatmap_app_final.py:63-75 | Before deduplication, the loop's list holds exactly the current names of the input labels. |
| Factors.TargetOccurrences | heatmap_app_final.py:67-75 | A current label that occurs among the inputs is appended once per occurrence; its legacy names add nothing. One that does not occur is appended once per legacy name among the inputs. |
| Factors.UpdateFactorsList | heatmap_app_final.py:54-80 | The result has no duplicates, holds no legacy label, and is no longer than the input. Its label set is exactly the current names of the input labels. A non-empty input gives a non-empty result. |
| Factors.NormalizeIdempotent | heatmap_app_final.py:54-80 | Normalising a normalised list again yields the same label set. |
| Seqs.ListOfSet | heatmap_app_final.py:78 | `list(set(xs))` has no duplicates and the same elements as `xs`, in an order left open. |
| Records.SeverityScore | heatmap_app_final.py:90-100 | A label has a score exactly when it is one of the six labels in the table. A score lies in 0..4. Any other label maps to a missing value. |
| Records.Clean | heatmap_app_final.py:47-100 | A cleaned row keeps its coordinates, so it is located exactly when its raw row is. Its score lies in 0..4, and it is 4 exactly for "K - FATAL INJURY". |
| Records.SeverityCollisions | heatmap_app_final.py:90-97 | Two distinct labels share a score exactly when they are "N - NOT INJURED" and "99 - UNKNOWN", and both of those score 0. |
| Records.FatalIsWorst | heatmap_app_final.py:95 | The top score 4 belongs to "K - FATAL INJURY" alone. |
| Records.DropMissingCoordinates | heatmap_app_final.py:102 | After the drop, every row has both coordinates, and every row that had both is kept. |
| Records.DropKeepsLocatedRows | heatmap_app_final.py:102 | The drop keeps row order and keeps every copy of a located row. |
| Records.LoadRecords | heatmap_app_final.py:47-102 | The i-th loaded record is the i-th raw row that has both coordinates, cleaned as follows. Its columns are copied, its severity is scored, and its factor list is the duplicate-free normalisation of its parsed cell. |
| Records.LoadedFactorsNonEmpty | heatmap_app_final.py:47-80 | Every loaded record has at least one factor label. |
| Filter.Select | heatmap_app_final.py:364-406 | The reference filter keeps exactly the rows that meet every constraint not at "All". |
| Filter.ChainSelects | heatmap_app_final.py:364-406 | After the first n conditional masks, the rows left are exactly those meeting the first n constraints. |
| Filter.FilterStep | heatmap_app_final.py:367-406 | One dropdown block masks when its dropdown is set and passes the rows through when it is at "All". |
| Filter.FilterRecords | heatmap_app_final.py:364-406 | The nine masks applied in order give the single conjunctive selection. |
| Filter.Narrow | heatmap_app_final.py:364-406 | One more mask on a selection is the selection with one more constraint. |
| Filter.SelectUnconstrained | heatmap_app_final.py:364-406 | With every dropdown at "All", the output equals the input. |
| Filter.SelectKeepsMatchingRows | heatmap_app_final.py:364-406 | The filter only removes rows. The output is a subsequence of the input holding every copy of each matching row and no other row. |
| Filter.SelectNothing | heatmap_app_final.py:364-406 | A selection that no row meets yields an empty result, not an error. |
| Aggregation.FactorsOf | heatmap_app_final.py:417 | The labels of `sum(x, [])` are exactly the labels of its rows, and it is exactly as long as the rows' lists together. |
| Aggregation.GroupBy | heatmap_app_final.py:409-421 | No group has a crash total of 0. |
| Aggregation.GroupByCells | heatmap_app_final.py:409-421 | There is one cell per distinct coordinate among the rows and no other. Each cell's total is the number of rows at that coordinate, and its factor list is their lists concatenated in row order. |
| Aggregation.TotalCrashesRemove | heatmap_app_final.py:411 | The sum of the group totals may start from any group. |
| Aggregation.CrashesConserved | heatmap_app_final.py:409-421 | The group totals add up to the number of rows with coordinates. |
| Aggregation.FactorOccurrencesCountCrashes | heatmap_app_final.py:415-418 | When no row repeats a label, a label occurs in the concatenated list once per crash citing it. |
| Ranking.Distinct | heatmap_app_final.py:425 | The distinct labels of a list, each exactly once. |
| Ranking.Tally | heatmap_app_final.py:425 | `value_counts()` has one entry per distinct label, and each count is that label's number of occurrences. |
| Ranking.ArgMax | heatmap_app_final.py:425 | The chosen entry has a largest count, and no earlier entry has the same count. |
| Ranking.TopFactors | heatmap_app_final.py:424-426 | `value_counts().head(3)` keeps min(3, number of distinct labels) labels, each with its exact count, most frequent first. No label left out occurs more often than any label kept (the predicate Ranking.IsTopFactors). |
| Ranking.TopNCorrect | heatmap_app_final.py:425 | Choosing by repeated maximum gives min(n, size) entries from the input with distinct labels and non-increasing counts. No entry left out has a larger count than any entry kept. |
| Ranking.SingleFactor | heatmap_app_final.py:424-426 | A group whose list repeats one label reports that label with its full count. |
| Hover.SuffixIsEnglish | heatmap_app_final.py:458-468 | The suffix rule of Hover.Suffix gives "st", "nd" and "rd" to positions 0, 1 and 2, and "th" to later ones. This agrees with English ordinals for the first twenty positions. |
| Hover.SuffixDivergesAtTwentyFirst | heatmap_app_final.py:458-468 | Position 20 would read "21th": the rule and English part ways there. |
| Hover.FactorLineReads | heatmap_app_final.py:458-468 | A factor line (Hover.FactorLine) can be read back. The numeral at its start reads back as the 1-based position, followed by that position's English ordinal suffix. The label and the count, which also reads back, each sit at a fixed place. |
| Hover.HoverReads | heatmap_app_final.py:439-458 | The hover text (Hover.HoverText) starts with "Total Crashes: " and a numeral that reads back as the total, then a break. The metric label ("Average Impact" for `avg_impact`, otherwise "Average Total Duration") follows with ": ", then the value and another break. The factor lines joined by breaks come last. |
| Hover.HoverLineCount | heatmap_app_final.py:456-469 | When no label or metric text contains "<", the text holds two `<br>` after the header plus one between each pair of factor lines. So with at least one top factor it has one `<br>` fewer than it has lines. With no top factor, the header still ends in a trailing `<br>`. |
| Hover.SingleCrashText | heatmap_app_final.py:456-469 | A location with one crash and one factor shows its header and one factor line. |
| Dashboard.MarkerOf | heatmap_app_final.py:424-469 | A location's marker is sized by the cell's crash total and shows a correct top three of the cell's factor list. Its hover text is built from that same total and top three. |
| Dashboard.UpdateGraph | heatmap_app_final.py:352-469 | One callback run, as intended, puts a marker exactly at each location of a crash that matches the dropdowns. The marker's size is the number of such crashes there. Its factors are a correct top three of their concatenated factor lists, and its hover text is built from both. When nothing matches, there is no marker. |
| Dashboard.UpdateGraphAsWritten | heatmap_app_final.py:353-471 | The callback as written fails exactly when no matching crash has coordinates: the row-wise `apply` on the empty aggregated frame cannot be stored in the single `hover_text` column. Otherwise it shows what Dashboard.UpdateGraph shows. |
| Dashboard.MarkersCountMatches | heatmap_app_final.py:364-421 | On loaded data, the crash totals of the groups formed from the filtered rows add up to the number of crashes the filters keep. Dashboard.UpdateGraph sizes each marker by its group's total. |
| Dashboard.TopCountsAreCrashCounts | heatmap_app_final.py:415-426 | On loaded data, the count beside a top factor is the number of crashes at that location citing it. |
| Dashboard.NoMatchNoMarkers | heatmap_app_final.py:364-421 | When no crash matches, the aggregation is empty, so the intended callback has no marker to draw. The source as written fails at that point instead (see Findings). |
| Dashboard.NoMatchFailsAsWritten | heatmap_app_final.py:364-471 | A selection that no crash meets leaves no located matching crash, so the callback as written fails on it. |

## Left out

- Reading the CSV from S3, `load_dotenv` and the credentials (lines 12-45): network I/O. The model starts from a sequence of raw rows.
- The Dash layout, the callback wiring and `app.run_server`: UI plumbing. The dropdown values arrive as a `Filter.Selection`.
- `px.scatter_mapbox`, the colour scales and the figure layout: a foreign plotting library and its configuration.
- Floating-point numerics:
  - min-max scaling and the percentile rank (lines 106-114);
  - rounding of the coordinates to four decimals (lines 117-118), since coordinates are taken already in 1e-4 units;
  - the `avg_impact` and `avg_total_duration` means with their division by 60 (lines 413-414);
  - the `"{:.2f}"` formatting (lines 440, 453).
- Hover.HoverText: takes the formatted metric value as a string parameter instead of computing the mean.
- Dashboard.UpdateGraph: takes that value per location as a function parameter.
- Aggregation.GroupBy: returns a map from coordinates to cells, so the sorted row order of the aggregated frame is not modelled.
- Ranking.TopFactors: breaks ties between equal counts by first appearance. The pandas tie order is implementation-defined, so the contract `Ranking.IsTopFactors` admits every tie order, and `Dashboard.UpdateGraph` promises only that.
- Seqs.ListOfSet: picks elements in an unspecified order, as Python's `set` iteration order is not fixed.
- A missing (NaN) "Contributing Factors" cell: `str.split` on it yields NaN rather than a list. The list comprehension of line 50 then iterates over that float and raises `TypeError`, so the source fails while loading. The model takes every cell as a string and has no such failure.
- The month and hour dropdowns compare integers. Every other dropdown compares strings against the `"All"` sentinel, as the source does.

## Findings

| source | as written | input that shows it | evidently intended | confidence | as-written member | corrected member |
|---|---|---|---|---|---|---|
| heatmap_app_final.py:456-471 | The hover texts come from `aggregated_data.apply(..., axis=1)`. On an empty aggregated frame, pandas probes the lambda with a placeholder row, and the lambda fails there (`hover_text_value[row.name]`). So `apply` returns a copy of the whole frame, and assigning that multi-column frame to the single column `hover_text` raises `ValueError`. | Dropdowns that no located crash meets, such as severity "K - FATAL INJURY" on data without a fatal crash. | An empty map: no marker, no error. | medium; not executed, follows pandas' empty-frame rule for `apply` | Dashboard.UpdateGraphAsWritten | Dashboard.UpdateGraph |
