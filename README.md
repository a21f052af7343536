# World Happiness dashboard: loading, normalisation and validation

This project models the data layer of a small dashboard over the yearly
"World Happiness Report" CSV files (`utils/data_processing.py`) and proves
properties of it. It has three parts:

- **Validation** (`validate_rank_and_score`). A table is valid when it has a
  `Happiness Score` and a `Happiness Rank` column, neither column has a
  missing value, and for every ordered pair of distinct rows a higher score
  goes with a strictly smaller rank and a lower score with a strictly larger
  rank. Equal scores impose nothing.
- **Loading** (`load_data`, from the parsed file on). The columns are walked
  in the key order of a fixed alias map. Every alias present is renamed to its
  canonical name (`Country`, `Happiness Rank`, `Happiness Score`), and the
  frame is cut down to those names. When no rank column survives, the ranks
  1, 2, ..., n are inserted at column index 1. The validator then runs. A
  failed validation only raises a warning: the table is returned either way.
- **Merging** (`get_merged_df`). The tables of an inclusive range of years
  each get a leading `Year` column. They are then concatenated in ascending
  year order.

Files:

- `Wrappers.dfy`: `Option`, which stands for Python's `None`.
- `Frames.dfy`: the DataFrame as column labels plus rows of cells
  (`Null | Num(real) | Text(string)`). It also holds the pandas operations
  the code calls (`rename`, `df[names]`, `insert`, `df[label]`), and Python's
  `<` on numbers and on strings (code-point lexicographic), with its
  irreflexivity, asymmetry and totality.
- `Validation.dfy`: the validator, a method with the source's nested index
  loops and early returns. It is proved equal to the quantified predicate
  `RankAndScoreValid`.
- `Loading.dfy`: the alias map, the rename loop (`RenameAliases`), the
  specification `Normalize` of the whole transformation, and `LoadData`.
- `Merging.dfy`: the merge loop `GetMergedFrame` and the specification
  `MergedRows`.

The kept columns come in the alias map's key order, not the input's column
order. An input with `Score` before `Country or region` still yields
`Country` first.

`load_data` receives the result of `read_csv` as a parameter. It is `None`
when the read raised. `get_merged_df` receives the tables `load_data` gives
for each year as a function from year to frame.

## Model

| member | source | states |
|---|---|---|
| Validation.ValidateRankAndScore | utils/data_processing.py:63-102 | The nested loop with early returns computes exactly `RankAndScoreValid`. That means both columns are present, neither has a null, and every ordered pair i ≠ j satisfies "score_i > score_j ⇒ rank_i < rank_j" and "score_i < score_j ⇒ rank_i > rank_j". It returns false whenever either column is missing, and false whenever any score or rank is null. |
| Validation.UpperPairsSuffice | utils/data_processing.py:83-100 | Checking only the pairs with i < j gives the same verdict as checking every ordered pair, because the pair condition is symmetric. |
| Validation.EqualScoresNeverFail | utils/data_processing.py:94-100 | Two rows with equal scores satisfy the pair condition whatever their ranks. |
| Validation.SmallTablesValidate | utils/data_processing.py:83-102 | A table with at most one row, both columns and no nulls is valid. |
| Validation.SharedRankFails | utils/data_processing.py:94-100 | In a well-formed table, two rows with the same rank and different scores make the table invalid. |
| Validation.DecreasingScoresWithPositionalRanksValidate | utils/data_processing.py:83-102 | Strictly decreasing non-null scores, ranked 1, 2, ..., n, are consistent. |
| Loading.ColumnAliasesIsAliasMap | utils/data_processing.py:18-26 | The alias map's keys are distinct. No key is the target of an earlier rename, so a rename never creates or removes a label that a later entry tests. |
| Loading.KeyUntouchedBefore | utils/data_processing.py:33-37 | After the renames of entries 0..k-1, a label equals entry k's key exactly when the input label did. So the test `col in df.columns` on the partly renamed frame agrees with the input. |
| Loading.CanonicalNameOfKey | utils/data_processing.py:35-37 | After the whole loop, the label of a present key is that key's value in the map. |
| Loading.Present | utils/data_processing.py:33-34 | The alias entries whose key is an input label, listed in strictly increasing map order. Every such entry is listed. |
| Loading.Needed | utils/data_processing.py:33-39 | `needed_columns` holds, in the same order, the canonical name of each present entry. |
| Loading.RenameAliases | utils/data_processing.py:31-39 | The loop renames each input label to its canonical name. Cells are untouched. It yields `needed_columns` as `Needed` over the whole map. |
| Loading.NeededDistinct | utils/data_processing.py:34-41 | When no two present aliases share a canonical name, `needed_columns` has no repeated name. |
| Loading.Projected | utils/data_processing.py:41 | `df[needed_columns]` is well formed. Its labels are `needed_columns`, and its column c holds, row for row, the cells of the input column labelled by c's source key. |
| Loading.WithPositionalRank | utils/data_processing.py:43-44 | Inserting the rank gives `Happiness Rank` at index 1 holding 1..n. Every other column keeps its cells and order, shifted past index 1, and row count is unchanged. |
| Loading.Normalize | utils/data_processing.py:31-44 | On success the frame is well formed and keeps the row count. It has a `Happiness Rank` column, and its labels are all canonical names. |
| Loading.NormalizeColumns | utils/data_processing.py:33-44 | The output labels are `needed_columns`, with `Happiness Rank` inserted at index 1 exactly when no rank label survived. |
| Loading.NormalizeKeepsCells | utils/data_processing.py:34-44 | Each needed column appears at its output position with its canonical name. It holds the cells of the input column of its source key. |
| Loading.PositionalRank | utils/data_processing.py:43-44 | When no rank label survives, index 1 is `Happiness Rank` with values exactly 1..n in row order, and row count is unchanged. |
| Loading.NormalizeFails | utils/data_processing.py:36-44 | The model's failure cases are exactly two. Either two present aliases rename to the same label, or nothing survives the projection, so there is no column 0 to insert the rank after. They cover the source's exceptions (no column survives; a score collision; a rank collision with the score present and non-null), plus the other collisions, which the model refuses. |
| Loading.PositionalRankValidatesSortedScores | utils/data_processing.py:43-46 | When the rank was synthesised and the scores strictly decrease down the table, the validator accepts, so no warning is raised. |
| Loading.LoadData | utils/data_processing.py:28-59 | A failed read, and only the exception cases of `Normalize`, give no table. Otherwise the result is the normalised table, the same whether validation passes or not. The warning flag is the negation of the validator's verdict on that table. |
| Merging.GetMergedFrame | utils/data_processing.py:106-128 | The merged frame's labels are `Year` followed by the per-year labels. Its rows are `MergedRows`: each year's rows, led by the year, in ascending year order. Its length is the sum of the per-year row counts. |
| Merging.MergedLength | utils/data_processing.py:120-126 | The merged row count is the sum of the per-year row counts over first..last. |
| Merging.MergedSegment | utils/data_processing.py:120-126 | Row r of year y's table sits at offset (rows of years first..y-1) + r, led by y. Per-year order is therefore kept. |
| Merging.MergedLedByYear | utils/data_processing.py:120-124 | Every merged row's column 0 is a year in first..last. |
| Merging.MergedYearsAscending | utils/data_processing.py:120-126 | The years in column 0 never decrease down the merged table. |

## Left out

- The file read `pd.read_csv(f"data/{year}.csv")` (utils/data_processing.py:29) is I/O. Its result is a parameter, `None` when it raises.
- The `@st.cache_data` memoisation (line 5) has no visible semantics. It returns a copy per call, so the `insert` in `get_merged_df` cannot alias a cached frame.
- The Streamlit diagnostics (`st.error`, `st.columns`, `st.image`, lines 47 and 52-59) are UI side effects. The validation message is the `invalidWarning` flag. The failure notice is just the `LoadFailed` result.
- Floating point: scores and ranks are reals. NaN appears only as a missing cell, which is what `isnull` detects.
- Frames: only what the code observes of a pandas DataFrame is modelled: labels, rows and cells. The row index and dtypes, beyond "one kind per column", are not.
- Validation.ValidateRankAndScore: requires a well-formed frame, which is what `read_csv` and the loader produce: distinct labels, one value kind per column. With a duplicated label `df[label]` is a frame and the truth test raises. With numbers and text mixed in one column Python's `<` raises. Neither is modelled.
- Loading.LoadData: when two aliases of one canonical name are both present, pandas keeps two columns under one label, and the model returns `LoadFailed` in every such case. The source raises, and so returns `None`, only in some of them. With two score labels, `df[score_val]` is a frame whose truth test in the validator raises. With two rank labels the same happens only when the score column is present and has no null: otherwise the validator returns `False` first, because of the early return for a missing column and the short-circuit `or` in the null test. Then the table is returned with the warning. With two `Country` labels nothing raises and the table is returned.
- Loading.Normalize: insertion at index 1 into a frame with no columns is taken to raise, as `np.insert` does for an out-of-range position, and so it gives `None`.
- Merging.GetMergedFrame: requires a non-empty range, because `pd.concat([])` raises. It takes the loaded tables rather than calling the loader, so a year whose load failed (`None`, on which `insert` raises) is excluded by construction.
- Merging.GetMergedFrame: requires every year to have the same labels and no `Year` label. `pd.concat` aligns differing labels by an outer join, which is not modelled. `insert` raises on an existing `Year` label. The loader yields only canonical labels.
- `app.py` is the Streamlit widget script, with sorting, filtering and Plotly charts. It is not part of this model.
- `utils/file_helpers.py` formats CSV via `DataFrame.to_csv`, Base64 (section 4 of RFC 4648) and an HTML link. It is library calls and string formatting, and is not part of this model.
