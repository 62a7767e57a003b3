# IRRProcessor in Dafny

This project models `IRRProcessor` from `src/processors/irr_processor.py`. That class measures how well two raters agree when each of them annotates text items with one or more labels. The model covers four parts of it:

- **Label parsing** (`_process_labels`). A rater's label string is lower-cased, split on the exact separator `", "`, and each piece is stripped (module `Text`).
- **Label-file parsing.** This is the expression inside `process_all_labels_file`: split on `","`, then lower-case and strip each piece (module `Text`).
- **The agreement table** (`_get_agreement_table`), in two steps:
  - The raters' (labels, item) rows are merged into `hash_map`, keyed by the raw item string.
  - The table is built with one row per key and one count column per available label. Every token of both raters adds one to its label's cell.
  - The specification is in module `Agreement`.
- **The coefficient** (`calculate_irr`). This is Krippendorff's alpha with nominal weights, in Gwet's multi-label formulation. It is computed over the table's counts through `rbar`, `p_primea`, `total_num_ratings`, `p_a`, the `PI_k`, `p_e` and `alpha`. It is modelled in exact rational arithmetic (`real`) in module `Coefficient`.

Module `Processor` holds the class `IrrProcessor`. Its state is the label columns, the configuration and `krip_alpha`:

- `GetAgreementTable` and `CalculateIrr` work step by step, as the Python does:
  - `hash_map` is filled in two loops.
  - The zero-filled table is a two-dimensional array whose cells are incremented in place.
  - The accumulators of `calculate_irr` are updated in loops.
- Each method is proved to compute exactly what the specification functions say.
- The properties of the table and of the coefficient are proved as lemmas about those functions.

Every failure in the Python is modelled as an error result, not as a precondition:

- **Table errors:**
  - the item column's name is also a label (`df.insert` refuses a duplicate column);
  - a token is not a label column (`df.at` lookup);
  - an item has no rater-2 entry (`users_labels[label_2]`).
- **Division errors:**
  - no items (`n == 0`);
  - no label assignments (`rbar == 0`);
  - an item with exactly one label assignment (`r_i - 1 == 0`);
  - `p_e == 1`.

`krip_alpha` is set only when a coefficient is returned.

Where a reader might expect otherwise, the model follows the code:

- **Item keys are not trimmed.** They are compared exactly as given (`Agreement.MergeKeys`).
- **`rbar` is the number of label assignments divided by `n`,** not a number of raters. So `n * rbar` is `total_num_ratings` (`Coefficient.PAWithTotal`).
- **An item annotated only by rater 1 makes the table build fail.** Only an item annotated only by rater 2 gets an empty rater-1 list (`Agreement.Rater1OnlyItemFails`). As a result, swapping the raters can change the outcome from a coefficient to a failure (`Processor.RaterOrderMatters`).
- **Agreeing with oneself gives a coefficient of 1 when every annotation names a single label** (`Processor.SelfAgreement`). The exception is when every item's last annotation names the same label: then `p_e` is 1 and there is no coefficient. Several labels per item can give something else: one item labelled "a, b" by both raters gives 0 (`Coefficient.TwoLabelsSelfAgreement`).

Files:

- `wrappers.dfy`: `Option` and `Result`.
- `text.dfy`: lower-casing, stripping, splitting and the two parsers.
- `sums.dfy`: sums of count rows.
- `agreement.dfy`: `hash_map` and the agreement table.
- `alpha.dfy`: the coefficient.
- `irr_processor.dfy`: the class and its methods.

## Model

| member | source | states |
|---|---|---|
| Text.ProcessLabels | src/processors/irr_processor.py:49-51 | The tokens number one more than the occurrences of `", "` in the raw string, so there is always at least one; every token is lower-case and has no leading or trailing whitespace |
| Text.ProcessLabelsSingle | src/processors/irr_processor.py:51 | A string without `", "` gives exactly one token: the whole string lower-cased and stripped |
| Text.ProcessLabelsEmpty | src/processors/irr_processor.py:51 | The empty label string gives the single empty token `[""]` |
| Text.ProcessLabelsComma | src/processors/irr_processor.py:51 | `"a,b"` is one token: only the two-character separator `", "` splits |
| Text.ProcessLabelsTwoLabels | src/processors/irr_processor.py:51 | `"a, b"` gives the tokens `"a"` and `"b"` |
| Text.Split | src/processors/irr_processor.py:51 | `str.split(sep)`: the pieces joined back with the separator give the original string, there is at least one piece, and no piece contains the separator |
| Text.SplitCount | src/processors/irr_processor.py:51 | For a separator that cannot overlap itself, the number of pieces is the number of occurrences plus one |
| Text.LowerOccurrences | src/processors/irr_processor.py:51 | Lower-casing before splitting on `", "` does not change how many separators are found |
| Text.Lower | src/processors/irr_processor.py:51 | `str.lower()` keeps the length and maps each character on its own |
| Text.LowerProperties | src/processors/irr_processor.py:51 | Lower-cased text has no upper-case letter, every other character is kept, and lower-casing twice changes nothing more |
| Text.Strip | src/processors/irr_processor.py:51 | `str.strip()` returns a stripped substring that starts right after the leading whitespace |
| Text.StripUnique | src/processors/irr_processor.py:51 | Any stripped slice that is bounded by whitespace on both sides is what `strip()` returns |
| Text.StripIdempotent | src/processors/irr_processor.py:51 | Stripping twice is the same as stripping once |
| Text.StripKeepsLowerCase | src/processors/irr_processor.py:51 | Stripping lower-case text leaves it lower-case |
| Text.ParseLabelsFile | src/processors/irr_processor.py:174 | The label file's text gives one label more than it has commas, and each label is lower-case and stripped |
| Agreement.MergeKeys | src/processors/irr_processor.py:77-99 | The keys of `hash_map` (the table's item column) are exactly the raw item strings of both raters, untrimmed, each once, in order of first appearance in rater 1's and then rater 2's rows |
| Agreement.MergeSlots | src/processors/irr_processor.py:80-91 | An item's rater-1 list is the parse of rater 1's last annotation of it, or empty when rater 1 never annotated it; its rater-2 entry is the parse of rater 2's last annotation, or absent |
| Agreement.AgreementTable | src/processors/irr_processor.py:77-108 | A built table has one row per key of `hash_map`, in key order, and every row is as wide as the label columns |
| Agreement.TableCells | src/processors/irr_processor.py:93-106 | The columns are the item column followed by the labels in order; the rows follow the keys; each cell is the number of times its label occurs in rater 1's tokens plus the number in rater 2's, duplicates included |
| Agreement.RowSumIsTokenCount | src/processors/irr_processor.py:101-106 | Each row of a built table sums to the length of rater 1's token list plus the length of rater 2's |
| Agreement.FirstUnknownSpec | src/processors/irr_processor.py:103-106 | No token is unknown exactly when every token is a label; a reported unknown token is one of the tokens and not a label |
| Agreement.RowCountsOk | src/processors/irr_processor.py:103-106 | One item's row is built exactly when it has a rater-2 entry and every token of both raters is a label |
| Agreement.BuildRowsOk | src/processors/irr_processor.py:101-106 | All rows are built exactly when each item's row is, and then row i is item i's counts |
| Agreement.AllRowsOk | src/processors/irr_processor.py:101-106 | The rows of `hash_map` are all built exactly when every item has a rater-2 entry and only label tokens |
| Agreement.TableFails | src/processors/irr_processor.py:97-106 | The build fails exactly when one of these holds: the item column's name is a label; some item has no rater-2 entry; some token of either rater is not a label |
| Agreement.Rater1OnlyItemFails | src/processors/irr_processor.py:87-105 | An item that rater 1 annotated and rater 2 did not makes the build fail |
| Coefficient.SingleRatingRow | src/processors/irr_processor.py:139-149 | The first item with exactly one label assignment (where `r_i - 1` is 0) is found exactly when there is one |
| Coefficient.PAWithTotal | src/processors/irr_processor.py:130-152 | `n * rbar` equals `total_num_ratings` T, so `p_a = p_primea * (1 - 1/T) + 1/T` |
| Coefficient.PAikSign | src/processors/irr_processor.py:149 | Each `p_aik` is non-negative, and it is 0 when `r_ik <= 1` |
| Coefficient.RowAgreementIsPairs | src/processors/irr_processor.py:142-150 | The sum of one item's `p_aik` is the item's ordered label-pair count divided by `rbar * (r_i - 1)` |
| Coefficient.PairsBound | src/processors/irr_processor.py:149 | An item's label pairs number at most `r_i * (r_i - 1)` |
| Coefficient.RowAgreementBound | src/processors/irr_processor.py:142-150 | One item's contribution to `p_primea` lies between 0 and `r_i / rbar` |
| Coefficient.AgreementBound | src/processors/irr_processor.py:139-150 | Before the division by n, `p_primea` lies between 0 and the label assignments so far divided by `rbar` |
| Coefficient.PPrimeABound | src/processors/irr_processor.py:137-152 | `p_primea` lies in [0, 1], and `p_a` lies in [1/T, 1] |
| Coefficient.ColumnsToTotal | src/processors/irr_processor.py:154-160 | Adding up all column sums gives the total number of label assignments |
| Coefficient.PiSumToColumns | src/processors/irr_processor.py:154-160 | The sum of the first PI_k is the sum of those columns divided by `total_num_ratings` |
| Coefficient.ChanceAgreement | src/processors/irr_processor.py:154-163 | Each `PI_k` is non-negative, the `PI_k` sum to 1, and `p_e` lies in (0, 1] |
| Coefficient.PeToSquares | src/processors/irr_processor.py:163 | `p_e` is the sum of the squared column sums divided by T squared |
| Coefficient.AlphaAtMostOne | src/processors/irr_processor.py:166 | Whenever the coefficient is defined, it is at most 1 |
| Coefficient.PeOne | src/processors/irr_processor.py:154-163 | `p_e` is 1 exactly when one label column holds every label assignment |
| Coefficient.SquaresEqual | src/processors/irr_processor.py:163 | The squared column sums add up to the square of their total exactly when the total is 0 or a single column holds all of it |
| Coefficient.PerfectAgreementAlpha | src/processors/irr_processor.py:137-166 | When each item has one label given by both raters: `p_primea = p_a = 1`, and the coefficient is 1 unless `p_e` is 1 |
| Coefficient.PerfectChance | src/processors/irr_processor.py:154-166 | With single matching labels, `p_e` is 1 exactly when every item got the same label |
| Coefficient.TwoLabelsSelfAgreement | src/processors/irr_processor.py:137-166 | One item labelled with the same two labels by both raters gives a coefficient of 0 |
| Processor.ColumnIndex | src/processors/irr_processor.py:104 | The column lookup of `df.at` finds a column exactly when the token is a label, and that column holds the token |
| Processor.IrrProcessor.constructor | src/processors/irr_processor.py:43-47 | The processor keeps the given label columns and configuration, and has no coefficient yet |
| Processor.IrrProcessor.GetAgreementTable | src/processors/irr_processor.py:53-108 | Returns exactly the table, or the failure, that `Agreement.AgreementTable` specifies |
| Processor.IrrProcessor.CalculateIrr | src/processors/irr_processor.py:125-169 | Returns exactly what `Irr` specifies (the table failure, the failing division, or the coefficient); `krip_alpha` becomes the returned coefficient and is otherwise unchanged |
| Processor.FillHashMap | src/processors/irr_processor.py:77-91 | The two loops leave `hash_map` equal to `Agreement.Merge` of the raters' rows |
| Processor.CountItems | src/processors/irr_processor.py:101-106 | Counting item after item into the zero-filled array yields the table rows `Agreement.BuildRows` specifies, or the first row's failure |
| Processor.CountRow | src/processors/irr_processor.py:101-106 | Counting one item fills its row with that item's counts, or fails as `Agreement.RowCounts` says; other rows are untouched |
| Processor.CountTokens | src/processors/irr_processor.py:103-106 | `df.at[row_idx, label] += 1` over a token list stops at the first unknown token; otherwise each label's cell grows by the token's count; other rows are untouched |
| Processor.ComputeAlpha | src/processors/irr_processor.py:128-169 | The arithmetic of `calculate_irr` returns exactly `Coefficient.Alpha` of the table's counts |
| Processor.RatingsSum | src/processors/irr_processor.py:130-134 | The loop for `rbar` adds up to the total number of label assignments |
| Processor.AgreementSum | src/processors/irr_processor.py:137-151 | The loop over the rows finds the first single-assignment item, if any; otherwise it yields `p_primea` before the division by n, and `total_num_ratings` |
| Processor.AddRowAgreement | src/processors/irr_processor.py:142-150 | The inner loop adds one item's `p_aik` to `p_primea` |
| Processor.Shares | src/processors/irr_processor.py:154-160 | `PI_ks` holds, for each label column in order, its column sum divided by `total_num_ratings` |
| Processor.SumOfSquares | src/processors/irr_processor.py:163 | `p_e` is the sum of the squares of the `PI_k` |
| Processor.SelfAgreement | src/processors/irr_processor.py:125-169 | Two identical annotation lists in which every annotation names a single label give a coefficient of 1. The only other outcome is the `p_e == 1` failure, which happens exactly when every item's last annotation gives the same tokens |
| Processor.RaterOrderMatters | src/processors/irr_processor.py:77-106 | Item x labelled "a" by both raters and item y labelled "a, b" by one rater: with y in rater 2's list, the coefficient is 0; with y in rater 1's list, the build fails on y's missing rater-2 entry |

## Left out

- `extract_rater_data` (CSV files found through `rglob` and read by pandas) is file I/O. The raters' rows are parameters.
- The file `open`/`read` of `process_all_labels_file` is file I/O. Only its split/lower/strip expression is modelled, by `Text.ParseLabelsFile`.
- The `__main__` block (paths and `print`) is a driver script.
- `RaterFolderMetadata` and `RawDataFileConfig` only serve the left-out file reading.
- pandas and numpy mechanics are not modelled:
  - how the DataFrame is constructed;
  - `replace(np.nan, 0)`;
  - the linear `row_idx` scan.
  The table is a two-dimensional array of counts in which row r belongs to the r-th key of `hash_map`. That is the row the scan finds, because the keys are distinct.
- Floating point (rounding, NaN and inf from numpy division) is not modelled. The arithmetic is exact `real` arithmetic, and each division by zero is an error result.
- Processor.IrrProcessor.CalculateIrr: when a division has a zero divisor, the model returns an error and leaves `krip_alpha` unchanged. The Python either raises `ZeroDivisionError` (for `n == 0`) or stores and returns NaN or inf.
- Processor.IrrProcessor.CalculateIrr: when several degenerate divisions occur at once, the model reports the first in the order no items, no ratings, a single-assignment item, `p_e == 1`. The Python has only NaN or inf to show for them.
- Processor.IrrProcessor.constructor: requires distinct label columns and two distinct rater keys. Two things are not modelled:
  - how pandas behaves with duplicate label columns;
  - two raters' lists that alias under one key.
- Agreement.RowCounts: a token equal to the item column's name is reported as an unknown label. In the Python, `+= 1` on the string cell raises a different error.
- Text.Lower, Text.Strip: `lower()` handles only ASCII letters and `strip()` only ASCII whitespace. Unicode case mapping and Unicode whitespace are not modelled.
