# TNDailySales refresh: a verified model

`refresh_and_export.py` is a one-shot pandas script. It loads a daily sales table, normalises the column names, cleans and deduplicates the rows, and adds a `Month` label. It then computes the data behind four charts and an interactive month-filtered dashboard. This project models that logic in Dafny and proves what the script promises about its result.

The model follows the script's stages, one module each:

- `Headers` covers lines 35-60. It trims each header and deletes BOM and non-breaking-space characters. It then computes the lookup key (lower case, spaces and underscores removed) and renames through the 8-entry `rename_map`. The loop that fills `clean_cols` is a method.
- `Cleaning` covers lines 66-93:
  - the backfill of the six required columns, as a method with a loop;
  - the date and weight coercions, with pandas' parsers taken as parameters;
  - the `astype(str).str.strip()` of the four text columns;
  - the three row filters, `drop_duplicates` and the `Month` label.
  
  The method `Clean` runs these steps in the script's order.
- `Aggregation` covers lines 102-148: `total_sales`, `groupby(...).sum()` (keys distinct and ascending), the channel chart's `sort_values(ascending=False)`, the month list and `reindex`, and the sales-category and product charts.
- `Dashboard` covers lines 155-244: `filter_month`, the four initial traces, and the loop that builds one dropdown button per month.
- `Pipeline` joins these from the raw table to the dashboard data.

The other modules are helpers:

- `Text` holds Python's `str.strip` whitespace set, ASCII `lower`, removal of a character, and Python's string order.
- `Seqs` holds filtering, subsequences, `drop_duplicates` (keep first) and occurrence counts.
- `Wrappers` holds `Option`.

Some of what the code does is easy to miss when reading it:

- **Header normalisation is not idempotent.** The code strips whitespace before it deletes the BOM (lines 37-38). A header `"\ufeff Foo"` therefore becomes `" Foo"` on the first pass and `"Foo"` on the second. `Headers.NotIdempotentWithBom` proves this for every such header. `Headers.NormalizeIdempotent` says exactly when a second pass changes nothing.
- **Missing text becomes `"nan"`.** `astype(str)` runs before `fillna("")` at line 81, so a missing text field becomes `"nan"`, not `""`. Such a row survives the non-empty filters at lines 85-86 (`Cleaning.MissingProductKept`).
- **Weights keep their sign.** `to_numeric(...).fillna(0)` at line 76 keeps a negative parsed value as it is; only a missing or unparseable weight becomes 0.
- **Filtered panels pair keys with other keys' sums.** At lines 178-179 and in the buttons, `x` is the key-ordered index while `y` is sorted by value. A bar therefore shows its own key's sum only when the key order is already highest first (`Dashboard.PanelAlignedIff`).
- **The product chart is not ranked.** Its title is "Products Ranked by Sales Weight", but lines 142-147 plot the groupby in key order without sorting by weight (`Aggregation.ProductChartSpec`).
- **An empty cleaned table fails.** Line 173 indexes `unique_months[0]`, which does not exist when no row survives cleaning, so the model requires a non-empty cleaned table there.

## Model

| member | source | states |
|---|---|---|
| Headers.CleanHeader | refresh_and_export.py:35-40 | the cleaned header holds no BOM or non-breaking space, is no longer than the raw one, and is the raw header itself when that was already stripped and free of both |
| Headers.Key | refresh_and_export.py:57 | the lookup key holds no space and no underscore and is no longer than the header |
| Headers.KeyIgnoresSeparator | refresh_and_export.py:57 | inserting a space or an underscore anywhere does not change a header's key |
| Headers.KeyIgnoresCase | refresh_and_export.py:57 | lower-casing a header first does not change its key |
| Headers.CanonicalNames | refresh_and_export.py:44-53 | every canonical name's key is its own map key, every canonical name is already clean, and no two keys share a canonical name |
| Headers.NormalizesTo | refresh_and_export.py:55-60 | a header becomes canonical name `c` exactly when its cleaned key equals `c`'s key |
| Headers.UnknownKept | refresh_and_export.py:58 | a header whose key is not in the map keeps its cleaned spelling, which is not a canonical name |
| Headers.NormalizeIdempotent | refresh_and_export.py:35-60 | `normalize_header` applied twice gives the same result exactly when the first pass produced a canonical name or cleaning left a stripped name |
| Headers.SecondPassChanges | refresh_and_export.py:37-39 | a header that stays unmapped and still has whitespace at an end after one pass is changed by a second |
| Headers.CleanPadded | refresh_and_export.py:37-39 | surrounding whitespace, and a BOM directly before the text, are removed leaving exactly the text |
| Headers.NotIdempotentWithBom | refresh_and_export.py:37-38 | for every clean unmapped `x`, header BOM+space+`x` normalises to space+`x` and a second pass gives `x`, so normalisation is not idempotent |
| Headers.BuildCleanCols | refresh_and_export.py:55-58 | the `clean_cols` map has exactly the cleaned headers as keys, each mapped to its renamed form |
| Headers.NormalizeColumns | refresh_and_export.py:35-60 | each column name is replaced by its normalised name, position by position |
| Text.StripProperties | refresh_and_export.py:37 | strip never lengthens, leaves a stripped string unchanged, and yields "" exactly for all-whitespace strings |
| Text.StripPadded | refresh_and_export.py:81 | strip removes exactly the surrounding whitespace of a non-empty stripped text |
| Text.StripShortens | refresh_and_export.py:37 | strip makes a string with whitespace at an end strictly shorter |
| Text.DigitsValue | refresh_and_export.py:92 | a number below 10^n written in n zero-padded digits reads back as that number |
| Text.Remove | refresh_and_export.py:38-39 | removing a character deletes every copy of it and keeps every other character |
| Cleaning.AddColumn | refresh_and_export.py:70 | a backfilled column is appended last and is missing in every row |
| Cleaning.BackfillProperties | refresh_and_export.py:68-70 | backfill only appends columns, all missing, keeps existing columns and cells, and adds exactly the absent visited names, once each |
| Cleaning.Backfill | refresh_and_export.py:68-70 | the loop's table is the backfilled table for all six required names |
| Cleaning.BackfillReady | refresh_and_export.py:66-70 | after backfill every required column occurs exactly once and every original column is still present |
| Cleaning.CoerceDate | refresh_and_export.py:73 | a missing date is NaT, a present one is what the column-aware parser returns |
| Cleaning.CoerceWeight | refresh_and_export.py:76 | a parseable weight is kept as parsed (negatives included); a missing or unparseable one becomes 0 |
| Cleaning.CoerceText | refresh_and_export.py:81 | the result is stripped; a missing value becomes "nan" and a present value becomes its stripped text; the result is "" exactly for a present all-whitespace value |
| Cleaning.CoercedRow | refresh_and_export.py:73-81 | coerced row `i` comes from input row `i` alone: each text field is the coerced text of its own cell, the date and weight are the coercions of their own cells, the other columns are carried over; the text fields are stripped and an empty product or channel came from a present cell |
| Cleaning.FilteredProperties | refresh_and_export.py:84-86 | the filters keep exactly the rows with a date, a product and a channel, as a subsequence |
| Cleaning.FilteredAll | refresh_and_export.py:84-86 | the filters drop nothing exactly when every row is valid, and then change nothing |
| Cleaning.KeptProperties | refresh_and_export.py:84-89 | after dedup the rows are exactly the valid ones, pairwise distinct, a subsequence of the input, so no more rows than the input |
| Cleaning.KeptAll | refresh_and_export.py:84-89 | the row count is unchanged exactly when every row is valid and no two rows are equal |
| Cleaning.MonthLabel | refresh_and_export.py:92 | the month label is seven characters: four digits that read as the year, a dash, and two digits that read as the month |
| Cleaning.MonthLabelInjective | refresh_and_export.py:92 | two dates have the same label exactly when they share year and month |
| Cleaning.MonthLabelOrder | refresh_and_export.py:92 | label order is chronological order of year and month |
| Cleaning.DeriveAll | refresh_and_export.py:92-93 | each derived sale keeps its row and carries the month label of its date |
| Cleaning.Clean | refresh_and_export.py:66-93 | the stepwise pipeline yields the cleaned table |
| Cleaning.CleanedPostcondition | refresh_and_export.py:80-93 | no more rows than the input; each has a date and its month label, a stripped non-empty product and channel, and stripped categories |
| Cleaning.CleanedRows | refresh_and_export.py:84-89 | the cleaned rows are exactly the valid coerced rows, pairwise distinct, in their original order |
| Cleaning.CleanedRowOrigin | refresh_and_export.py:73-89 | every row of the cleaned table is valid and is the coercion of some row of the backfilled input |
| Cleaning.KeptOrigin | refresh_and_export.py:84-89 | every row kept after filtering and dedup is valid and is the coercion of some input row |
| Cleaning.MissingProductKept | refresh_and_export.py:81-86 | a row with a missing product name gets "nan" and survives cleaning |
| Seqs.Filter | refresh_and_export.py:84-86 | a boolean mask keeps exactly the elements that satisfy it, as a subsequence of the input, and drops nothing exactly when all satisfy it |
| Seqs.FilterCount | refresh_and_export.py:84-86 | a boolean mask keeps every copy of a satisfying element and no copy of any other |
| Seqs.DedupMembers | refresh_and_export.py:89 | dedup keeps exactly the elements of the input |
| Seqs.DedupDistinct | refresh_and_export.py:89 | dedup keeps no element twice |
| Seqs.DedupFirstOccurrence | refresh_and_export.py:89 | kept elements appear in the order of their first occurrences |
| Seqs.DedupKeepsAll | refresh_and_export.py:89 | dedup removes nothing exactly when the input has no duplicates, and then returns it unchanged |
| Aggregation.GroupSumSpec | refresh_and_export.py:108 | grouped keys are strictly ascending, are exactly the keys present, and each key's value is the summed weight of its rows |
| Aggregation.GroupSumValues | refresh_and_export.py:132 | each group carries the summed weight of its own key |
| Aggregation.GroupSumTotal | refresh_and_export.py:102 | the groups' sums add up to `total_sales` |
| Aggregation.AddToSorted | refresh_and_export.py:143 | adding a row's weight to a key-ordered series keeps it key-ordered |
| Aggregation.AddToValueAt | refresh_and_export.py:143 | adding weight under one key changes that key's value by the weight and no other |
| Aggregation.SortDescSpec | refresh_and_export.py:108 | `sort_values(ascending=False)` yields values highest first, a permutation of the series |
| Aggregation.SortDescKeepsDescending | refresh_and_export.py:108 | a series already highest first is left unchanged |
| Aggregation.SortDescValues | refresh_and_export.py:179 | the sorted values are the same multiset of values |
| Aggregation.SortDescTotal | refresh_and_export.py:108 | re-sorting by value does not change the sum |
| Aggregation.SortAscSpec | refresh_and_export.py:118 | `sorted` yields a nondecreasing permutation with the same elements, distinct when the input was |
| Aggregation.UniqueMonthsSpec | refresh_and_export.py:155 | the month list is strictly ascending and holds exactly the months present |
| Aggregation.UniqueMonthsAreGroupKeys | refresh_and_export.py:118-120 | the month list equals the index of the month groupby |
| Aggregation.Reindex | refresh_and_export.py:120 | `reindex` has one entry per requested key; the entry is defined exactly for keys present, and then it is that key's value |
| Aggregation.ReindexByOwnKeys | refresh_and_export.py:120 | reindexing a series by its own index yields every value, defined |
| Aggregation.ChannelChartSpec | refresh_and_export.py:107-111 | one bar per channel present, each with that channel's summed weight, highest first |
| Aggregation.ChannelChartTotal | refresh_and_export.py:102-108 | the channel bars add up to `total_sales` |
| Aggregation.MonthChartSpec | refresh_and_export.py:118-125 | the trend has every month in order with that month's summed weight |
| Aggregation.MonthChart | refresh_and_export.py:118-125 | the monthly trend has one point per month of the month list |
| Aggregation.SalesCategoryChartSpec | refresh_and_export.py:131-136 | one bar per sales category present, keys ascending, each with that category's summed weight, adding up to `total_sales` |
| Aggregation.ProductChartSpec | refresh_and_export.py:142-147 | one bar per product present, keys ascending and so not ranked by weight, each with that product's summed weight, adding up to `total_sales` |
| Aggregation.ChartInKeyOrder | refresh_and_export.py:131-147 | a groupby sum plotted in its own order has ascending keys, exactly the keys present, each key's summed weight, and total `total_sales` |
| Dashboard.FilterMonthSpec | refresh_and_export.py:169-170 | `filter_month(m)` keeps every copy of each row of month `m`, and nothing for a month not in the list |
| Dashboard.FilterMonth | refresh_and_export.py:169-170 | the filtered rows are exactly the rows of month `m`, as a subsequence of the table |
| Dashboard.PanelSpec | refresh_and_export.py:176-205 | a filtered panel's x is strictly ascending and exactly the keys present, y is highest first and the same multiset of group sums, and both have one entry per group |
| Dashboard.PanelLengths | refresh_and_export.py:176-205 | a filtered panel has one x entry and one y entry per group |
| Dashboard.PanelAlignedIff | refresh_and_export.py:178-179 | each bar shows its own key's sum exactly when the key-ordered sums are already highest first |
| Dashboard.TrendTraceSpec | refresh_and_export.py:208-215 | the trend trace has every month ascending with that month's summed weight over the whole table |
| Dashboard.ButtonSpec | refresh_and_export.py:223-242 | a button is labelled with its month and has four x and four y lists of equal lengths; lists 1-3 are the month's channel, sales-category and product panels, and list 4 is the whole table's month list and monthly sums |
| Dashboard.BuildButtons | refresh_and_export.py:219-244 | one button per month of the month list, in its order, each built from that month's rows |
| Dashboard.ButtonLabels | refresh_and_export.py:219-225 | the buttons' labels are exactly the months present, strictly ascending |
| Dashboard.BuildDashboard | refresh_and_export.py:155-244 | the month list is not empty; the initial traces are the first month's and carry exactly the first button's data, panel by panel; one button per month |
| Dashboard.TracesMatchButton | refresh_and_export.py:173-242 | the four traces drawn for a month carry the same x and y data as that month's button |
| Pipeline.Refresh | refresh_and_export.py:35-244 | from the raw table the script produces the cleaned rows, `total_sales`, the four chart series, the initial traces and the buttons |

Functions that only compute are covered by the lemmas about them:

- `Headers.Normalize` (lines 35-60): `Headers.NormalizesTo`, `Headers.UnknownKept`, `Headers.NormalizeIdempotent`.
- `Cleaning.CleanedSales` (lines 66-93): `Cleaning.CleanedPostcondition`, `Cleaning.CleanedRows`, `Cleaning.CleanedRowOrigin`.
- `Seqs.Dedup` (line 89): `Seqs.DedupMembers`, `Seqs.DedupDistinct`, `Seqs.DedupFirstOccurrence`, `Seqs.DedupKeepsAll`.
- `Aggregation.TotalWeight` (line 102): `Aggregation.GroupSumTotal`, `Aggregation.ChannelChartTotal`.
- `Aggregation.GroupSum` (lines 108, 120, 132, 143): `Aggregation.GroupSumSpec`, `Aggregation.GroupSumValues`.
- `Aggregation.ChannelChart` (lines 107-108): `Aggregation.ChannelChartSpec`, `Aggregation.ChannelChartTotal`.
- `Aggregation.MonthChart` (lines 118-125): `Aggregation.MonthChartSpec`.
- `Aggregation.SalesCategoryChart` (lines 131-132): `Aggregation.SalesCategoryChartSpec`.
- `Aggregation.ProductChart` (lines 142-143): `Aggregation.ProductChartSpec`.
- `Aggregation.UniqueMonths` (line 155): `Aggregation.UniqueMonthsSpec`, `Aggregation.UniqueMonthsAreGroupKeys`.
- `Dashboard.TracesFor` (lines 176-215): `Dashboard.PanelSpec`, `Dashboard.TrendTraceSpec`, `Dashboard.TracesMatchButton`.
- `Dashboard.ButtonFor` (lines 223-242): `Dashboard.ButtonSpec`.

## Left out

- File and directory I/O are left out: resolving `BASE_DIR`, `read_csv`, `to_csv`, `os.makedirs`. The raw table is a parameter, and the cleaned table is a result.
- `read_csv` type inference is left out. Every cell is either missing or text.
- pandas' `to_datetime` and `to_numeric` are parameters (`Cleaning.DateParser`, `Cleaning.NumberParser`). Their format rules are not modelled. The date parser sees the whole column, because pandas infers one format per column.
- Plotly figure objects, layout options, subplot titles, `write_html`/`to_html`, the combined HTML document, `datetime.now()` and `print` are left out, because they are library calls and output. The traces and buttons are modelled as their data.
- The button's constant `method="update"` is not part of `Dashboard.Button`.
- The `label` key is the field `caption`, because `label` is a Dafny keyword.
- `total_txn` (line 103) is left out, because nothing else uses it.
- Weights are `real`, not floating point, so rounding in the sums is not modelled.
- `Text.Lower` lower-cases ASCII letters and the Kelvin sign only. Other Unicode letters keep their case.
- `Aggregation.SortDesc`: `sort_values` uses quicksort, which is not stable. The model is a stable insertion sort, so the order of equal sums may differ. Values, order and multiset are proved regardless.
- `Cleaning.CleanedSales`: the model requires that no required column occurs twice after renaming. With two columns of the same required name, `df[col]` selects a frame and the script fails: at line 73 for `Date`, at line 76 for `NetWeightKGs`, at line 81 for a text column. That failure is not modelled.
- `Pipeline.Refresh`: the model requires a non-empty cleaned table. The script fails at line 173 on an empty one, and that failure is not modelled.
- `Cleaning.ValidInstant` allows years 1 to 9999. pandas' narrower range is left to the date parser.
- `Cleaning.CoerceRow` and `Cleaning.CoerceAll`: the loop over the four text columns at lines 80-81 is modelled field by field.
- `Cleaning.Day` (line 93) only records the calendar date. Nothing downstream uses it.
- `Cleaning.CoerceText`: a missing text field becomes `"nan"` because, in pandas before 3.0, `read_csv` gives text columns the object dtype and `astype(str)` turns NaN into the string `"nan"`. Under pandas 3.0's default string dtype, `astype(str)` keeps NaN missing and `fillna("")` then gives `""`. That behaviour is not modelled.
