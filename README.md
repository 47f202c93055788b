# COVID-19 merge pipeline, modelled in Dafny

This project models the data-merging core of `covid_analysis.py`. That core is the function
`load_and_merge_data`, which turns three wide Johns Hopkins time series (confirmed, deaths,
recovered) and the Our World in Data daily panel into one table keyed by (location, date). The
project also models the row and location selections that three of the charts make before drawing.

A pandas DataFrame is modelled as a `Frames.Frame`:

- an ordered list of column names;
- a sequence of rows, each holding a location, an optional date (`None` is NaT) and a map from
  column name to an optional real number (`None` is NaN).

`WellFormed` says that the column names are distinct and that every row has exactly those cells.
Each pandas step is a function on frames, in the order the source applies them:

- `Reshape.MeltJhu` is `melt_jhu`: melt the date columns, then group and sum by (country, date).
  As in pandas, the sum skips NaN, so a group whose cells are all missing sums to 0.
- `Joins.MergeMetrics` is the two outer merges on (Country/Region, date).
- `Joins.JhuFrame` adds the date parsing and the renaming of Country/Region to location.
- `Joins.LeftJoin` is the left merge with the panel. Suffixes apply only to colliding names: the
  panel column becomes `<name>_owid` and the left column keeps its name.
- `Pipeline.FillPopulation` is the population forward fill, then backward fill. It runs over the
  rows in the order the merges left them.
- `Pipeline.DeriveRates` is the per-100k loop over the six listed columns.
- `Frames.SortByKey` is the sort by (location, date), with NaT last.
- `Pipeline.GroupFill` is the per-location forward fill. It fills the date column as well.
- `Pipeline.ZeroFill` is `fillna(0)`.

`Pipeline.Cleaned` and `Pipeline.MergedDataset` compose these steps.

`Pipeline.LoadAndMerge` and `Pipeline.Clean` run the same steps imperatively on a working frame:

- The fills copy a column into an array and fill it in place, with `Fill.ForwardFill`,
  `Fill.BackwardFill` and `Fill.GroupForwardFill`. Each array method is proved equal to its
  specification function (`FFill`, `BFill`, `GFill`).
- The per-100k loop is a `for` loop, proved equal to the fold `DeriveRates`.

The three wide tables, the panel and the date parser are inputs to the model. Reading and
writing CSV files is not modelled.

The population fill is not per location, and the per-location fill also covers the date column:

- The population fill at line 122 runs before the sort, across the whole table. A location with
  no panel row can therefore take its population from the neighbouring location's rows.
  `Pipeline.FillPopulationSpec` states exactly this nearest-row-above behaviour.
- The group forward fill at line 130 works on `groupby(...).apply` groups, which include the date
  column, so missing dates are forward-filled within their location too.
- The left merge can repeat a metrics row when the panel repeats a (location, date) key.
  `Joins.LeftJoinLocations` proves that the row count is unchanged when the panel keys are unique.
- Because line 130 fills the date column, a location with a known date followed by a missing one
  ends with two rows under one (location, date) key (`Pipeline.MissingDateRepeatsKey`). The keys
  of the result are unique when the metrics keys and panel keys are unique and no date is missing
  (`Pipeline.CleanedKeysUnique`). With no date missing, the result's key set is the metrics
  frame's, even when the panel repeats keys (`Pipeline.CleanedKeySet`).

## Model

| member | source | states |
|---|---|---|
| Reshape.MeltJhuSpec | covid_analysis.py:89-96 | the melted, grouped table has one row per pair of a country of the wide table and a date header, no pair twice, and its value is the sum over that country's province rows of that date column with missing cells skipped |
| Reshape.SumForMeltUpTo | covid_analysis.py:90-95 | the summed observations of the first k melted date columns, for country c and date column j, are the column sum for j when j is among them and 0 otherwise |
| Reshape.MeltUpToKeys | covid_analysis.py:90-93 | the melt has an observation keyed (c, l) exactly when l is a date header and c a country of some row |
| SeqUtil.Dedup | covid_analysis.py:95 | the group keys are distinct, every element occurs among them, and they occur in the input |
| Joins.LeftPartSpec | covid_analysis.py:103 | against unique right keys, the left-driven part of an outer merge has one row per left row, extended by the right cells of its key |
| Joins.RightOnlySpec | covid_analysis.py:103 | the right-only part of an outer merge has unique keys, exactly the right keys the left lacks, and each row is a right row padded with missing left cells |
| Joins.OuterJoinSpec | covid_analysis.py:103 | the outer merge of two tables with unique keys has unique keys equal to the union of both key sets, and each row holds the left cells for its key followed by the right cells, missing where a side lacks the key |
| Joins.FirstMergeSpec | covid_analysis.py:103 | merging confirmed with deaths gives unique keys, the union of the two key sets, two cells per row, and for every key its confirmed and its deaths value |
| Joins.MergeMetricsSpec | covid_analysis.py:103-104 | the outer merge of the three melted tables has no duplicate key, its key set is the union of the three, and each metric cell is that table's value for the key, missing exactly where the table lacked the key |
| Joins.ToFrame | covid_analysis.py:105-106 | the parsed frame has the columns confirmed, deaths, recovered, one row per merged row, the location renamed from the country, and the date parsed from the header |
| Joins.JhuFrame | covid_analysis.py:98-106 | the metrics frame is well formed, has the three metric columns and has one row per row of the outer merge |
| Joins.ParseKeepsKeysUnique | covid_analysis.py:105 | a date parser that keeps distinct headers distinct keeps the (location, date) keys unique |
| Joins.PanelCells | covid_analysis.py:112-119 | the panel part of a merged row has exactly the merged panel names, each holding the panel row's cell, or missing when there is no panel row |
| Joins.FindRow | covid_analysis.py:112-117 | no panel row is found exactly when no panel row has the key; a found row is a panel row with the key |
| Joins.LeftJoin | covid_analysis.py:112-119 | the left merge fails exactly when the merged column names are not distinct; otherwise the result is well formed with the left columns followed by the panel columns under their merged names |
| Joins.JoinRowSpec | covid_analysis.py:112-119 | a merged row extends its left row and holds each panel column's cell from the panel row, or missing |
| Joins.LeftJoinKeepsLeftRows | covid_analysis.py:112-119 | every left row is extended by some merged row, and there are at least as many merged rows as left rows |
| Joins.LeftJoinAddsNoRows | covid_analysis.py:112-119 | every merged row extends some left row |
| Joins.LeftJoinUniquePanel | covid_analysis.py:112-119 | with unique panel keys, merged row i is left row i merged with the panel row of its key, and the row count is unchanged |
| Joins.LeftJoinSpec | covid_analysis.py:112-119 | with unique panel keys, the merge keeps the row count and row order, each row keeps the key and cells of its left row, and each panel column holds the matching panel cell or is missing when no panel row matches |
| Joins.LeftJoinLocations | covid_analysis.py:112-119 | the merge keeps the set of locations, has at least one row per metrics row, and exactly one when the panel keys are unique |
| Frames.Assign | covid_analysis.py:122 | assigning a column overwrites it in place or appends it last, gives it the new cells and changes no other column, location or date |
| Fill.FFill | covid_analysis.py:122 | the forward fill has the input's length and keeps every known cell |
| Fill.BFill | covid_analysis.py:122 | the backward fill has the input's length and keeps every known cell |
| Fill.LastKnownIsNearest | covid_analysis.py:122 | the value carried forward to row i is missing exactly when rows 0..i are all missing; otherwise it is the cell of the nearest known row at or above i |
| Fill.NextKnownIsNearest | covid_analysis.py:122 | the value carried backward to row i is missing exactly when rows i.. are all missing; otherwise it is the cell of the nearest known row at or below i |
| Fill.FFillThenBFill | covid_analysis.py:122 | forward then backward fill gives each cell the nearest known value above it, or the first known value for a leading gap, and leaves nothing missing if any value is known |
| Fill.ForwardFill | covid_analysis.py:122 | the in-place array forward fill leaves the array equal to FFill of its old contents |
| Fill.BackwardFill | covid_analysis.py:122 | the in-place array backward fill leaves the array equal to BFill of its old contents |
| Pipeline.FillPopulation | covid_analysis.py:122 | the population fill keeps the columns, locations and dates, and changes no column but population |
| Pipeline.FillPopulationSpec | covid_analysis.py:122 | a known population is kept; a missing one becomes the nearest known population above it in row order, or the first known one for a leading gap; no population is missing if any row had one |
| Pipeline.FillPopulationColumn | covid_analysis.py:122 | the array-based population fill produces FillPopulation |
| Pipeline.Rate | covid_analysis.py:126 | a per-100k cell is missing exactly when the source cell or population is missing or the population is zero; otherwise the rate times the population is the source value times 100000 |
| Pipeline.RateColumn | covid_analysis.py:126 | the rate column has one cell per row |
| Pipeline.DeriveRate | covid_analysis.py:125-126 | one loop turn adds `<c>_per100k` exactly when c is a column, fills it with the rate of c against population, and keeps every other column, location and date |
| Pipeline.DeriveRatesAddsExactly | covid_analysis.py:124-126 | after the loop, `<c>_per100k` for a listed c is a column exactly when c was a column or the rate column already existed |
| Pipeline.DeriveRatesCols | covid_analysis.py:124-126 | the loop's columns are the original columns plus the rate names of the listed names that are columns |
| Pipeline.DeriveRatesColumns | covid_analysis.py:124-126 | each derived column holds, cell by cell, the rate of its source column against the population |
| Pipeline.DeriveRatesKeeps | covid_analysis.py:124-126 | the loop changes no column other than the derived ones |
| Pipeline.RateColumnsFresh | covid_analysis.py:124 | no rate name of a listed name equals a listed name or `population`, so the loop never overwrites a column it reads |
| Pipeline.AddRateColumns | covid_analysis.py:124-126 | the `for` loop over the six names produces DeriveRates over them |
| Sorting.Sort | covid_analysis.py:129 | sorting keeps the length and the multiset of elements |
| Sorting.SortIsSorted | covid_analysis.py:129 | for a total preorder the sorted sequence is in order |
| Frames.RowLeIsTotalPreorder | covid_analysis.py:129 | the (location, date) order with NaT last is total and transitive |
| Frames.SortByKey | covid_analysis.py:129 | the sort keeps the columns and the multiset of rows and orders rows by location, then date with NaT last |
| Pipeline.SortLocations | covid_analysis.py:129 | the sort keeps the set of locations and leaves them in ascending order |
| Fill.GFill | covid_analysis.py:130 | the per-group forward fill has the input's length and keeps every known cell |
| Fill.LastKnownForIsNearest | covid_analysis.py:130 | the value carried to row i within group k is missing exactly when every earlier row of k is missing; otherwise it is the cell of the nearest known row of k at or above i |
| Fill.GFillStaysInGroup | covid_analysis.py:130 | a group-filled cell is missing exactly when its location has no known cell at or above it; otherwise it is the nearest known cell of the same location at or above it |
| Fill.GroupForwardFill | covid_analysis.py:130 | the in-place array group forward fill leaves the array equal to GFill of its old contents |
| Pipeline.GroupFillSpec | covid_analysis.py:130 | the per-location fill keeps columns, row count and locations, and replaces each column and the date column by its per-location forward fill |
| Pipeline.FilledDatesOrdered | covid_analysis.py:129-130 | filling missing dates within a location keeps that location's dates in order |
| Pipeline.GroupFillKeepsOrder | covid_analysis.py:129-130 | the per-location fill keeps the frame sorted by (location, date) |
| Pipeline.GroupFillFrame | covid_analysis.py:130 | filling each column in an array in turn, then the dates, produces GroupFill |
| Pipeline.ZeroFill | covid_analysis.py:131 | `fillna(0)` keeps columns and locations, keeps every known cell and date, turns every missing cell into 0 and every missing date into day 0, and leaves nothing missing |
| Pipeline.CleanedSpec | covid_analysis.py:112-131 | the pipeline fails exactly when merged names collide or no population column exists; otherwise the result has no missing value, the merged columns plus a rate column for each listed column present, the metrics frame's locations and no other, in ascending order, at least one row per metrics row, exactly one when the panel keys are unique, exactly the metrics frame's (location, date) keys when no metrics date is missing, and unique (location, date) keys when the metrics and panel keys are unique and no metrics date is missing |
| Pipeline.CleanedKeySet | covid_analysis.py:112-131 | with every metrics date known, the cleaned table's set of (location, date) keys is exactly the metrics frame's, whether or not the panel repeats keys |
| Pipeline.LeftJoinKeySet | covid_analysis.py:112-119 | the left merge keeps the metrics frame's set of (location, date) keys, even when the panel repeats a key |
| Pipeline.CleanedKeysUnique | covid_analysis.py:112-131 | with unique metrics and panel keys and every date known, no two rows of the cleaned table share a (location, date) key |
| Pipeline.MissingDateRepeatsKey | covid_analysis.py:129-130 | a metrics frame with a dated row and then an undated row of one location has unique keys, but the cleaned table repeats a (location, date) key, because the per-location fill copies the date |
| Pipeline.MissingDateExample | covid_analysis.py:129-130 | location A dated day 1 and then undated, merged with an empty panel, cleans without error into a table that repeats the key (A, day 1) |
| Pipeline.Clean | covid_analysis.py:112-131 | the step-by-step cleaning produces Cleaned |
| Pipeline.LoadAndMerge | covid_analysis.py:74-136 | the whole function, without file I/O, produces MergedDataset of its inputs |
| Charts.GroupMax | covid_analysis.py:150 | a location's maximum `confirmed` is missing exactly when none of its cells is known; otherwise it is one of its cells and no known cell exceeds it |
| Charts.RankingsSpec | covid_analysis.py:150 | the ranking has each location once, with its maximum |
| Charts.TopBySpec | covid_analysis.py:150 | the first n by score are drawn from the input and come in descending order, missing scores last |
| Charts.TopByMaximal | covid_analysis.py:150 | no element left out scores above an element kept |
| Charts.TopLocationsSpec | covid_analysis.py:150 | the selection has min(n, number of locations) locations, at most n, all distinct, all locations of the frame, in descending order of maximum `confirmed` |
| Charts.TopLocationsMaximal | covid_analysis.py:150 | no location left out has a larger maximum `confirmed` than a location kept |
| Charts.TopLocationsAll | covid_analysis.py:150 | with at most n locations, every location is kept |
| Charts.CasesChartLocations | covid_analysis.py:150 | the cases chart ranks at most 6 distinct locations of the frame by maximum `confirmed`, descending, none left out ranking higher |
| Charts.PolicyChartLocations | covid_analysis.py:208 | the policy chart ranks at most 4 distinct locations of the frame by maximum `confirmed`, descending, none left out ranking higher |
| Charts.LatestDate | covid_analysis.py:179 | a location's latest date is NaT exactly when it has no known date; otherwise it is one of its dates and no date of it is later |
| Charts.Filter | covid_analysis.py:180-181 | the filtered rows are exactly the rows that satisfy the predicate, drawn from the input |
| Charts.Candidates | covid_analysis.py:179-181 | for a frame with `population` and `deaths_per100k` columns, a row is ranked for the deaths chart exactly when it is a row of the frame dated at its location's latest date and its population exceeds 1,000,000 |
| Charts.DeathsChartRowsSpec | covid_analysis.py:179-182 | the deaths chart shows at most 20 candidate rows, in descending order of deaths per 100k, and no candidate left out has a higher rate than a row shown |

## Left out

- `download_data` (covid_analysis.py:21-68) is network and file I/O.
- Reading and writing CSV files (lines 84-86, 109, 134) are file I/O. So is the directory creation at import time. The wide tables and the panel are parameters instead.
- Plotting, the 7-day rolling means, the correlation matrix and all drawing are left out. They are floating-point output through libraries.
- `pd.to_datetime(..., errors='coerce')` (line 105) is library parsing. It is the `parse` parameter, with `None` for a label it cannot read, and dates are opaque ordered day numbers.
- The row order of the outer merges is not modelled: pandas sorts the keys. The model keeps left rows first, then the right-only rows. The population fill runs over whichever order it is given, and `Pipeline.FillPopulationSpec` holds for any order.
- Numbers are reals. Float rounding is not modelled.
- Pipeline.Rate: a zero population gives a missing cell. pandas gives inf, or NaN for 0/0. A NaN from 0/0 matches the model: the per-location forward fill at line 130 carries the previous rate into it, and `fillna(0)` zeroes it if no rate came before. For x/0 with x non-zero the model's missing cell is also forward-filled or zeroed, but pandas keeps inf.
- Pipeline.ZeroFill: a missing date becomes day 0. pandas would put the integer 0 into a datetime column.
- Joins.LeftJoin: any duplicate among the merged column names is an error. pandas raises only in some of these cases, for example when a panel column already named `<name>_owid` meets a renamed one. In the other cases it keeps both columns under the one name.
- Pipeline.CleanedSpec: the result's set of (location, date) keys is promised to equal the metrics frame's only when no metrics date is missing. Those keys are promised unique only when, in addition, the metrics keys and the panel keys are unique. A missing date is forward-filled within its location, so it can move a row onto another row's key, as `Pipeline.MissingDateRepeatsKey` shows. A repeated panel key repeats the metrics rows it matches, so the keys are then not unique either.
- Pipeline.Cleaned: a merged frame without a `population` column is `Err(MissingColumn)`, where pandas raises `KeyError`. The panel always carries that column.
- Sorting.Sort: the model sorts by stable insertion. The two-key sort by (location, date) at line 129 is stable in pandas too, so the model keeps its order among rows with equal keys, which the forward fill at line 130 reads. The single-key sorts at line 150, line 182 and line 208 use quicksort, which is not stable. The model does not reproduce their order among equal scores: locations with equal maximum `confirmed`, and candidate rows with equal deaths per 100k.
- The panel's non-numeric columns (iso_code, continent and the like) are modelled as numeric cells. Their values take part in no property.
- The per-country `fillna` and column creation inside `plot_policy_vs_outcomes` (lines 213-216) are left out. They prepare plotting data for one chart.
