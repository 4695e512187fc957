# Sales-table normaliser

A model of `transform_data` (transform.py), the core of a small sales ETL
pipeline. It receives one raw table of sales transactions. Its cleaning
stage drops and repairs rows in a fixed order:

1. drop exact duplicates, then rows without a transaction id;
2. impute the day of week with the mode;
3. drop rows missing a dimension key;
4. trim and title-case the text columns;
5. resolve repeated transaction ids;
6. impute price, quantity and total;
7. null out negative numbers and audit that totals agree.

Its normalisation stage then builds three dimension tables (customers, stores,
products) with dense surrogate ids and a `sales` fact table joined against them.

The model is split into modules:

- `Wrappers`: `Option` and `Result`.
- `Selection`: order-preserving row filters and first-occurrence de-duplication. This is what `drop_duplicates` and `dropna` do to a table.
- `Text`: `str.strip`, `str.title`, and Python's string order, which `mode()` uses to break ties.
- `Numeric`: mean, and numpy's round-half-to-even at 0 and 2 decimals.
- `Rows`: the raw record and its columns.
- `Cleaning`: every cleaning step as a function on a sequence of rows, with the lemmas stating what each step guarantees. `Clean` composes them.
- `Normalization`: the dimension tables, the inner joins and the fact table.
- `Transform`: the in-place working table `SalesFrame`. Its methods replace the rows step by step, in the order of transform.py. The two column loops are `while` loops. Each method is proved equal to the corresponding `Cleaning` function. `TransformData` runs the whole pipeline and is proved equal to `TransformResult`.

Numbers are exact reals. A missing cell is `None`. A numeric cell holds a
number or is missing. A failing `astype(int)` is `Failure(QuantityNotInteger)`.
The warnings the source logs are returned as counts in `Warnings`.

## Model

| member | source | states |
|---|---|---|
| Selection.Kept | transform.py:29-30 | the positions a keep-mask keeps: exactly the marked ones, strictly increasing, one per marked cell |
| Selection.Select | transform.py:30 | a row filter keeps exactly the marked rows, in their original order |
| Selection.SelectMembers | transform.py:30 | a value survives a filter iff some marked row holds it |
| Selection.Distinct | transform.py:29 | defines `drop_duplicates(keep="first")`: the values kept by the first-occurrence mask, in input order |
| Selection.DistinctSpec | transform.py:29 | `drop_duplicates` leaves no two equal rows and loses no value; each survivor is the first occurrence of its value, and survivors keep first-occurrence order |
| Cleaning.DropMissingIds | transform.py:30 | defines `dropna(subset=["transaction_id"])`: the rows with an id, in order |
| Cleaning.FirstDropsSpec | transform.py:28-30 | after both drops, every row has an id and no two rows are equal; a row survives iff it was in the input with an id; survivors keep first-occurrence order |
| Transform.SalesFrame.constructor | transform.py:15 | the working table starts as the raw rows |
| Transform.SalesFrame.DropDuplicates | transform.py:29 | the rows become the de-duplicated table; no two rows are equal and no value is lost |
| Transform.SalesFrame.DropMissingIds | transform.py:30 | the rows become the filtered table; a row stays iff it has a transaction id |
| Text.StrLess | transform.py:34 | defines Python's `<` on `str`, which orders the modes `mode()` returns: code-point order, a proper prefix first |
| Text.StrLessTotal | transform.py:34 | the string order `mode()` breaks ties with is total |
| Text.StrLessTransitive | transform.py:34 | that order is transitive |
| Text.StrLessIrreflexive | transform.py:34 | that order is strict |
| Cleaning.PresentDaysSpec | transform.py:34 | a value is counted by `mode()` iff some row holds it as its day; nothing is counted iff no row has a day |
| Cleaning.PresentDaysCount | transform.py:34 | `mode()` counts per row: a day occurs among the counted values exactly as many times as rows hold it |
| Cleaning.Mode | transform.py:34 | defines `mode()[0]`: absent for no values, otherwise the search over the values themselves |
| Cleaning.BestOfSpec | transform.py:34 | the mode search returns a candidate of maximal count, the smallest in string order among the tied ones |
| Cleaning.ModeSpec | transform.py:34-35 | the mode is absent iff no day is present; otherwise it is a present value with the highest count, and the smallest such value |
| Cleaning.ModeUnique | transform.py:34 | any value meeting the mode's definition is the mode, so `modes[0]` is uniquely determined |
| Cleaning.FillDays | transform.py:36 | defines `fillna(m)` on the day column: a present day is kept, a missing one becomes `m` |
| Cleaning.DropMissingDays | transform.py:38 | defines `dropna(subset=["day_of_week"])`: the rows with a day, in order |
| Cleaning.FillDayOfWeek | transform.py:33-38 | defines the day block: fill with the mode when there is one, otherwise drop the rows without a day |
| Cleaning.FillDayOfWeekPresent | transform.py:35-36 | when some day is present: rows with a day are unchanged, rows without one get the mode, and no row is dropped |
| Cleaning.FillDayOfWeekAbsent | transform.py:37-38 | when no day is present, every row is dropped |
| Transform.SalesFrame.FillDayOfWeek | transform.py:33-38 | the rows become the day-filled table, in which every row has a day |
| Cleaning.DropMissingKeys | transform.py:41-42 | defines `dropna(subset=critical_cols)`: the rows with all four keys, in order |
| Cleaning.DropMissingKeysSpec | transform.py:41-42 | a row survives iff it was present and has all four dimension keys |
| Transform.SalesFrame.DropMissingKeys | transform.py:41-42 | the rows become the filtered table; a row stays iff it has all four keys |
| Text.Strip | transform.py:50 | the result has no leading or trailing whitespace |
| Text.StripSlice | transform.py:50 | trimming cuts only whitespace from the two ends; the result is a contiguous slice of the input |
| Text.StripStripped | transform.py:50 | a string without outer whitespace is left unchanged, so trimming twice equals trimming once |
| Text.Title | transform.py:53 | same length; only letter case changes; a letter after a letter becomes lower case, any other letter upper case; other characters are kept |
| Text.TitleIsTitled | transform.py:53 | title-casing is idempotent |
| Text.TitleKeepsStripped | transform.py:50-53 | title-casing a trimmed string leaves it trimmed |
| Cleaning.StandardizeCellSpec | transform.py:48-53 | a present cell stays present and a missing one stays missing; trimmed cells are trimmed; title-cased cells are trimmed and title-cased |
| Cleaning.StandardizeText | transform.py:44-53 | defines the row-wise reference of the two loops: trim five columns, then title-case three |
| Transform.SalesFrame.StandardizeText | transform.py:48-53 | the two column loops turn every row into its standardized row: trim all five text columns, title-case three of them, leave the rest unchanged |
| Transform.UpdateText | transform.py:48-53 | defines one pass of either text loop: `str.strip` or `str.title` applied to one column of every row, other columns untouched |
| Transform.TrimStep | transform.py:45-50 | one pass of the trim loop trims exactly the next column of `text_cols` in every row |
| Transform.TitleStep | transform.py:46-53 | one pass of the title loop title-cases exactly the next column of `title_case_columns` in every row |
| Transform.BothTextLoops | transform.py:45-53 | all five trim passes followed by all three title passes equal the row-level standardisation |
| Cleaning.DuplicatedMask | transform.py:56 | defines `duplicated(subset=["transaction_id"], keep=False)`: a row is marked iff its id occurs in some other row |
| Cleaning.DropDuplicateIds | transform.py:59 | defines `drop_duplicates(subset=["transaction_id"])`: the first row of each id, in order |
| Cleaning.DuplicatedIdCount | transform.py:56-58 | defines `len(dupes)`: the rows whose id also occurs in another row, all copies counted |
| Cleaning.ResolveDuplicateIds | transform.py:56-59 | defines the guarded drop: keep the first row of each id when some id repeats, else leave the rows as they are |
| Cleaning.DuplicatedIdCountSpec | transform.py:56-57 | the reported duplicate count is zero iff transaction ids are already unique |
| Cleaning.ResolveIsDrop | transform.py:57-59 | the guarded drop equals an unconditional first-occurrence drop on ids |
| Cleaning.ResolveDuplicateIdsSpec | transform.py:56-59 | afterwards ids are unique; each survivor is the first row with its id, in order; every first occurrence survives |
| Cleaning.DuplicateIdExample | transform.py:56-59 | two rows with one id: both are reported and exactly the first survives |
| Transform.SalesFrame.ResolveDuplicateIds | transform.py:56-59 | returns `len(dupes)`; the rows become the resolved table, whose ids are unique |
| Numeric.MeanBounds | transform.py:63 | a mean lies between any lower and upper bound of its values |
| Numeric.Mean | transform.py:63 | defines the skip-missing mean: the sum over the count of present values, missing when there are none |
| Cleaning.GroupPricesSpec | transform.py:63 | a group's prices are exactly the present prices of the rows with that product name |
| Cleaning.GroupPricesPositions | transform.py:63 | the group mean runs over one price per priced row of the group, in row order, so repeated prices count as often as they occur |
| Cleaning.FillPriceRow | transform.py:63 | defines the group fill for one row: missing without a product name, kept when present, else the mean of its group's prices |
| Cleaning.FillPrice | transform.py:62-63 | defines the group fill: each row keeps its price or takes its group's mean |
| Cleaning.FillPriceSpec | transform.py:62-63 | only price changes; present prices are kept; a missing price becomes its group's mean; it stays missing iff the group has no price; a filled price lies within the group's price range |
| Cleaning.PriceFillExample | transform.py:63 | a missing price with group prices 10 and 20 becomes 15 |
| Transform.SalesFrame.FillPrice | transform.py:62-63 | the rows become the price-filled table, and nothing but price changes |
| Numeric.RoundHalfEven | transform.py:68 | the nearest integer, with ties going to the even one |
| Numeric.RoundWhole | transform.py:68 | rounding a whole number returns it |
| Cleaning.PresentQuantitiesSpec | transform.py:67 | there is no quantity to average iff every quantity is missing |
| Cleaning.PresentQuantitiesPositions | transform.py:67 | the quantity mean runs over one value per row with a quantity, in row order |
| Cleaning.FillQuantity | transform.py:66-68 | defines fill with the mean, round, and cast: a failure when a missing quantity has no mean to take |
| Cleaning.FillQuantitySpec | transform.py:66-68 | the cast fails iff some quantity is missing and none is present; otherwise only quantity changes, every quantity is whole, present ones are rounded and missing ones become the rounded mean |
| Cleaning.QuantityFillExample | transform.py:66-68 | quantities 2, 4 and a missing one become 2, 4, 3 |
| Transform.SalesFrame.FillQuantity | transform.py:66-68 | reports whether the cast succeeds; on success all quantities are whole; on failure the rows are untouched |
| Numeric.Round2 | transform.py:76 | `round(2)` lies within half a cent of its argument and is a whole number of cents |
| Cleaning.DerivedTotal | transform.py:74-76 | defines `(price * quantity_sold).round(2)` for one row: missing when either factor is |
| Cleaning.DeriveTotals | transform.py:70-76 | defines the total fill: a row without a total gets price times quantity rounded to cents |
| Cleaning.DeriveTotalSpec | transform.py:70-76 | only the total changes; a present total is kept; a missing one is derived iff price and quantity are present, lies within half a cent of their product, is whole cents and passes the audit |
| Cleaning.TotalExample | transform.py:74-76 | price 5, quantity 3 and a missing total give 15.00 |
| Transform.SalesFrame.DeriveTotals | transform.py:70-76 | the rows become the table with derived totals; rows that had a total are unchanged |
| Cleaning.NullifyNegatives | transform.py:78-84 | defines the row-wise reference of the numeric loop: each negative number becomes missing |
| Cleaning.NegativeCount | transform.py:81-83 | defines `len(neg_values)` for one column: the rows whose cell is negative |
| Cleaning.NullifyRowSpec | transform.py:79-84 | afterwards no numeric cell is negative; non-negative cells are kept; negative ones become missing; other columns are untouched |
| Cleaning.NegativePriceExample | transform.py:79-84 | a price of -5 becomes missing, the row is kept, and the price count is 1 |
| Transform.NullifyColumn | transform.py:84 | defines one pass of the numeric loop: the column's negative cells become missing, everything else is kept |
| Transform.NullifyStep | transform.py:79-84 | the column a pass visits still holds its original values, so its count is the original count; after the pass that column is nullified too |
| Transform.NullifyNothing | transform.py:82-84 | skipping a column with no negative cell changes nothing |
| Transform.SalesFrame.NullifyNegatives | transform.py:79-84 | the loop leaves exactly the row-wise nullified table and returns each column's count of negative cells, as counted before that column changed |
| Cleaning.Inconsistent | transform.py:88 | defines the audit test: price, quantity and total all present and the total more than 0.01 away from price times quantity |
| Cleaning.InconsistentCount | transform.py:87-90 | defines `len(inconsistent)`: the rows whose total is more than 0.01 away from price times quantity |
| Cleaning.InconsistentCountSpec | transform.py:86-90 | the inconsistency count is positive iff some row's total differs from price times quantity by more than 0.01 |
| Transform.SalesFrame.AuditConsistency | transform.py:86-90 | returns that count and changes nothing |
| Cleaning.DayStageSpec | transform.py:28-38 | after the first drops and the day fill, every row has an id and a day |
| Cleaning.TextStageSpec | transform.py:40-53 | after the key drop and the text loops, every key cell is present and standardized |
| Cleaning.ResolveKeepsKeysClean | transform.py:56-59 | resolving repeated ids makes ids unique, keeps only rows that were there, and keeps key cells clean |
| Cleaning.FillPriceKeepsKeysClean | transform.py:62-63 | the price fill keeps the row count and changes only price, so ids stay unique and key cells clean |
| Cleaning.DedupStageSpec | transform.py:56-63 | after id resolution and the price fill, ids are unique and key cells clean |
| Cleaning.TailRowSpec | transform.py:66-84 | the quantity, total and negative steps turn a row with clean keys into a clean row (whole quantity, no negative number) with the same id |
| Cleaning.CleanToPriceSpec | transform.py:28-63 | after the steps up to the price fill, ids are unique and every key cell is present and standardized |
| Cleaning.Clean | transform.py:28-93 | defines the cleaning stage: the steps in source order, with the warning counts taken where the source logs them |
| Cleaning.CleanSpec | transform.py:28-93 | the cleaning stage fails iff the quantity cast fails; otherwise ids are unique and every row is clean |
| Normalization.Dimension | transform.py:100-107 | defines a dimension table: the distinct keys in first-seen order, numbered from 1 |
| Normalization.DimensionSpec | transform.py:100-107 | ids run densely from 1; no natural key repeats; the keys are exactly the keys that occur, in first-seen order |
| Normalization.LookupUnique | transform.py:110-112 | a key held by exactly one dimension row matches that row alone |
| Normalization.LookupAbsent | transform.py:110-112 | a key no dimension row holds matches nothing, so the inner join would drop its row |
| Normalization.DimensionLookup | transform.py:100-112 | every key occurring in the rows matches exactly one dimension row, and that row carries the key |
| Normalization.WithCustomer | transform.py:110 | defines `df.merge(customers, on="customer_name")` |
| Normalization.WithStore | transform.py:111 | defines `.merge(stores, on="store_location")` on the customer join |
| Normalization.WithProduct | transform.py:112 | defines `.merge(products, on=["product_name", "product_category"])` on the store join |
| Normalization.Merge | transform.py:110-112 | defines the inner join: each left row paired with every matching dimension id, in left-row order |
| Normalization.MergeExact | transform.py:110-112 | when every key matches exactly once, the inner join keeps every row, in order, paired with its id |
| Normalization.ToSale | transform.py:115-126 | defines the column selection: id, day, the three foreign keys, price, quantity and total |
| Normalization.Normalize | transform.py:98-126 | defines the normalisation stage: three dimension tables, then three joins and the column selection |
| Normalization.SalesSpec | transform.py:109-126 | one sale per cleaned row, in order, carrying the row's own cells and the ids its keys resolve to |
| Normalization.ReferentialIntegrity | transform.py:109-126 | each sale's three foreign keys resolve to exactly one dimension row, and that row carries the sale's natural key |
| Normalization.SalesIdsUnique | transform.py:115-126 | unique ids in the cleaned rows stay unique in `sales` |
| Transform.TransformResult | transform.py:15-129 | defines the whole transform: cleaning, then normalisation of the cleaned rows, with the warning counts |
| Transform.TransformSpec | transform.py:15-129 | the transform fails exactly when the quantity cast fails; otherwise every sale has a unique present id, a present title-cased day, no negative price or total, a whole non-negative quantity when present, and in-range foreign keys |
| Transform.TransformData | transform.py:15-129 | the step-by-step in-place run returns exactly the composed reference result |

## Left out

- extract.py, load.py and data_pipeline.py are not part of this model. They fetch the raw table and upload the outputs over the network.
- Logging is left out. Each warning's row count is returned in `Warnings` instead.
- Column presence and dtype probing (`if col in df.columns`, `dtype == "object"`) is left out. The model fixes the schema to exactly nine columns: the five text columns hold strings, and the three numeric columns hold numbers. An extra column would also take part in the exact-duplicate comparison at transform.py:29. The model does not represent that.
- `pd.to_numeric(..., errors="coerce")` is left out. The model assumes every numeric cell holds a number or is missing, and it has no non-numeric cell. In the code such a cell is not always turned into a missing one. `price` is never coerced, so a string price makes the group mean at transform.py:63 raise. The exact-duplicate drop at transform.py:29 compares the raw cells, before any coercion.
- At transform.py:67 the mean is taken over the column before coercion. With numeric input this is the same as the coerced column, which is what the model uses.
- Floating point is left out. Arithmetic is exact over reals, so `round` and `round(2)` round exact values. The 0.01 audit tolerance compares exact differences.
- `Text.Title`: cased letters are modelled for ASCII only. Python also title-cases non-ASCII letters.
- `Text.Strip`: whitespace is modelled for Latin-1 only. Python also strips the other Unicode spaces.
- `df.reset_index(drop=True)` at transform.py:93 is left out. A sequence's positions are already contiguous from 0.
- `groupby("product_name")` drops rows whose product name is missing. The model gives such rows a missing price. No such row reaches this step, because of the key drop at transform.py:42.
- A raw table without a `transaction_id` column fails in the code: `dropna(subset=["transaction_id"])` at transform.py:30 raises a `KeyError`. A missing key column fails the same way at transform.py:42. The fixed schema excludes these inputs, so the model has no such error.
- A sale whose key fails to resolve is not an error in the code. The inner join drops that row silently. `Normalization.LookupAbsent` models the drop, and `Normalization.ReferentialIntegrity` proves it never happens.
- Re-running the transform on an equal copy of the raw table gives the same result, because `TransformResult` is a function. There is no separate lemma for it.
- The mutation of the caller's frame is not modelled. `transform_data` cleans its argument in place, so a second call on the same frame starts from cleaned data and can give a different result. For example, a negative price nulled at transform.py:84 is refilled at transform.py:63. `TransformData` makes a fresh `SalesFrame` from a value, so the caller's rows are never changed.
- Normalization.SalesSpec: "in order" assumes that the inner merge keeps the row order of the left table. pandas documents this for `how="inner"` from version 2.2. Earlier versions could group the result rows by key.
