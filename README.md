# hubspot-dashboard: group-by / aggregate / sort facade and chart filter, in Dafny

This project models the small tabular engine of the dashboard's `pandas-facade`
package and the filter and subtitle logic of the chart composable.

- **Bucketing** (`buildBuckets`). One pass over the rows composes each row's key.
  The key is the `String(...)` forms of the key cells joined with U+00A6 (`¦`).
  The row index is appended to that key's list in an insertion-ordered `Map`.
  The method keeps the loop; the specification function `BucketsOf` gives the
  buckets of a sequence of row keys.
- **Materialization** (`materializeGrouped`) emits one record per bucket in bucket
  order. The key columns are rebuilt by splitting the bucket key. Each entry of the
  aggregation specification adds the sum, mean or count over the bucket's rows.
  Records and specifications are JavaScript objects: an ordered property list plus
  a map, where assigning an existing name overwrites and a new name is appended.
- **GroupedDataFrame** is a class whose table, keys and buckets are read-only
  fields set at construction. They are references: the key list is the caller's
  own array when `by` is one, and the table is the caller's DataFrame. `sum`, `mean`, `count` and `agg` build a specification and
  materialize it. `groupBy` constructs one.
- **sortValues** sorts the index array in place with the comparator
  `va === vb ? 0 : (va < vb ? -1 : 1) * (ascending ? 1 : -1)`. It then copies the
  listed columns of each row into a record and adds the sort column when it is
  missing. The sort is a stable insertion sort on an `array`. It is proved equal to
  the unique order that the comparator and stability determine, so every
  conforming stable sort gives the same result.
- **processChartData** keeps the survey entries whose company size, industry and
  quarter each pass their dropdown. A dropdown with nothing selected passes
  everything. The chart title is the question text, and the subtitle lists the
  selections.

Numbers are exact reals and strings are sequences of `char`.

## Model

| member | source | states |
|---|---|---|
| Tables.EnsureArray | packages/pandas-facade/src/new-features.ts:19-21 | a single name becomes the one-element list of that name; a list is returned unchanged |
| Tables.Table.Get | packages/pandas-facade/src/new-features.ts:28 | `df.get(name)` gives one cell per row: the values of the column called `name` |
| Text.Join | packages/pandas-facade/src/new-features.ts:29 | a joined string begins with the first part, and with the first part and the separator when there are two or more parts |
| Text.JoinChars | frontend/app/composables/useDataProcessing.ts:32-36 | every character of a joined string comes from one of the parts or from the separator |
| Text.Split | packages/pandas-facade/src/new-features.ts:46 | `split('¦')` gives at least one piece, and a string without the separator splits into itself alone |
| Text.SplitJoin | packages/pandas-facade/src/new-features.ts:46-49 | splitting a joined key gives at least one piece per joined part; when no part contains the separator, the first pieces are the parts themselves |
| Text.JoinInjective | packages/pandas-facade/src/new-features.ts:27-29 | separator-free key tuples of one length compose the same key only if they are equal |
| Text.IntToString | packages/pandas-facade/src/new-features.ts:28 | `String(n)` of an integral number is a non-empty string with a leading minus exactly for negatives and digits everywhere else, and never contains the separator |
| Text.NatToStringValue | packages/pandas-facade/src/new-features.ts:28 | the digits printed for a natural number denote that number |
| Text.IntToStringRoundTrip | packages/pandas-facade/src/new-features.ts:28 | reading the printed form of an integer back gives the integer |
| Text.IntToStringInjective | packages/pandas-facade/src/new-features.ts:28 | different integers print differently, so different numeric key cells never compose the same key piece |
| Values.ToText | packages/pandas-facade/src/new-features.ts:28 | `String(v)` of a string is the string itself; of a number, a non-empty text free of the separator |
| Values.Compare | packages/pandas-facade/src/new-features.ts:104-109 | the comparator is 0 exactly for `===` values and always lies in -1..1 |
| Values.CompareMeaning | packages/pandas-facade/src/new-features.ts:104-109 | on values of one kind, the comparator is negative exactly when the first value comes first in the chosen direction, positive exactly when the second does, and antisymmetric |
| Values.LessStrictTotalOrder | packages/pandas-facade/src/new-features.ts:108 | `<` on numbers, or on strings compared character by character, is irreflexive, asymmetric, transitive and total on distinct values |
| Objects.PutSpec | packages/pandas-facade/src/new-features.ts:48-53 | `o[k] = v` keeps the object well formed, reads back `v`, leaves other properties alone, and appends `k` only when it is new |
| Bucketing.BuildBuckets | packages/pandas-facade/src/new-features.ts:23-35 | the loop produces exactly `BucketsOf` of the rows' composed keys |
| Bucketing.KeyParts | packages/pandas-facade/src/new-features.ts:27-28 | `keys.map((k) => String(...))` gives one piece per key column, the string form of that column's cell in row `i` |
| Bucketing.RowKey | packages/pandas-facade/src/new-features.ts:27-29 | the composed key of a row begins with the string form of its first key cell (`Join` of the pieces with `¦`; `KeyRoundTrip` gives the pieces back) |
| Bucketing.BucketsOfSnoc | packages/pandas-facade/src/new-features.ts:30-32 | one more row pushes its index onto an existing key's list, or appends a new key with a one-row list |
| Bucketing.IndicesOfSpec | packages/pandas-facade/src/new-features.ts:26-32 | a bucket list holds exactly the rows whose key is the bucket's key, in strictly increasing order |
| Bucketing.FirstSeenSpec | packages/pandas-facade/src/new-features.ts:30-32 | the bucket order lists every occurring key once, and an earlier key first occurs at an earlier row |
| Bucketing.Partition | packages/pandas-facade/src/new-features.ts:23-35 | every row is in the bucket of its own key and in no other; lists are non-empty, in range and strictly increasing; the order lists each bucket once and nothing else |
| Bucketing.SameBucket | packages/pandas-facade/src/new-features.ts:27-32 | two rows share a bucket if and only if their composed keys are equal |
| Bucketing.BucketOrderFirstSeen | packages/pandas-facade/src/new-features.ts:30-32 | a bucket listed earlier begins at an earlier row |
| Bucketing.KeyRoundTrip | packages/pandas-facade/src/new-features.ts:46-49 | a bucket key is every member row's composed key; it splits into at least one piece per key column, and, without the separator in the data, into the key cells' string forms |
| Bucketing.SeparatorCollision | packages/pandas-facade/src/new-features.ts:29 | when cells may contain `¦`, two different key tuples compose the same key |
| Aggregation.MaterializeGrouped | packages/pandas-facade/src/new-features.ts:37-57 | the loop over buckets produces `Materialize`: one record per bucket, in bucket order |
| Aggregation.Total | packages/pandas-facade/src/new-features.ts:52 | `s.sum()` of non-negative numbers is non-negative |
| Aggregation.TotalAppend | packages/pandas-facade/src/new-features.ts:52 | the sum of two runs of cells laid end to end is the sum of their sums |
| Aggregation.Picked | packages/pandas-facade/src/new-features.ts:51 | `idxs.map((i) => col.iloc(i))` has one cell per index, and cells of a numeric column stay numbers |
| Aggregation.PickedSpec | packages/pandas-facade/src/new-features.ts:51 | picked cell `j` is `col[idxs[j]]` |
| Aggregation.AggValue | packages/pandas-facade/src/new-features.ts:51-52 | each operation yields a number: `count` the bucket size and `sum` the total of the bucket's cells |
| Aggregation.AggValueMean | packages/pandas-facade/src/new-features.ts:51-52 | `mean` of a bucket, times the bucket size, is the bucket's total |
| Aggregation.BucketRow | packages/pandas-facade/src/new-features.ts:45-54 | one bucket's record is the key fields rebuilt from the split key followed by every specification entry's value |
| Aggregation.KeyRow | packages/pandas-facade/src/new-features.ts:45-49 | the `forEach` over the key columns builds exactly `KeyFields(keys, parts)` |
| Aggregation.AggRow | packages/pandas-facade/src/new-features.ts:50-53 | the loop over `Object.entries(agg)` builds exactly `AggFields` over the specification's entries, in their order, each assigned its `AggValue` |
| Aggregation.KeyFieldsOfBucket | packages/pandas-facade/src/new-features.ts:46-48 | for any row of a bucket, the rebuilt field of each key column is the string form of that row's key cell |
| Aggregation.KeyFieldsSpec | packages/pandas-facade/src/new-features.ts:47-49 | the rebuilt key fields are a well-formed record holding exactly the key columns, each holding its own piece of the split key |
| Aggregation.KeyFieldsValid | packages/pandas-facade/src/new-features.ts:45-49 | the rebuilt key fields always form a well-formed record, whatever the pieces |
| Aggregation.AggFieldsDomain | packages/pandas-facade/src/new-features.ts:50-53 | the aggregation loop keeps the record well formed and adds exactly the specification's columns |
| Aggregation.AggFieldsValues | packages/pandas-facade/src/new-features.ts:50-53 | after the loop every specification column holds its aggregated value, and every other property is unchanged |
| Aggregation.MaterializeAggregates | packages/pandas-facade/src/new-features.ts:43-55 | there are as many records as buckets; each holds, for every specification column, the sum, the mean or the size of its bucket |
| Aggregation.MaterializeKeys | packages/pandas-facade/src/new-features.ts:46-49 | with separator-free key cells, a key column that is not aggregated holds the string form of the key cell of any row of the bucket |
| Aggregation.BucketsOfFit | packages/pandas-facade/src/new-features.ts:64-68 | the buckets built from a table can always be materialized: non-empty, in-range lists and keys that split into enough pieces |
| Aggregation.SameOpSpec | packages/pandas-facade/src/new-features.ts:70-80 | `sum`/`mean` map every listed column, once and in first-listed order, to the same operation, and map nothing else |
| Aggregation.SumOrMeanSpec | packages/pandas-facade/src/new-features.ts:71-72 | the specification loop builds `SameOp` of the listed columns, and that specification can be evaluated on the table |
| Aggregation.CountSpec | packages/pandas-facade/src/new-features.ts:82-83 | `count` builds a one-entry specification mapping its name to count; the name defaults to `'count'` |
| Aggregation.GroupedDataFrame.constructor | packages/pandas-facade/src/new-features.ts:64-68 | the keys are the selector as a list, and the buckets are those of the table under those keys |
| Aggregation.GroupedDataFrame.Sum | packages/pandas-facade/src/new-features.ts:70-74 | the result is the materialization of the buckets under the all-sum specification of the listed columns |
| Aggregation.GroupedDataFrame.Mean | packages/pandas-facade/src/new-features.ts:76-80 | the result is the materialization of the buckets under the all-mean specification of the listed columns |
| Aggregation.GroupedDataFrame.Count | packages/pandas-facade/src/new-features.ts:82-84 | the result is the materialization of the buckets under `CountSpec` |
| Aggregation.GroupedDataFrame.Agg | packages/pandas-facade/src/new-features.ts:86-88 | the result is the materialization of the buckets under the given specification, and the buckets unchanged |
| Aggregation.GroupBy | packages/pandas-facade/src/new-features.ts:124-126 | a fresh grouping of the table whose keys are the selector as a list and whose buckets are those of the table |
| Conservation.BucketTotalsConserve | packages/pandas-facade/src/new-features.ts:23-35 | the column totals over the buckets, in first-seen order, add up to the column total over all rows |
| Conservation.SumConserved | packages/pandas-facade/src/new-features.ts:50-53 | for a summed column, the output records' values add up to the sum of the whole input column |
| Conservation.CountConserved | packages/pandas-facade/src/new-features.ts:50-53 | for a count column, the output records' counts add up to the number of input rows |
| Sorting.IsAscending | packages/pandas-facade/src/new-features.ts:92 | an absent `ascending` sorts ascending; a given one is used as is |
| Sorting.Range | packages/pandas-facade/src/new-features.ts:102 | `Array.from({ length }, (_, i) => i)` has `length` entries, entry `i` being `i` |
| Sorting.DeriveColumns | packages/pandas-facade/src/new-features.ts:94-99 | the columns list is the array itself, the string forms of `toArray()`, or empty |
| Sorting.ListedFieldsSpec | packages/pandas-facade/src/new-features.ts:113-116 | copying the listed columns gives a well-formed record holding exactly those columns, each with the row's cell |
| Sorting.RowAtSpec | packages/pandas-facade/src/new-features.ts:112-120 | each output record is well formed and holds exactly the listed columns and the sort column, each with the row's cell |
| Sorting.RowWithoutColumns | packages/pandas-facade/src/new-features.ts:113-118 | with no derivable column list, each record is exactly `{ [column]: cell }` |
| Sorting.InheritedNameDropsSortColumn | packages/pandas-facade/src/new-features.ts:118 | for a column named `toString` and no column list, the record as written lacks the sort column, and the corrected record has it |
| Sorting.RowAtAgrees | packages/pandas-facade/src/new-features.ts:113-118 | the record the code builds equals the corrected record for every sort column not named after an inherited property; for such a name, not listed, the code's record lacks the column and the corrected one has it |
| Sorting.BeforeStrictTotal | packages/pandas-facade/src/new-features.ts:104-109 | on a column of one kind, "value first in the chosen direction, ties by position" is a strict total order on row positions |
| Sorting.CompareBefore | packages/pandas-facade/src/new-features.ts:104-109 | for positions `a < b`, the comparator says to move `b` ahead of `a` exactly when `b` goes first |
| Sorting.InsertionSort | packages/pandas-facade/src/new-features.ts:104-109 | the functional stable sort returns a permutation of its input |
| Sorting.StableOrderSpec | packages/pandas-facade/src/new-features.ts:101-109 | the sorted indices are a permutation of `0..length-1` in the strict order of value, then position |
| Sorting.SortedMeaning | packages/pandas-facade/src/new-features.ts:104-109 | the comparator accepts every pair in output order; the values are non-decreasing ascending and non-increasing descending; `===` values keep their original order |
| Sorting.StableOrderUnique | packages/pandas-facade/src/new-features.ts:104-109 | any permutation of the positions that the comparator accepts and that keeps `===` values in order is exactly the stable order |
| Sorting.SortedUnique | packages/pandas-facade/src/new-features.ts:104-109 | two arrangements of the same positions that are both sorted in that order are equal |
| Sorting.SortIndices | packages/pandas-facade/src/new-features.ts:102-109 | sorting the array `[0, ..., n-1]` in place leaves exactly the stable order |
| Sorting.SwapStep | packages/pandas-facade/src/new-features.ts:104-109 | when the comparator puts the left neighbour after `i`, swapping them keeps every pair `i` has passed in order |
| Sorting.StopInserting | packages/pandas-facade/src/new-features.ts:104-109 | when the comparator accepts the left neighbour, the prefix of `i + 1` positions is sorted |
| Sorting.InsertAt | packages/pandas-facade/src/new-features.ts:104-109 | one insertion step extends the sorted prefix by one position and only rearranges the array |
| Sorting.SortValues | packages/pandas-facade/src/new-features.ts:91-122 | the output records are those of the rows in the stable order, under the derived column list and the defaulted direction |
| Sorting.EmitRows | packages/pandas-facade/src/new-features.ts:111-120 | the output loop yields the records of the positions in order, one per position |
| Sorting.EmitRow | packages/pandas-facade/src/new-features.ts:112-120 | the loop body builds the record of row `i` |
| Sorting.RowsPermutation | packages/pandas-facade/src/new-features.ts:111-120 | two arrangements of the same row positions yield the same records, rearranged |
| Sorting.SortedRowsSpec | packages/pandas-facade/src/new-features.ts:101-120 | the output has one record per input row, is a rearrangement of the input rows' records, and every record holds the sort column; the comparator accepts every pair in output order, and `===` values keep their original row order |
| Charts.FilterEntries | frontend/app/composables/useDataProcessing.ts:12-16 | an entry is in the result if and only if it is in the data and passes every dropdown; the result is no longer than the data |
| Charts.KeptPositionsSpec | frontend/app/composables/useDataProcessing.ts:12-16 | the kept positions are in range and strictly increasing, and are exactly the positions whose entries pass |
| Charts.FilterSubsequence | frontend/app/composables/useDataProcessing.ts:12 | the result is the data read at the kept positions: an order-preserving subsequence |
| Charts.NoFiltersKeepsAll | frontend/app/composables/useDataProcessing.ts:13-15 | with nothing selected anywhere, the result is the whole data |
| Charts.WideningKeeps | frontend/app/composables/useDataProcessing.ts:13 | when at least one company size is already selected, selecting one more keeps every entry that was kept |
| Charts.Selected | frontend/app/composables/useDataProcessing.ts:31-34 | the selected lists are all non-empty, and there are none exactly when all three dropdowns are empty |
| Charts.SubtitleMeaning | frontend/app/composables/useDataProcessing.ts:36 | the subtitle is `All Data` if and only if nothing is selected; otherwise it begins `Filtered: ` |
| Charts.SubtitleSingleList | frontend/app/composables/useDataProcessing.ts:31-36 | a company-size selection alone reads `Filtered: ` followed by that list joined with `, ` |
| Charts.ProcessChartData | frontend/app/composables/useDataProcessing.ts:11-38 | the filtered entries are `FilterEntries`, the title is the question text, and the subtitle built by the pushes is `Subtitle` of the filters |

## Findings

| source | as written | input that shows it | evidently intended | confidence | as-written member | corrected member |
|---|---|---|---|---|---|---|
| packages/pandas-facade/src/new-features.ts:118 | `column in row` also finds names inherited from `Object.prototype`, so the sort column is not added when its name is one of them | sorting a table on a column named `toString` when no column list can be derived | every record holds the sort column unless the row already has it as an own property | medium; not executed | Sorting.RowAtAsWritten, Sorting.InheritedNameDropsSortColumn | Sorting.RowAt, Sorting.RowAtSpec |

## Left out

- The pandas-js `DataFrame` and `Series` classes are not modelled. A table is a list of equally long named columns, and results are the lists of records that would be handed to `new DataFrame(outRows)`.
- Floating point is not modelled. Sums and means are exact reals, so the conservation lemmas hold exactly here but only up to rounding in JavaScript.
- Values.ToText: `String(v)` is modelled only for strings and for integral numbers below 2^53 in magnitude, where JavaScript prints every digit. Above 2^53 it prints the shortest digits that round-trip, padded with zeros, which is not modelled. Fractions, exponent notation, booleans, `null` and `undefined` are out. Key columns must hold such cells.
- Values.Less: strings compare character by character on Dafny characters, not on UTF-16 code units. The two orders differ only outside the Basic Multilingual Plane.
- Sorting.SortValues: requires the sort column to hold only numbers or only strings. For mixed kinds, `NaN` or `null`, the comparator is not a consistent order, and `Array.prototype.sort` then leaves the order implementation-defined.
- Sorting.SortValues: its records are the corrected ones (`Sorting.RowAt`), which add the sort column when the row lacks it as an own property. The code's `column in row` (new-features.ts:118) also sees inherited names, so for a sort column named after an `Object.prototype` property and not listed, the code emits records without it. `Sorting.RowAtAgrees` shows the two agree for every other column name.
- Sorting.EmitRow: tests `column in row.vals`, the corrected own-property test, not the code's `column in row`; see the line above and the Findings table.
- Sorting.SortIndices: `Array.prototype.sort` is engine code. It is modelled by an insertion sort. `Sorting.StableOrderUnique` shows that every stable sort conforming to ECMAScript 2019 or later gives the same order.
- Aggregation.GroupedDataFrame: the model copies the key selector list and the table into the object as values. In the code, `ensureArray` returns the caller's array itself (new-features.ts:20), and `materializeGrouped` reads `keys` again on every call (new-features.ts:47) while the buckets were built from its old contents. Later changes to that shared array, such as a `push` or a `reverse`, or to the shared DataFrame (for instance through its `columns` setter), are therefore not captured. The model's calls always see the keys and table present at construction.
- Aggregation.GroupedDataFrame.Sum: requires the summed columns to be numeric. What pandas-js does with `sum` on strings is not part of this model. The same holds for Aggregation.GroupedDataFrame.Mean.
- Aggregation.GroupedDataFrame.Count: the count is modelled as the bucket size without reading the column. The source still calls `df.get(colName)` for each row of the bucket, and the behaviour of pandas-js `get` on a missing column is not part of this model.
- Missing columns: a key, aggregation, listed or sort column that does not exist is a precondition (`HasColumn`). The source passes such names to pandas-js `get`, whose behaviour is not part of this model.
- Object property order: JavaScript enumerates integer-like property names, in ascending numeric order, before the others. The model keeps plain insertion order. So when a column name looks like an array index (`"2024"`, say), neither the order of `Object.entries(agg)` nor the property order of the emitted records (the grouped records and the sorted ones) is captured.
- A column named `__proto__`: assigning it on a plain object changes the prototype instead of adding a property. This is not modelled.
- `installPandasJsHelpers`, which patches `groupBy` and `sortValues` onto the pandas-js prototype, is left out. It is load-time wiring with no logic beyond delegation.
- In `processChartData`, the `groupBy`/`sum`/`sortValues`/`toJSON` chain and the `Object.keys`/`Object.values` read-off (useDataProcessing.ts:18-29) are left out. They depend on the shape of pandas-js `toJSON` output, which the code itself marks as uncertain. The Chart.js datasets object is also out.
- Fetching the data (`useHubSpotData`), the server, and the Vue/Nuxt wiring are I/O and are left out.
- The code does not check for unknown columns, mismatched column lengths or non-numeric aggregation targets, and gives `null` no place in the sort order. The model states these conditions as preconditions.
