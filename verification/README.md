# Petroleum sales report — a Dafny model of its core

`report.py` loads a JSON array of petroleum sales records into SQLite and
prints three reports. This project models the parts of it that compute:

- **`Report.grouper`** (module `Grouper`, `grouper.dfy`). It pulls
  `chunk_size` elements at a time from one iterator and stops at the first
  empty pull. It is modelled as a method with the same `while True` / `break`
  loop, proved against the specification function `Chunks`.
- **Dimension population and normalisation** (module `Normalize`,
  `normalize.dfy`). `_populate_country_table` and
  `_populate_petroleum_products` insert the distinct names, read the whole
  table back and build a name → id dictionary. The list comprehension of
  `start_process` then rewrites every raw record as
  `(country_id, product_id, year, sale)` and appends it to `petroleum_sales`.
  The tables are modelled as their rows in rowid order. An `autoincrement`
  insert gives the new row the largest id so far plus one.
- **The multi-year average of `_print_task_v`** (module `BucketAverage`,
  `bucket_average.dfy`). The steps are:
  - sort the distinct years;
  - fill `input_dict[year][product]`, where a later row overwrites an earlier
    one;
  - group the years four at a time with `grouper`;
  - collect every non-zero value of a chunk's years under the chunk's first
    year;
  - average each collected list, labelling it `first_year-(first_year + 3)`.

  The loops are modelled as methods (`BuildYearProductTable`, `CollectYear`,
  `CollectChunk`, `PrintTaskV`). Each is proved equal to a specification
  function (`YearProductTable`, `AddYear`, `ChunkBucket`, `Bucketize`,
  `OutputDict`, `AverageReport`), and the lemmas state that function's
  properties.
- **Worked inputs** (module `Scenarios`, `scenarios.dfy`). These cover
  bucket boundaries, last-write-wins, zero exclusion, and a repeated sale in
  one year.

`wrappers.dfy` holds the `Result` datatype used for the error paths.

Two behaviours of the code are easy to misread:

- **Repeated rows overwrite.** When two rows share a year and a product,
  `input_dict[x[0]][x[1]] = x[2]` (report.py:146) keeps only the later value.
  Sales of 10 and then 20 for one product in one year average to 20, not 15
  (`Scenarios.RepeatedSaleScenario`). The model follows the code.
- **The division is always defined.** A list in `output_dict` is created only
  by the `append` on the `value != 0` path (report.py:152-153). So every list
  that is averaged has at least one element, and `sum / len` never divides by
  zero (`BucketAverage.OutputDict`).

## Model

| member | source | states |
|---|---|---|
| Grouper.Grouper | report.py:36-42 | A chunk size below zero or above `sys.maxsize` (2^63 - 1) fails with `StopOutOfRange`, as `islice` refuses such a stop. Otherwise the groups are exactly `Chunks(chunkSize, iterable)`. |
| Grouper.FlattenChunks | report.py:36-42 | For a positive size, the groups concatenated in order give back the input exactly. |
| Grouper.Chunks | report.py:36-42 | With a positive size, a non-empty input yields at least one group. Every group is non-empty and has at most `k` elements. Every group except the last has exactly `k`. |
| Grouper.ChunkAt | report.py:36-42 | Group `j` is the input slice from `j*k` of length `k`, cut short at the end of the input. |
| Grouper.ChunkFirstsAscending | report.py:36-42 | On a strictly ascending input, the first elements of the groups strictly increase, so no two groups share a first element. |
| Normalize.EnumerationSize | report.py:50-52 | `list(set(...))` has exactly one element per distinct name. |
| Normalize.MaxId | report.py:19 | The result bounds every id of the table from above. |
| Normalize.MaxIdAttained | report.py:19 | The maximum is 0 for a table without positive ids, or else the id of some row. |
| Normalize.InsertNames | report.py:52 | The old rows stay in place, and one new row per name follows them, carrying that name, in the order of the names. |
| Normalize.InsertNamesFresh | report.py:52 | Inserting the names one by one, each with the largest id so far plus one, gives the old rows followed by one row per name, in order, with consecutive ids from the old maximum plus one. |
| Normalize.InsertNamesKeepsUniqueIds | report.py:52 | If the ids of the table are unique, they stay unique after the inserts. |
| Normalize.NameToId | report.py:54-56 | The keys are exactly the names in the table. Every key maps to the id of a row carrying that name. |
| Normalize.NameToIdLastWins | report.py:56 | A name maps to the id of the last row carrying it. |
| Normalize.InsertedRowIsLast | report.py:52-56 | Among the rows after insertion, the row inserted for a name is the last row with that name, and it carries the name's fresh id, the old maximum plus its position plus one. |
| Normalize.PopulateDimension | report.py:50-56 | The table becomes `InsertNames(table, order)`: the old rows are kept, and one row is added per name. The dictionary is `NameToId` of the whole table read back, so every name in the table, old or new, is a key. The `i`-th inserted name maps to the fresh id of its own new row. Every dictionary entry names an existing row. |
| Normalize.PopulateCountryTable | report.py:50-56 | The table becomes `InsertNames(table, order)`: the old rows, then one row per distinct country with consecutive ids above the old maximum. The dictionary is `NameToId` of that table, so every name in it is a key. Every country of the raw records maps to a fresh id above the old maximum, belonging to a row of that name. |
| Normalize.PopulatePetroleumProducts | report.py:64-71 | The same as `PopulateCountryTable`, for the distinct products. |
| Normalize.NormalizeSales | report.py:176-178 | The result is a success exactly when every record's country and product resolve. A success holds one fact per record, in order, with the looked-up ids and the record's year and sale unchanged. A failure is the `KeyError` of the first record that does not resolve, country looked up first. |
| Normalize.StartProcess | report.py:173-179 | Loading never raises `KeyError`. The country and product tables become `InsertNames` of the old table and the distinct names: the old rows, then one fresh row per name. They grow by the number of distinct names. One fact is appended per raw record, in order, and the old facts are kept. Each new fact references a country row and a product row carrying the record's own names, by ids above the old maximum, so the rows are the ones just inserted. Year and sale are unchanged. |
| Normalize.StartProcessKeepsReferences | report.py:173-179 | If every existing fact references existing rows, every fact still does after loading. |
| BucketAverage.InsertYear | report.py:140 | Inserting a year keeps the list strictly ascending and adds exactly that year. |
| BucketAverage.SortedYears | report.py:140 | `initial_year` is strictly ascending and contains exactly the years of the rows. |
| BucketAverage.AscendingUnique | report.py:140 | Two strictly ascending lists with the same elements are equal. |
| BucketAverage.SortedYearsUnique | report.py:140 | `sorted(set(...))` is the only strictly ascending list of exactly the rows' years. |
| BucketAverage.YearProductTable | report.py:145-146 | `input_dict` has a year exactly when some row has that year. |
| BucketAverage.YearProductTableEntries | report.py:145-146 | `input_dict` has an entry for `(year, product)` exactly when some row has both. |
| BucketAverage.YearProductTableLastWins | report.py:145-146 | The entry for `(year, product)` is the sales value of the last matching row. Values are overwritten, never summed. |
| BucketAverage.BuildYearProductTable | report.py:145-146 | The loop produces `YearProductTable(ress)`. |
| BucketAverage.RetainedExactly | report.py:150-153 | A value is collected for a product in a run of years exactly when it is non-zero and is that product's value in one of those years. |
| BucketAverage.AddYearNone | report.py:151-153 | Before any product of a year is visited, the bucket is unchanged. |
| BucketAverage.AddYearStep | report.py:151-153 | Visiting a product with a zero value changes nothing. A non-zero value is appended to that product's list only, and the list is created if missing. |
| BucketAverage.ChunkBucket | report.py:148-153 | Every list in a chunk's bucket is non-empty and contains no zero. |
| BucketAverage.ChunkBucketRetained | report.py:148-153 | A product has a list in the chunk's bucket exactly when the chunk collects some value for it. That list is the collected values in year order. |
| BucketAverage.Bucketize | report.py:148-153 | Every entry of `output_dict` is a non-empty bucket of non-empty, zero-free lists. |
| BucketAverage.BucketizeKeys | report.py:148-149 | Every key of `output_dict` is the first year of some chunk. |
| BucketAverage.BucketizeAt | report.py:148-153 | When the chunks' first years are distinct, the entry for chunk `j` is that chunk's bucket. It is present exactly when the bucket collected something. |
| BucketAverage.OutputDict | report.py:140-153 | Every list in `output_dict` is non-empty, so the averages are defined. |
| BucketAverage.OutputDictBuckets | report.py:140-153 | Each year contributes only to the bucket of its own chunk of four. The list for a product under a chunk's first year exists exactly when the chunk collects a value for it, and it is those values in year order. |
| BucketAverage.OutputDictKeys | report.py:148-149 | Every key of `output_dict` is the first year of a chunk of the sorted years. |
| BucketAverage.MinOf | report.py:160 | The result is an element of the list and is at most every element. |
| BucketAverage.MaxOf | report.py:160 | The result is an element of the list and is at least every element. |
| BucketAverage.SumBetween | report.py:160 | When every value lies in `[lo, hi]`, the sum lies in `[n*lo, n*hi]`. |
| BucketAverage.MeanBetween | report.py:160 | When every value lies in `[lo, hi]`, the sum divided by the count lies in `[lo, hi]`. |
| BucketAverage.Average | report.py:160 | `sum(sales_list) / len(sales_list)` lies between the minimum and the maximum of the list. |
| BucketAverage.AverageReport | report.py:157-161 | Each `(first_year, product)` of `output_dict` yields one line. Every line is labelled `first_year` to `first_year + 3` and comes from an entry of `output_dict`. Its average is `Average` of that entry's list, so it lies between the list's minimum and maximum. |
| BucketAverage.CollectYear | report.py:150-153 | Visiting one year's products in any order appends each non-zero value under the first year. The bucket is created only when something is appended. |
| BucketAverage.CollectChunk | report.py:149-153 | After a chunk's years, `output_dict` equals the old one plus that chunk's bucket under its first year, if the bucket is non-empty. |
| BucketAverage.PrintTaskV | report.py:139-161 | The computed `output_dict` is `OutputDict(ress)`, and the report is `AverageReport` of it. |
| Scenarios.SixRowsYears | report.py:140 | The years of six diesel rows for 2000 to 2005, ascending. |
| Scenarios.SixYearChunks | report.py:148 | The years 2000 to 2005 form the chunks 2000-2003 and 2004-2005. |
| Scenarios.SixRowsSecondChunk | report.py:145-153 | The chunk 2004-2005 collects the diesel values 5 and 6. |
| Scenarios.BucketBoundaries | report.py:148-161 | For those six rows, `output_dict[2004]["diesel"]` is `[5, 6]`. The report holds the line labelled 2004 to 2007, with average 5.5, although the bucket covers only 2004 and 2005. |
| Scenarios.LastWriteWinsScenario | report.py:145-146 | Sales of 5 and then 8 for one year and product leave 8 in `input_dict`. |
| Scenarios.ZeroRowsYears | report.py:140 | The years of the three sample rows, ascending. |
| Scenarios.ZeroRowsTable | report.py:145-146 | The `input_dict` of the three sample rows. |
| Scenarios.ZeroRowsRetained | report.py:150-153 | Of the three sample years, only the non-zero values 5 and 10 are collected. |
| Scenarios.SingleChunkList | report.py:148-153 | When all years fit in one chunk, a product's list under the first year is what that chunk collects for it. |
| Scenarios.ZeroExclusionScenario | report.py:148-160 | With sales 0, 5 and 10 in three years, only 5 and 10 are collected under the first year, and they average to 7.5. |
| Scenarios.RepeatedRowsTable | report.py:145-146 | Sales of 10 and then 20 in one year leave only 20 in `input_dict`. |
| Scenarios.RepeatedRowsYears | report.py:140 | Both repeated rows give the single year 2000. |
| Scenarios.RepeatedSaleScenario | report.py:145-160 | Those two sales produce the list `[20]` and the average 20, not 15. |

## Left out

- Table creation, the SQLite connection and the commit (report.py:11-33) are not modelled. They are I/O. The tables are values passed in and returned.
- The HTTP fetch `_get_data` (report.py:164-166) is left out. It is network I/O, so the raw records are a parameter.
- `_populate_sales_data` (report.py:73-85) is modelled only as appending the facts to `petroleum_sales` in `Normalize.StartProcess`.
- `_load_data_from_database`, `_print_task_iii` and `_print_task_iv` (report.py:87-129) are not modelled. They are SQL queries run by the database, not code in the program.
- The query of `_print_task_v` (report.py:132-137) is not modelled. Its rows are a parameter of `PrintTaskV`, in whatever order the join returns them. With repeated `(year, product)` rows, that order decides which value wins.
- Logging, the `print` calls and the string formatting of the report are not modelled. The report is a set of `ReportLine` values, so the iteration order of `output_dict` and of its inner dictionaries is not captured.
- The order of `list(set(...))` (report.py:52, 66) is unspecified in Python. It is a parameter constrained to list every distinct name exactly once.
- `input_dict[single_year].items()` visits products in insertion order. `CollectYear` picks the products in an arbitrary order and is proved correct for every order, so insertion order is covered but not singled out.
- Floating point is not modelled. Sales and averages are exact reals, so rounding in `sum` and `/` is not captured.
- `PopulateCountryTable`, `PopulatePetroleumProducts`: the new id is the largest id in the table plus one. SQLite's `autoincrement` also never reuses the id of a deleted row (its `sqlite_sequence` counter), which is not modelled because the program never deletes rows.
- The `select *` queries that read a dimension table back (report.py:54, 68) have no `order by`. The model takes SQLite's scan order to be rowid order, which is insertion order here. `Normalize.NameToId` keeps the last row of each name in that order, so a different scan order could change which id wins for a name that appears twice.
- `Normalize.StartProcess`: failures of the inserts themselves are not modelled. Ids are unbounded integers, so the 2^63 - 1 ceiling of SQLite rowids is not modelled either; past it, an `autoincrement` insert fails with SQLITE_FULL. Any other storage error is also left out. The script commits only after creating the tables (report.py:32). So the rows a run loads are never committed, and each run starts from empty tables.
- The unused local `interval = 3` (report.py:139) has no counterpart. The label offset 3 of report.py:161 is the constant `LabelSpan`.
- A `KeyError` from a missing `'country'`, `'petroleum_product'`, `'year'` or `'sale'` field of a JSON record is not modelled. Records are typed values with all four fields.
