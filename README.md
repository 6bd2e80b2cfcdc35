# Map report filtering pipeline, modelled in Dafny

The program is a one-page map report. It reads a spreadsheet of geolocated
businesses and keeps six columns, fixing the three with wrong headers. It drops
the businesses that have no area ("Comuna"). It lists the distinct areas in
ascending order as a sidebar menu. The user picks areas from that menu, and the
table is narrowed to those areas before it is listed and drawn on a map. If the
user picks nothing, the whole table is shown.

This project models that pipeline (`mapviz.py`, lines 30-58) and proves what it
promises:

- `Wrappers` (wrappers.dfy): `Option` and `Result`.
- `Seqs` (seqs.dfy): a filter that keeps order (`Filter`), the subsequence
  relation, and lemmas saying a filter keeps exactly the matching elements, in order.
- `StringOrder` (strings.dfy): Python's ordering of strings (code point by code
  point, with a proper prefix first). It also gives an ascending sort and pandas'
  `unique`, which keeps each value's first occurrence.
- `MapViz` (mapviz.dfy): the raw sheet, the projection and rename, the in-place
  null filter (class `Frame`), the area catalog, the selection filter, and one
  run of the script (`Run`).

The raw sheet is a set of header names plus rows that map each header to a cell.
A cell is blank (what the reader gives for a missing value), text, or a number.
Numbers are kept as an uninspected 64-bit pattern (an IEEE double or an int64), because latitude
and longitude are only passed along. A record has the six fields CODIGO,
Negocio, Dirección, Comuna, LATITUD and LONGITUD. `comuna` is an
`Option<string>` that is `None` where the area cell was blank. After the null
filter, every record satisfies `HasArea`.

## Model

| member | source | states |
|---|---|---|
| `MapViz.ProjectedHeader` | mapviz.py:30-34 | Selecting the six source headers and renaming them gives exactly the columns CODIGO, Negocio, Dirección, Comuna, LATITUD, LONGITUD, in that order |
| `MapViz.AbsentColumns` | mapviz.py:30 | The required headers missing from the sheet, as a subsequence of the required list (so in required order). It is empty exactly when all six are present |
| `MapViz.ProjectedColumns` | mapviz.py:30-34 | For each of the six positions, the record column's name is the source header after the rename, and the record shows the same cell that the row held under that header |
| `MapViz.FirstNumericArea` | mapviz.py:43 | Finds the first row whose area cell is a number, or reports that there is none. This is the row that `NonTextArea` reports. The error fires on any number in the area column. It stands in for the failure that sorting mixed text and numbers causes at line 43, but it also fires on an all-numeric column, which pandas would sort without error |
| `MapViz.Project` | mapviz.py:30-34 | Fails with the list of missing headers exactly when a required header is absent. With every header present, it fails with `NonTextArea` at the first row whose area cell is a number. Otherwise it gives one record per row, in row order, and each field equals the cell in its source column (CODIGO, NOMBRE FANTASIA, CERRO BLANCO 625, MAIPU, LATITUD, LONGITUD). A blank area becomes `None` and a text area becomes its text |
| `MapViz.KeepPresent` | mapviz.py:36 | Every kept record has an area. The result is a subsequence of the input (same records, same relative order). Each record with an area keeps its full multiplicity, and each record without one is gone |
| `MapViz.KeepPresentIdempotent` | mapviz.py:36 | Dropping missing areas a second time changes nothing |
| `MapViz.KeepPresentOfFiltered` | mapviz.py:36 | A table whose records all have an area passes the null filter unchanged |
| `MapViz.Frame.constructor` | mapviz.py:30-34 | The working table starts out holding the projected records |
| `MapViz.Frame.DropMissingArea` | mapviz.py:36 | The in-place drop replaces the table with `KeepPresent` of its old contents, and afterwards every record has an area |
| `MapViz.AreaValues` | mapviz.py:43 | The `Comuna` column of a null-filtered table, one value per record in record order |
| `MapViz.Catalog` | mapviz.py:43 | The area menu is strictly ascending, so it is sorted with no duplicates. A value is in it exactly when some record of the table has that area |
| `MapViz.Query` | mapviz.py:58 | The view is a subsequence of the table. Each of its records has a selected area. Each record whose area is selected keeps its full multiplicity, and every other record is gone |
| `MapViz.Select` | mapviz.py:53-58 | With an empty selection the view is the table itself. With a non-empty one it is exactly the ordered subsequence of records whose area is selected |
| `MapViz.SelectAbsent` | mapviz.py:57-58 | A non-empty selection made only of areas that occur nowhere yields an empty view, not the whole table |
| `MapViz.QueryIgnoresAbsent` | mapviz.py:58 | Selected areas that occur in no record do not affect the query |
| `MapViz.SelectWholeCatalog` | mapviz.py:43-58 | Selecting every entry of the menu shows the whole null-filtered table, the same view as selecting nothing |
| `MapViz.Run` | mapviz.py:30-58 | One run of the script either fails with the projection's error, or shows the catalog of the null-filtered table together with its selection view |
| `Seqs.Filter` | mapviz.py:36 | The kept elements all pass the test, are elements of the input, and are no more numerous than the input |
| `Seqs.FilterIsSubsequence` | mapviz.py:36 | The kept elements form a subsequence of the input |
| `Seqs.FilterCount` | mapviz.py:58 | An element that passes keeps its multiplicity, and an element that fails has none |
| `Seqs.FilterAll` | mapviz.py:36 | When every element passes, the filter returns its input |
| `Seqs.FilterAgree` | mapviz.py:58 | Two tests that agree on every element keep the same elements |
| `Seqs.SubsequenceOfSelf` | mapviz.py:53 | A table is a subsequence of itself (the unfiltered view) |
| `StringOrder.LeqReflexive` | mapviz.py:43 | Python's string `<=` is reflexive |
| `StringOrder.LeqTotal` | mapviz.py:43 | Any two strings are comparable |
| `StringOrder.LeqAntisymmetric` | mapviz.py:43 | Strings that are each `<=` the other are equal |
| `StringOrder.LeqTransitive` | mapviz.py:43 | The string order is transitive |
| `StringOrder.Insert` | mapviz.py:43 | Inserting into an ascending sequence keeps it ascending and adds exactly that one value |
| `StringOrder.Sort` | mapviz.py:43 | `sort_values` gives an ascending rearrangement of its input |
| `StringOrder.SortedPermutationUnique` | mapviz.py:43 | Two ascending rearrangements of the same values are equal, so the sorting algorithm pandas uses does not change the result |
| `StringOrder.FirstIndex` | mapviz.py:43 | The position where a value first occurs: it holds the value, and no earlier position does |
| `StringOrder.Unique` | mapviz.py:43 | `unique` holds exactly the values of its input, with no duplicates, ordered by where each value first occurs in the input |
| `StringOrder.UniqueOfSorted` | mapviz.py:43 | Applied to an ascending sequence, `unique` gives a strictly ascending one |

## Left out

- Page setup, sidebar text, `st.write` and the `multiselect` widget (mapviz.py:7-10, 21-26, 39-50, 62, 102) are user interface. The widget's choice is the `selection` parameter of `Run`, `Select` and `Query`. The widget only offers catalog entries, but the model accepts any list of strings.
- Loading the sheet with `pd.read_excel(..., header=9)` and the `@st.cache` memoisation (mapviz.py:13-18) are file I/O and framework caching. The model takes the sheet, as the reader delivers it, as `RawTable`. The reader's own rules (header row 9, which strings count as missing, renaming duplicate headers) are not modelled. `WellFormed` records only what any data frame satisfies: every row has exactly the sheet's columns.
- The centroid `np.average` of latitude and longitude (mapviz.py:65-66) is IEEE floating-point arithmetic and is undefined (NaN) on an empty view. Coordinates stay an uninspected bit pattern.
- The pydeck map, its layer, view state and tooltip template (mapviz.py:70-100) are third-party rendering only.
- `set_index("CODIGO")` (mapviz.py:62) only changes how the listing is displayed.
- MapViz.Project: a number in the area column is reported as `NonTextArea` at projection time. pandas would carry the number on, and fail only at the sort on line 43 if text and numbers are mixed there. So an area column made entirely of numbers, which pandas would sort numerically, is not modelled.
- Cell kinds: a cell is blank, text or a number. The booleans and dates the reader can also deliver are not modelled. In the area column, pandas would fail on them at the sort on line 43, just as it does on numbers mixed with text.
- MapViz.Catalog: defined only on a null-filtered table, which is the only place the script computes it. The position pandas gives to a missing value in `sort_values().unique()` is not modelled.
- The update of the table in place is modelled as reassigning the `Frame`'s sequence field. Other aliases of the pandas object are not modelled, because the script has none apart from `geo_data` on line 53; `Run` reads that field after the drop.
