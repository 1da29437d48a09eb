# FileFinder table model in Dafny

FileFinder lists every file under one or more root directories in a Qt table. The
user types filter words into a search box, and the table shows the files whose
full path contains all of those words, ignoring case. `TableModel` holds the list
of files and shows it page by page. It keeps a forward-only cursor made of two
parts:

- `loaded_row_count`: how many rows of `data` have been tested against the filter;
- `filtered_rows`: the indices of the rows that passed, with `filtered_row_count`
  as its length.

When the view asks for more rows, `fetchMore` scans on until 25 more rows have
passed or the rows run out. A new filter or a new sort order rewinds the cursor.
`sort` reorders the rows in place with Python's stable list sort and skips a
request identical to the previous one.

The project has five modules, one per file:

- `PyStrings` (`pystrings.dfy`): the three Python 2 string builtins the model
  relies on: `lower()`, `split()` and the substring test `in`.
- `Entries` (`entries.dfy`): a file row `(name, dirpath, size, mtime)`, the path
  join of `internalGetFilepath`, the filter test applied to one row, and the word
  list `setFilter` builds.
- `Cursor` (`cursor.dfy`): the scan of `filterMoreRows`, stated for any row test:
  - `MatchingIndices` is the list of passing indices over a stretch of rows;
  - `ScanEnd` is where a scan that asks for `count` rows stops;
  - `Scan` is the loop itself, proved against both.
- `Sorting` (`sorting.dfy`): the column order of `sort`. `SortRows` is a
  reference stable sort, with lemmas stating that it orders, permutes and is
  stable, and that it is the only result with those three properties.
- `FileFinder` (`filefinder.dfy`): the class `TableModel`.
  - Its fields are the model's state.
  - `Valid()` is the cursor invariant: the visible rows are exactly the loaded
    rows that pass the filter, in order, and the counter equals their number.
  - Each operation is a method or function over those fields.

## Model

| member | source | states |
|---|---|---|
| PyStrings.Lower | filefinder.py:124 | `unicode.lower()`, character by character, as also used at line 185; its meaning is stated by `LowerSpec` |
| PyStrings.LowerSpec | filefinder.py:122-124 | `lower()` keeps the length, maps each character on its own and leaves no upper-case letter |
| PyStrings.LowerIdempotent | filefinder.py:124 | a sanity property of `Lower` that the code does not rely on: lower-casing twice is lower-casing once |
| PyStrings.LowerOfNoUpper | filefinder.py:183-185 | text without upper-case letters is its own lower case |
| PyStrings.Split | filefinder.py:185 | `split()` yields non-empty words without whitespace |
| PyStrings.SplitChars | filefinder.py:185 | every character of every word comes from the input |
| PyStrings.SplitSkipsSpace | filefinder.py:185 | whitespace in front of the text, of any kind and length, yields no word |
| PyStrings.SplitJoined | filefinder.py:185 | words separated by non-empty runs of any whitespace, with any whitespace before and after, split into exactly those words: each run is one separator, and runs at either end are ignored |
| PyStrings.SplitKeepsNonSpace | filefinder.py:185 | `split()` drops only whitespace: the words run together equal the input with whitespace removed |
| PyStrings.SplitJoinSpaced | filefinder.py:185 | `split()` undoes `" ".join()` on non-empty words without whitespace |
| PyStrings.Contains | filefinder.py:127 | `filter_word in filepath`; its meaning is stated by `ContainsIffOccurs` |
| PyStrings.ContainsIffOccurs | filefinder.py:127 | `w in path` holds exactly when `w` occurs at some position of `path` |
| PyStrings.ContainsTransitive | filefinder.py:127 | a word inside a word that occurs in the path occurs in the path |
| Entries.PathJoin | filefinder.py:106 | `os.path.join(dirpath, filename)`, POSIX rules; its contract is stated by `PathJoinParts` |
| Entries.PathJoinParts | filefinder.py:102-107 | the joined path ends with the file name. A relative name is appended to the directory. A separator goes between them unless the directory is empty or already ends with one |
| Entries.FilePath | filefinder.py:102-107 | the path of a row: its name joined to its directory |
| Entries.Matches | filefinder.py:126-127 | a row passes exactly when there are no filter words or every filter word occurs in its lower-cased full path |
| Entries.AllOccur | filefinder.py:127 | `all([filter_word in filepath for ...])`, word by word; its meaning is stated by `AllOccurEach` |
| Entries.AllOccurEach | filefinder.py:126-127 | the `all([...])` test holds exactly when every filter word occurs in the path |
| Entries.FilterWords | filefinder.py:183-185 | the stored filter words are non-empty, hold no whitespace and no upper-case letter |
| Entries.FilterWordsOfJoin | filefinder.py:183-185 | typing the stored words back, separated by spaces, gives the same words |
| Entries.RefinedFilterNarrows | filefinder.py:122-128 | if every old word is part of some new word, every row that passes the new filter passes the old one |
| Cursor.MatchingIndices | filefinder.py:114-131 | scanning a stretch of rows appends at most one index per row scanned |
| Cursor.MatchingIndicesSpec | filefinder.py:114-131 | the appended indices are strictly increasing, lie in the scanned stretch, are all of rows that pass, and include every passing row of the stretch |
| Cursor.MatchingIndicesAppend | filefinder.py:111-133 | scanning one stretch and then the next finds what scanning both at once finds |
| Cursor.ScanEnd | filefinder.py:114-131 | the scan never moves the cursor back nor past the end of `data` |
| Cursor.ScanEndCount | filefinder.py:114-133 | the scan adds at most `count` rows, stops short of `count` only at the end of `data`, stops right after the `count`-th passing row, and does not move when `count <= 0` |
| Cursor.ScanEndCompose | filefinder.py:137-147 | fetching `a` rows and then `b` more ends where fetching `a + b` at once ends |
| Cursor.Scan | filefinder.py:111-133 | the loop stops at `ScanEnd` and returns exactly the passing indices of the stretch it scanned |
| Sorting.StrLe | filefinder.py:211 | `cmp(a, b) <= 0` on strings; its meaning is stated by `StrLeLexicographic` |
| Sorting.StrLeLexicographic | filefinder.py:211 | `StrLe(a, b)` holds exactly when `a` is a prefix of `b` or, at the first position where they differ, `a` has the smaller character |
| Sorting.ColumnLe | filefinder.py:211 | `cmp(x[section], y[section]) <= 0` for each of the four columns; `InOrderTotal`, `InOrderTransitive` and `InOrderBothWays` state its properties |
| Sorting.InOrder | filefinder.py:209-212 | the column comparator, reversed when `sort_order` is descending (`reverse=...` at line 210); `InOrderTotal`, `InOrderTransitive` and `InOrderBothWays` state its properties |
| Sorting.InOrderTotal | filefinder.py:209-212 | any two rows can be ordered by the column |
| Sorting.InOrderTransitive | filefinder.py:209-212 | the column order is transitive, in either direction |
| Sorting.InOrderBothWays | filefinder.py:209-212 | two rows are in order both ways exactly when `cmp` of their keys is 0 |
| Sorting.Insert | filefinder.py:209-212 | inserting a row adds exactly that row |
| Sorting.SortRows | filefinder.py:209-212 | the sorted rows are a permutation of the rows |
| Sorting.SortRowsSorted | filefinder.py:209-212 | the sorted rows are ordered by the column, descending when asked |
| Sorting.SortRowsStable | filefinder.py:191-199 | rows with equal keys keep their relative order, also in descending order |
| Sorting.SortRowsOfSorted | filefinder.py:201-205 | sorting rows already in the requested order changes nothing |
| Sorting.SortRowsUnique | filefinder.py:191-212 | any ordered, stable permutation of the rows equals `SortRows` of them |
| Sorting.KeyClassSorted | filefinder.py:196-199 | the rows of one key class, taken from rows sorted by another column, are still sorted by that column |
| Sorting.KeyClassPositions | filefinder.py:196-199 | two rows of one key class appear in that class in the order they have in the listing |
| Sorting.SortTwiceByTwoKeys | filefinder.py:196-199 | sorting by one column and then by another orders the rows by the second column and, among rows equal there, by the first: several columns are combined by sorting the least important first |
| FileFinder.TableModel.constructor | filefinder.py:72-79 | the new model holds the given rows and headers, no filter words and no previous sort; its cursor is valid and at the start |
| FileFinder.TableModel.Valid | filefinder.py:154 | the cursor invariant: the visible rows are exactly the loaded rows that pass the filter, in order, and the counter equals their number, which is at most the number of loaded rows |
| FileFinder.TableModel.VisibleRows | filefinder.py:111-134 | under the cursor invariant, the visible rows are strictly increasing indices below the cursor of rows that pass the filter, every passing loaded row is among them, and `filtered_row_count` is their number |
| FileFinder.TableModel.Reset | filefinder.py:178-181 | both counters are 0, no row is visible, and nothing else changes |
| FileFinder.TableModel.SetFilter | filefinder.py:183-188 | the filter words become `filter.lower().split()` and the cursor rewinds; the rows and the sort request are kept |
| FileFinder.TableModel.FilterMoreRows | filefinder.py:111-133 | the cursor moves to `ScanEnd`; the indices appended are exactly the passing rows scanned; at most `count` are added, exactly `count` unless `data` ran out; the invariant is kept |
| FileFinder.TableModel.FetchMore | filefinder.py:137-147 | the root index loads a batch of 25 and announces the range of new visible rows; any other index changes nothing |
| FileFinder.TableModel.CanFetchMore | filefinder.py:95-100 | false for a valid index; otherwise true exactly while rows remain to be loaded; once all are loaded, the visible rows are all passing rows of `data` |
| FileFinder.TableModel.RowCount | filefinder.py:150-164 | 0 for a valid index; otherwise the number of visible rows, which is at most the number of loaded rows |
| FileFinder.TableModel.InternalGetFilepath | filefinder.py:102-107 | the full path of a row ends with its file name. A relative name follows the directory, with a separator between them unless the directory is empty or ends with one. An absolute name is the path itself |
| FileFinder.TableModel.GetFilepath | filefinder.py:175-176 | defined exactly for the visible row positions Python's list indexing accepts, negative ones included. The path returned is that of the visible row at that position, counted from the end when negative, and that row is loaded and passes the filter |
| FileFinder.TableModel.Sort | filefinder.py:190-219 | the rows become `SortRows` of the old rows: a permutation ordered by the column; an identical repeated request leaves them unchanged; the request is recorded and the cursor rewinds |
| FileFinder.InitOutcome | filefinder.py:72-79 | the constructor as written succeeds exactly when `data` is non-empty and has four headers, and raises IndexError exactly when `data` is empty |
| FileFinder.EmptyListingRejected | filefinder.py:289-303 | with no files under the roots and the standard four headers, the constructor as written raises IndexError |

## Left out

- Qt notifications are not modelled: `beginInsertRows`/`endInsertRows` and `beginResetModel`/`endResetModel`.
- FetchMore: when a batch adds no visible row, the range announced is empty, with `last == first - 1`. What Qt does with such a range is not modelled.
- FetchMore: returns the row range it would pass to `beginInsertRows`. It does not return Python's own value, which is `False` for a valid index and `None` otherwise; Qt ignores that value.
- `data()`, `headerData()` and `columnCount()` are display callbacks and are not modelled.
- `filteredRowCount()`, `loadedRowCount()` and `totalRowCount()` are plain reads of the fields, which the class exposes directly.
- The `print` diagnostics are not modelled.
- A `QModelIndex` argument is reduced to what the code reads from it:
  - `index.isValid()` becomes a `bool`;
  - `ix.row()` in `getFilepath` becomes an `int`.
- GetFilepath: the IndexError of an out-of-range row is the `None` result.
- PyStrings.LowerSpec: `lower()` folds only the ASCII letters A-Z; full Unicode case mapping is not modelled.
- Entries.PathJoinParts: `os.path.join` follows the POSIX rules only (separator `/`); the Windows rules (drive letters, `\`) are not modelled.
- String keys are compared as sequences of code points. The UTF-16 code-unit order of narrow Python 2 builds is not modelled.
- `mtime` is an integer rather than a `QDateTime`.
- Sort: the `section` argument is one of the four columns 0 to 3. Python also accepts sections -4 to -1, which index the row tuple from the end and so sort by one of the same four columns. Any other section makes `x[section]` raise IndexError as soon as two rows are compared; that case is not modelled.
- `data` is a sequence value. Sorting in place therefore does not change a list the caller still holds, as it does in Python.
- FilterMoreRows: the scan loop is `Cursor.Scan`, generic in the row test. It returns the indices that passed, and `FilterMoreRows` appends them to `filtered_rows` after the scan rather than one at a time. Nothing can observe the list between those steps.
- Sort: Python's sorting algorithm is not modelled. `SortRows` is an insertion sort, and `SortRowsUnique` shows that every ordered, stable permutation equals its result, so the library's result must equal it too.
- These parts are not part of this model, because they are I/O, user interface or process launching:
  - `get_entries_qt_dirit`, the directory walk over `QDirIterator`;
  - `launch_with_preferred_app`, `MyTableView`, `MainWindow` and `main`.
- listdir-perf.py is a timing benchmark over threads and the file system and is not part of this model.
- An incremental database synchronizer does not appear in these sources and is not part of this model.

## Findings

| source | as written | input that shows it | evidently intended | confidence | as-written member | corrected member |
|---|---|---|---|---|---|---|
| filefinder.py:79 | `__init__` checks the header count against `len(self.data[0])`, the width of the first row | root directories holding no files give `entries == []` (filefinder.py:289-303); `TableModel([], ["Name", "Path", "Size", "Date"])` raises IndexError | an empty listing gives an empty table: the headers are checked against the fixed row width of four fields | not executed | FileFinder.EmptyListingRejected | FileFinder.TableModel.constructor |
