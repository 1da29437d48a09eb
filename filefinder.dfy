/** The table model of filefinder.py: the list of file rows, the filter words
    typed in the search box, and a forward-only cursor that loads filtered rows
    on demand (`canFetchMore`/`fetchMore`) and is rewound whenever the filter or
    the sort order changes. Qt's change notifications are not modelled; where a
    method announces a row range to the view it returns that range instead. */
module FileFinder {
  import opened Entries
  import opened Cursor
  import opened Sorting

  datatype Option<T> = None | Some(value: T)

  /** A `(section, sort_order)` pair as `sort` receives it. */
  datatype SortRequest = SortRequest(section: Column, order: SortOrder)

  /** The `first..last` range `fetchMore` passes to `beginInsertRows`. */
  datatype RowRange = RowRange(first: int, last: int)

  /** After a sort the rows stay in the order it asked for until the next one. */
  ghost predicate SortedAsRequested(data: seq<Row>, last: Option<SortRequest>) {
    last.Some? ==> Sorted(data, last.value.section, last.value.order)
  }

  /** How many more filtered rows one `fetchMore` asks for. */
  const FetchBatch: int := 25

  /** Rows are `(name, dirpath, size, mtime)`, one header per field. */
  const ColumnCount: nat := 4

  class TableModel {
    var data: seq<Row>
    var headers: seq<string>
    var filterWords: seq<string>
    var lastSortSectionOrder: Option<SortRequest>
    var loadedRowCount: nat
    var filteredRowCount: nat
    /** Maps each visible row to its index in `data`. */
    var filteredRows: seq<nat>

    /** What holds of the model whatever the cursor: four headers, well-formed
        filter words, and the rows in the order of the last sort request. */
    ghost predicate Consistent()
      reads this`headers, this`filterWords, this`data, this`lastSortSectionOrder
    {
      && |headers| == ColumnCount
      && (forall w :: w in filterWords ==> WellFormedWord(w))
      && SortedAsRequested(data, lastSortSectionOrder)
    }

    /** The cursor invariant: the visible rows are exactly the rows among the
        first `loadedRowCount` that pass the filter, in order, and the count the
        view is given is the length of that list. */
    ghost predicate Valid()
      reads this
      ensures Valid() ==> filteredRowCount == |filteredRows| <= loadedRowCount <= |data|
    {
      && Consistent()
      && loadedRowCount <= |data|
      && filteredRowCount == |filteredRows|
      && filteredRows == MatchingIndices(data, RowFilter(filterWords), 0, loadedRowCount)
    }

    /** Nothing loaded, nothing shown. */
    ghost predicate AtStart()
      reads this
    {
      loadedRowCount == 0 && filteredRowCount == 0 && filteredRows == []
    }

    /** What the cursor invariant means for the visible rows: they are strictly
        increasing indices below `loadedRowCount` of rows that pass the filter,
        every loaded row that passes is among them, and the counter the view
        reads is their number. */
    lemma VisibleRows()
      requires Valid()
      ensures filteredRowCount == |filteredRows| <= loadedRowCount <= |data|
      ensures Increasing(filteredRows)
      ensures forall k :: 0 <= k < |filteredRows| ==>
                filteredRows[k] < loadedRowCount && Matches(data[filteredRows[k]], filterWords)
      ensures forall i :: 0 <= i < loadedRowCount && Matches(data[i], filterWords) ==> i in filteredRows
    {
      MatchingIndicesSpec(data, RowFilter(filterWords), 0, loadedRowCount);
      forall k | 0 <= k < |filteredRows|
        ensures filteredRows[k] < loadedRowCount && Matches(data[filteredRows[k]], filterWords)
      {
        assert RowFilter(filterWords)(data[filteredRows[k]]);
      }
      forall i | 0 <= i < loadedRowCount && Matches(data[i], filterWords) ensures i in filteredRows {
        assert RowFilter(filterWords)(data[i]);
      }
    }

    /** `__init__`. It accepts an empty row list; see `InitOutcome` for the
        check the constructor performs as written. */
    constructor (data: seq<Row>, headers: seq<string>)
      requires |headers| == ColumnCount
      ensures Valid() && AtStart()
      ensures this.data == data && this.headers == headers
      ensures filterWords == [] && lastSortSectionOrder == None
    {
      this.data := data;
      this.headers := headers;
      filterWords := [];
      lastSortSectionOrder := None;
      loadedRowCount, filteredRowCount, filteredRows := 0, 0, [];
    }

    /** `reset`: rewinds the cursor, touching nothing else. */
    method Reset()
      requires Consistent()
      modifies this
      ensures Valid() && AtStart()
      ensures data == old(data) && headers == old(headers) && filterWords == old(filterWords)
      ensures lastSortSectionOrder == old(lastSortSectionOrder)
    {
      loadedRowCount := 0;
      filteredRowCount := 0;
      filteredRows := [];
    }

    /** `setFilter`: stores the lower-cased words of `filter` and rewinds. */
    method SetFilter(filter: string)
      requires Valid()
      modifies this
      ensures Valid() && AtStart()
      ensures filterWords == FilterWords(filter)
      ensures data == old(data) && headers == old(headers)
      ensures lastSortSectionOrder == old(lastSortSectionOrder)
    {
      filterWords := FilterWords(filter);
      Reset();
    }

    /** `filterMoreRows`: scans on from the cursor, appending the index of every
        row that passes the filter, until `count` rows were added or the rows
        run out. The new cursor is `ScanEnd` of the old one and the indices
        appended are exactly the passing rows of the stretch scanned: at most
        `count` of them, and exactly `count` unless the rows ran out. */
    method FilterMoreRows(count: int)
      requires Valid()
      modifies this
      ensures Valid()
      ensures data == old(data) && headers == old(headers) && filterWords == old(filterWords)
      ensures lastSortSectionOrder == old(lastSortSectionOrder)
      ensures old(loadedRowCount) <= loadedRowCount
      ensures loadedRowCount == ScanEnd(data, RowFilter(filterWords), old(loadedRowCount), count)
      ensures filteredRows
           == old(filteredRows) + MatchingIndices(data, RowFilter(filterWords), old(loadedRowCount), loadedRowCount)
      ensures count > 0 ==> filteredRowCount - old(filteredRowCount) <= count
      ensures count > 0 && loadedRowCount < |data| ==> filteredRowCount - old(filteredRowCount) == count
      ensures count <= 0 ==> loadedRowCount == old(loadedRowCount) && filteredRows == old(filteredRows)
    {
      ScanEndCount(data, RowFilter(filterWords), loadedRowCount, count);
      var loaded, found := Scan(data, RowFilter(filterWords), loadedRowCount, count);
      MatchingIndicesAppend(data, RowFilter(filterWords), 0, loadedRowCount, loaded);
      filteredRows := filteredRows + found;
      loadedRowCount := loaded;
      filteredRowCount := filteredRowCount + |found|;
    }

    /** `fetchMore`: for the root index, loads the next batch of filtered rows
        and returns the range of new visible rows it announces to the view;
        for any other index it does nothing. */
    method FetchMore(indexValid: bool) returns (announced: Option<RowRange>)
      requires Valid()
      modifies this
      ensures Valid()
      ensures data == old(data) && headers == old(headers) && filterWords == old(filterWords)
      ensures lastSortSectionOrder == old(lastSortSectionOrder)
      ensures indexValid ==> announced == None && loadedRowCount == old(loadedRowCount)
                              && filteredRows == old(filteredRows)
      ensures old(loadedRowCount) <= loadedRowCount
      ensures !indexValid ==>
                && loadedRowCount == ScanEnd(data, RowFilter(filterWords), old(loadedRowCount), FetchBatch)
                && filteredRows == old(filteredRows)
                     + MatchingIndices(data, RowFilter(filterWords), old(loadedRowCount), loadedRowCount)
                && announced == Some(RowRange(old(filteredRowCount), filteredRowCount - 1))
    {
      if indexValid {
        return None;
      }
      var first := filteredRowCount;
      FilterMoreRows(FetchBatch);
      announced := Some(RowRange(first, filteredRowCount - 1));
    }

    /** `canFetchMore`: more rows can be loaded for the root index while the
        cursor has not reached the end of the data; once it has, the visible
        rows are all the rows that pass the filter. */
    function CanFetchMore(indexValid: bool): (r: bool)
      reads this
      requires Valid()
      ensures r <==> !indexValid && loadedRowCount < |data|
      ensures !indexValid && !r ==> filteredRows == MatchingIndices(data, RowFilter(filterWords), 0, |data|)
    {
      if indexValid then false else loadedRowCount < |data|
    }

    /** `rowCount`: 0 for any index but the root; for the root, the number of
        visible rows (the method asserts the counter matches the list). */
    function RowCount(indexValid: bool): (r: nat)
      reads this
      requires Valid()
      ensures indexValid ==> r == 0
      ensures !indexValid ==> r == |filteredRows| && r <= loadedRowCount
    {
      if indexValid then 0
      else
        assert filteredRowCount == |filteredRows|;
        filteredRowCount
    }

    /** `internalGetFilepath`: the full path of row `row` of `data`: its name
        joined to its directory, or the name alone when that is absolute. */
    function InternalGetFilepath(row: nat): (r: string)
      reads this
      requires row < |data|
      ensures |data[row].name| <= |r| && r[|r| - |data[row].name|..] == data[row].name
      ensures var d, n := data[row].dirpath, data[row].name;
              (n == [] || n[0] != Sep) ==>
                if d != [] && d[|d| - 1] != Sep then r == d + [Sep] + n else r == d + n
      ensures data[row].name != [] && data[row].name[0] == Sep ==> r == data[row].name
    {
      PathJoinParts(data[row].dirpath, data[row].name);
      FilePath(data[row])
    }

    /** `getFilepath`: the full path of visible row `row`. Python list indexing
        applies: a negative row counts from the end, and a row out of range
        raises IndexError (`None` here). The path returned is that of the
        `row`-th visible row, a loaded row that passes the filter. */
    function GetFilepath(row: int): (r: Option<string>)
      reads this
      requires Valid()
      ensures r.Some? <==> -|filteredRows| <= row < |filteredRows|
      ensures r.Some? ==> var k := if row < 0 then |filteredRows| + row else row;
                            0 <= k < |filteredRows| && filteredRows[k] < loadedRowCount
                            && Matches(data[filteredRows[k]], filterWords)
                            && r.value == FilePath(data[filteredRows[k]])
    {
      var n := |filteredRows|;
      if -n <= row < n then
        var k := if row < 0 then n + row else row;
        MatchingIndicesSpec(data, RowFilter(filterWords), 0, loadedRowCount);
        assert RowFilter(filterWords)(data[filteredRows[k]]);
        Some(InternalGetFilepath(filteredRows[k]))
      else None
    }

    /** `sort`: a request equal to the previous one leaves `data` as it is;
        any other request sorts `data` stably by the column. Either way `data`
        ends up as `SortRows` of the old rows (a repeated request finds them
        already in that order), the request is recorded and the cursor rewinds. */
    method Sort(section: Column, order: SortOrder)
      requires Valid()
      modifies this
      ensures Valid() && AtStart()
      ensures headers == old(headers) && filterWords == old(filterWords)
      ensures lastSortSectionOrder == Some(SortRequest(section, order))
      ensures data == SortRows(old(data), section, order)
      ensures multiset(data) == multiset(old(data)) && Sorted(data, section, order)
      ensures old(lastSortSectionOrder) == Some(SortRequest(section, order)) ==> data == old(data)
    {
      var request := SortRequest(section, order);
      if lastSortSectionOrder != Some(request) {
        SortRowsSorted(data, section, order);
        data := SortRows(data, section, order);
        lastSortSectionOrder := Some(request);
      } else {
        SortRowsOfSorted(data, section, order);
      }
      Reset();
    }
  }

  // ---------------------------------------------------------------------------
  // `__init__` as written

  datatype InitResult = Constructed | IndexError | AssertionError

  /** What `__init__` does with its arguments as written: it checks the header
      count against `len(data[0])`, which raises IndexError when `data` is
      empty, before it can compare anything. */
  function InitOutcome(data: seq<Row>, headers: seq<string>): (r: InitResult)
    ensures r == Constructed <==> |data| > 0 && |headers| == ColumnCount
    ensures r == IndexError <==> |data| == 0
  {
    if |data| == 0 then IndexError
    else if |headers| != ColumnCount then AssertionError
    else Constructed
  }

  /** A search root holding no files gives an empty row list, and the model
      as written cannot be built for it even with the four standard headers. */
  lemma EmptyListingRejected()
    ensures InitOutcome([], ["Name", "Path", "Size", "Date"]) == IndexError
  {
  }
}
