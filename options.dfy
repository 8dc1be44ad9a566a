/** The table's configuration as a value. Every setter takes a table and
    returns an updated copy, so a chain of calls reads as in the library:
    New(columns).WithRows(rows).SortByAsc("id"). */
module Options {
  import opened TableTypes
  import Sorting

  /** The key of the synthetic leading column that shows selection. Its
      literal is the library's reserved name; only its identity matters. */
  const ColumnKeySelect: string := "___select___"

  const SelectColumn: Column := NewColumn(ColumnKeySelect, "[x]", 3)

  datatype Model = Model(
    columns: seq<Column>,
    rows: seq<Row>,
    sortOrder: seq<SortColumn>,
    sortedRows: seq<Row>,
    selectableRows: bool,
    selectedRows: seq<Row>,
    focused: bool,
    keyMap: KeyMap,
    headerStyle: Style,
    highlightStyle: Style,
    rowCursorIndex: int)
  {
    /** Sets the style of the header text; nothing else changes. */
    function HeaderStyle(style: Style): (r: Model)
      ensures r.headerStyle == style
      ensures r.(headerStyle := headerStyle) == this
    {
      this.(headerStyle := style)
    }

    /** Sets the source rows; nothing else changes, not even the sorted rows. */
    function WithRows(rows': seq<Row>): (r: Model)
      ensures r.rows == rows'
      ensures r.(rows := rows) == this
    {
      this.(rows := rows')
    }

    /** Sets the key map; nothing else changes. */
    function WithKeyMap(keyMap': KeyMap): (r: Model)
      ensures r.keyMap == keyMap'
      ensures r.(keyMap := keyMap) == this
    {
      this.(keyMap := keyMap')
    }

    /** The key map in use. */
    function KeyMap(): KeyMap
    {
      keyMap
    }

    /** Turns selection on or off. Turning it on puts the select column in
        front unless it is already there; turning it off drops the first
        column if it is the select column. The list changes only when its
        first column disagrees with the flag. */
    function SelectableRows(selectable: bool): (r: Model)
      requires |columns| > 0
      ensures r.selectableRows == selectable
      ensures r.(selectableRows := selectableRows, columns := columns) == this
      ensures selectable && columns[0].key != ColumnKeySelect ==> r.columns == [SelectColumn] + columns
      ensures !selectable && columns[0].key == ColumnKeySelect ==> r.columns == columns[1..]
      ensures (columns[0].key == ColumnKeySelect) == selectable ==> r.columns == columns
    {
      var hasSelectColumn := columns[0].key == ColumnKeySelect;
      var columns' :=
        if hasSelectColumn != selectable then
          if selectable then [SelectColumn] + columns else columns[1..]
        else columns;
      this.(selectableRows := selectable, columns := columns')
    }

    /** The row under the cursor, looked up in the source rows, or an empty
        row when there are none. */
    function HighlightedRow(): (r: Row)
      requires |rows| > 0 ==> 0 <= rowCursorIndex < |rows|
      ensures |rows| > 0 ==> r == rows[rowCursorIndex]
      ensures |rows| == 0 ==> r == EmptyRow
    {
      if |rows| > 0 then rows[rowCursorIndex] else EmptyRow
    }

    /** The row under the cursor as the table shows it: the cursor counts
        the rows in sort order, so it indexes the sorted rows; an empty row
        when there are none. */
    function HighlightedVisibleRow(): (r: Row)
      requires |sortedRows| > 0 ==> 0 <= rowCursorIndex < |sortedRows|
      ensures |sortedRows| > 0 ==> r == sortedRows[rowCursorIndex]
      ensures |sortedRows| == 0 ==> r == EmptyRow
    {
      if |sortedRows| > 0 then sortedRows[rowCursorIndex] else EmptyRow
    }

    /** The rows recorded as selected. */
    function SelectedRows(): seq<Row>
    {
      selectedRows
    }

    /** Sets the style of the highlighted row; nothing else changes. */
    function HighlightStyle(style: Style): (r: Model)
      ensures r.highlightStyle == style
      ensures r.(highlightStyle := highlightStyle) == this
    {
      this.(highlightStyle := style)
    }

    /** Sets whether the table takes input; nothing else changes. */
    function Focused(focused': bool): (r: Model)
      ensures r.focused == focused'
      ensures r.(focused := focused) == this
    {
      this.(focused := focused')
    }

    /** Replaces the sort chain with one ascending key and re-sorts. */
    function SortByAsc(columnKey: string): (r: Model)
      ensures r.sortOrder == [SortColumn(columnKey, Asc)]
      ensures r.sortedRows == Sorting.SortRows(rows, r.sortOrder)
      ensures r.(sortOrder := sortOrder, sortedRows := sortedRows) == this
    {
      Resorted([SortColumn(columnKey, Asc)])
    }

    /** Replaces the sort chain with one descending key and re-sorts. */
    function SortByDesc(columnKey: string): (r: Model)
      ensures r.sortOrder == [SortColumn(columnKey, Desc)]
      ensures r.sortedRows == Sorting.SortRows(rows, r.sortOrder)
      ensures r.(sortOrder := sortOrder, sortedRows := sortedRows) == this
    {
      Resorted([SortColumn(columnKey, Desc)])
    }

    /** Adds an ascending key behind the current chain and re-sorts. */
    function ThenSortByAsc(columnKey: string): (r: Model)
      ensures r.sortOrder == sortOrder + [SortColumn(columnKey, Asc)]
      ensures r.sortedRows == Sorting.SortRows(rows, r.sortOrder)
      ensures r.(sortOrder := sortOrder, sortedRows := sortedRows) == this
    {
      Resorted(sortOrder + [SortColumn(columnKey, Asc)])
    }

    /** Adds a descending key behind the current chain and re-sorts. */
    function ThenSortByDesc(columnKey: string): (r: Model)
      ensures r.sortOrder == sortOrder + [SortColumn(columnKey, Desc)]
      ensures r.sortedRows == Sorting.SortRows(rows, r.sortOrder)
      ensures r.(sortOrder := sortOrder, sortedRows := sortedRows) == this
    {
      Resorted(sortOrder + [SortColumn(columnKey, Desc)])
    }

    function Resorted(order: seq<SortColumn>): Model
    {
      this.(sortOrder := order, sortedRows := Sorting.SortRows(rows, order))
    }
  }

  /** A table over the given columns with no rows, no sort chain, no
      selection, unfocused, with the default key map. */
  function New(columns: seq<Column>): Model
  {
    Model(columns, [], [], [], false, [], false, DefaultKeyMap, PlainStyle, PlainStyle, 0)
  }

  /** Selection is idempotent: setting the same flag twice is setting it
      once. Turning it off twice needs the column behind a leading select
      column not to be a select column as well (the key is reserved, so a
      table holds at most one). */
  lemma SelectableRowsIdempotent(m: Model, selectable: bool)
    requires |m.columns| > 0
    requires !selectable && m.columns[0].key == ColumnKeySelect ==>
      |m.columns| > 1 && m.columns[1].key != ColumnKeySelect
    ensures |m.SelectableRows(selectable).columns| > 0
    ensures m.SelectableRows(selectable).SelectableRows(selectable) == m.SelectableRows(selectable)
  {
  }

  /** Without that proviso turning selection off twice drops two columns. */
  lemma SelectableRowsOffTwiceDropsTwo(m: Model)
    requires |m.columns| > 2 && m.columns[0].key == ColumnKeySelect && m.columns[1].key == ColumnKeySelect
    ensures m.SelectableRows(false).SelectableRows(false).columns == m.columns[2..]
  {
  }

  /** Turning selection on and then off restores the columns, whatever they
      were, as long as they did not already start with the select column. */
  lemma SelectableRowsOnOffRestoresColumns(m: Model)
    requires |m.columns| > 0 && m.columns[0].key != ColumnKeySelect
    ensures m.SelectableRows(true).SelectableRows(false).columns == m.columns
  {
    assert ([SelectColumn] + m.columns)[1..] == m.columns;
  }

  /** Setters of different fields commute. */
  lemma SettersCommute(m: Model, rows: seq<Row>, keyMap: KeyMap, header: Style, highlight: Style, focused: bool)
    ensures m.WithRows(rows).Focused(focused) == m.Focused(focused).WithRows(rows)
    ensures m.HeaderStyle(header).HighlightStyle(highlight) == m.HighlightStyle(highlight).HeaderStyle(header)
    ensures m.WithKeyMap(keyMap).WithRows(rows) == m.WithRows(rows).WithKeyMap(keyMap)
  {
  }

  /** The key map read back is the one last set. */
  lemma KeyMapRoundTrip(m: Model, keyMap: KeyMap)
    ensures m.WithKeyMap(keyMap).KeyMap() == keyMap
  {
  }

  /** No configuration setter touches the selected rows. */
  lemma SettersKeepSelectedRows(m: Model, rows: seq<Row>, keyMap: KeyMap, style: Style, flag: bool)
    requires |m.columns| > 0
    ensures m.WithRows(rows).SelectedRows() == m.SelectedRows()
    ensures m.WithKeyMap(keyMap).SelectedRows() == m.SelectedRows()
    ensures m.HeaderStyle(style).SelectedRows() == m.SelectedRows()
    ensures m.HighlightStyle(style).SelectedRows() == m.SelectedRows()
    ensures m.Focused(flag).SelectedRows() == m.SelectedRows()
    ensures m.SelectableRows(flag).SelectedRows() == m.SelectedRows()
  {
  }

  /** A fresh single-key sort discards the whole previous chain. */
  lemma SortByReplacesChain(m: Model, first: string, second: string, key: string)
    ensures m.SortByAsc(first).ThenSortByDesc(second).SortByDesc(key) == m.SortByDesc(key)
    ensures m.SortByDesc(first).ThenSortByAsc(second).SortByAsc(key) == m.SortByAsc(key)
  {
  }

  /** Sorting keeps every source row: the sorted rows are a permutation of
      the rows and as many. */
  lemma SortedRowsPermuteRows(m: Model, columnKey: string)
    ensures |m.SortByAsc(columnKey).sortedRows| == |m.rows|
    ensures multiset(m.SortByAsc(columnKey).sortedRows) == multiset(m.rows)
    ensures |m.SortByDesc(columnKey).sortedRows| == |m.rows|
    ensures multiset(m.SortByDesc(columnKey).ThenSortByAsc(columnKey).sortedRows) == multiset(m.rows)
  {
    Sorting.SortRowsPermutes(m.rows, [SortColumn(columnKey, Asc)]);
    Sorting.SortRowsPermutes(m.rows, [SortColumn(columnKey, Desc)]);
    var chain := [SortColumn(columnKey, Desc)] + [SortColumn(columnKey, Asc)];
    Sorting.SortRowsPermutes(m.rows, chain);
  }
}
