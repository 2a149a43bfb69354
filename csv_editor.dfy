/** The spreadsheet editor component (CSVEditor.jsx) as an object: the table,
    the filters and the selection are fields, and each event handler is a
    method that updates them.

    The table on screen is `displayedRows` (the filtered rows), but the edit,
    delete and Backspace handlers index the unfiltered `rows` with the row
    number they receive from the screen. The methods below take a display
    index and state which unfiltered row they touch, so the mismatch is
    visible in their contracts. */
module CsvEditorState {
  import opened Text
  import opened SeqUtil
  import opened Selection
  import opened EditorGrid

  /** `currentVal ? currentVal.slice(0, -1) : ''`: the text without its last
      character, and the empty text stays empty. */
  function DropLastChar(s: string): (r: string)
    ensures s == "" ==> r == ""
    ensures s != "" ==> |r| == |s| - 1 && r == s[..|r|]
  {
    if s == "" then "" else s[..|s| - 1]
  }

  /** A set of column indices containing `k` has a least element. */
  lemma {:induction false} HasMinimum(s: set<nat>, k: nat)
    requires k in s
    ensures exists m :: m in s && forall d :: d in s ==> m <= d
    decreases k
  {
    if d :| d in s && d < k {
      HasMinimum(s, d);
    } else {
      assert forall d :: d in s ==> k <= d;
    }
  }

  /** The display index and the storage index disagree once a filter hides
      a row: with the filter "b" on the only column, display row 0 is stored
      row 1, while the edit, delete and Backspace handlers called with row 0
      act on stored row 0. */
  lemma DisplayIndexIsNotStorageIndex()
    ensures var g := Grid(["A"], [Row(1, ["a"]), Row(2, ["b"])]);
            var shown := Displayed(g, map[0 := "b"]);
            |shown| == 1 && shown[0] == g.rows[1] && shown[0] != g.rows[0]
  {
    var g := Grid(["A"], [Row(1, ["a"]), Row(2, ["b"])]);
    var f := map[0 := "b"];
    assert Lower("a") == "a" && Lower("b") == "b";
    assert "a"[..1] == "a" && "a"[1..] == "";
    assert !Includes("a", "b");
    assert Includes("b", "b");
    assert 0 in f.Keys && !CellMatches(g.rows[0], 0, f[0]);
    assert !PassesFilters(g.rows[0], f, f.Keys);
    assert PassesFilters(g.rows[1], f, f.Keys);
    assert g.rows[1..] == [Row(2, ["b"])];
    assert Displayed(g, f) == [Row(2, ["b"])];
  }

  class CsvEditor {
    var fileName: string
    var columns: seq<string>
    var rows: seq<Row>
    var filters: map<nat, string>
    var selectedCell: Cell
    var rangeStart: Option<Cell>
    var rangeEnd: Option<Cell>

    /** Every row is as wide as the column list and numbered by position. */
    ghost predicate Valid()
      reads this
    {
      EditorGrid.Valid(Table())
    }

    function Table(): Grid
      reads this
    {
      Grid(columns, rows)
    }

    function CurrentSelection(): SelectionState
      reads this
    {
      SelectionState(selectedCell, rangeStart, rangeEnd)
    }

    /** The rows on screen: `displayedRows`. */
    function Shown(): seq<Row>
      reads this
    {
      Displayed(Table(), filters)
    }

    /** A display index is always an index of the unfiltered rows too. */
    lemma ShownIndexInRows(i: int)
      requires 0 <= i < |Shown()|
      ensures i < |rows|
    {
      DisplayedSpec(Table(), filters, rows[0]);
    }

    /** The initial state: the blank template, no filters, cell (0, 0) active
        and no range. */
    constructor ()
      ensures Valid()
      ensures fileName == "Untitled" && Table() == DefaultGrid() && filters == map[]
      ensures CurrentSelection() == SelectionState(Cell(0, 0), None, None)
    {
      fileName := "Untitled";
      columns := DefaultGrid().columns;
      rows := DefaultGrid().rows;
      filters := map[];
      selectedCell := Cell(0, 0);
      rangeStart := None;
      rangeEnd := None;
    }

    method HandleAddColumn()
      requires Valid()
      modifies this`columns, this`rows
      ensures Valid() && Table() == AddColumn(old(Table()))
    {
      var g := AddColumn(Table());
      columns, rows := g.columns, g.rows;
    }

    method HandleAddRow()
      requires Valid()
      modifies this`rows
      ensures Valid() && Table() == AddRow(old(Table()))
    {
      rows := AddRow(Table()).rows;
    }

    method HandleDeleteColumn(index: nat)
      requires Valid() && index < |columns|
      modifies this`columns, this`rows
      ensures Valid() && Table() == DeleteColumn(old(Table()), index)
    {
      var g := DeleteColumn(Table(), index);
      columns, rows := g.columns, g.rows;
    }

    /** The trash button of display row `rowIndex` deletes the unfiltered
        row with that index. */
    method HandleDeleteRow(rowIndex: nat)
      requires Valid() && rowIndex < |Shown()|
      modifies this`rows
      ensures old(rowIndex < |rows|)
      ensures Valid() && Table() == DeleteRow(old(Table()), rowIndex)
    {
      ShownIndexInRows(rowIndex);
      rows := DeleteRow(Table(), rowIndex).rows;
    }

    /** Typing into display cell `(rowIndex, colIndex)` writes slot
        `colIndex + 1` of unfiltered row `rowIndex`; S.No (`colIndex == -1`)
        is never written. */
    method HandleCellChange(value: string, rowIndex: nat, colIndex: int)
      requires Valid() && rowIndex < |Shown()| && -1 <= colIndex < |columns|
      modifies this`rows
      ensures Valid() && |rows| == |old(rows)| && old(rowIndex < |rows|)
      ensures colIndex == -1 ==> rows == old(rows)
      ensures colIndex >= 0 ==>
        rows == old(rows)[rowIndex := Row(old(rows)[rowIndex].sno, old(rows)[rowIndex].cells[colIndex := value])]
    {
      ShownIndexInRows(rowIndex);
      if colIndex == -1 {
        return;
      }
      rows := rows[rowIndex := rows[rowIndex].(cells := rows[rowIndex].cells[colIndex := value])];
    }

    /** The file-name input. */
    method HandleFileNameChange(name: string)
      modifies this`fileName
      ensures fileName == name
    {
      fileName := name;
    }

    method ToggleFilterInput()
      modifies this`filters
      ensures filters == ToggleFilters(old(filters), |columns|)
    {
      filters := ToggleFilters(filters, |columns|);
    }

    method HandleFilterChange(index: nat, val: string)
      modifies this`filters
      ensures filters == old(filters)[index := val]
    {
      filters := filters[index := val];
    }

    /** The `displayedRows` loop: for each filter, in increasing column order,
        keep the rows whose cell contains a non-empty pattern. */
    method DisplayedRows() returns (shown: seq<Row>)
      ensures shown == Shown()
      ensures IsSubsequence(shown, rows)
      ensures forall i :: 0 <= i < |shown| ==> PassesFilters(shown[i], filters, filters.Keys)
    {
      shown := rows;
      var pending := filters.Keys;
      MatchingRowsNone(rows, filters);
      assert filters.Keys - pending == {};
      while pending != {}
        invariant pending <= filters.Keys
        invariant shown == MatchingRows(rows, filters, filters.Keys - pending)
        decreases pending
      {
        var some :| some in pending;
        HasMinimum(pending, some);
        var c :| c in pending && forall d :: d in pending ==> c <= d;
        var done := filters.Keys - pending;
        if filters[c] != "" {
          MatchingRowsExtend(rows, filters, done, c);
          shown := MatchingRows(shown, filters, {c});
        } else {
          MatchingRowsBlank(rows, filters, done, c);
        }
        assert filters.Keys - (pending - {c}) == done + {c};
        pending := pending - {c};
      }
      assert filters.Keys - pending == filters.Keys;
      var f := filters;
      FilterIsSubsequence(r => PassesFilters(r, f, f.Keys), rows);
      forall i | 0 <= i < |shown|
        ensures PassesFilters(shown[i], filters, filters.Keys)
      {
        DisplayedSpec(Table(), filters, shown[i]);
      }
    }

    /** `handleDownload`: the unquoted CSV text of the displayed rows and the
        name `<fileName>.csv`. */
    method Download() returns (csv: string, name: string)
      ensures csv == PlainCsv(columns, Shown())
      ensures name == fileName + ".csv"
    {
      var shown := DisplayedRows();
      csv := PlainCsv(columns, shown);
      name := fileName + ".csv";
    }

    predicate IsInRange(row: int, col: int)
      reads this
    {
      InRange(rangeStart, rangeEnd, row, col)
    }

    /** The nested loops of the Backspace branch: every cell of the
        unfiltered rows whose (row, column) lies in the range becomes empty. */
    method ClearRange()
      requires Valid()
      modifies this`rows
      ensures Valid() && |rows| == |old(rows)|
      ensures forall r :: 0 <= r < |rows| ==> rows[r].sno == old(rows)[r].sno
      ensures forall r, c :: 0 <= r < |rows| && 0 <= c < |columns| ==>
        rows[r].cells[c] == if IsInRange(r, c) then "" else old(rows)[r].cells[c]
    {
      var r := 0;
      while r < |rows|
        invariant 0 <= r <= |rows| == |old(rows)|
        invariant Valid()
        invariant forall k :: 0 <= k < |rows| ==> rows[k].sno == old(rows)[k].sno
        invariant forall k, c :: 0 <= k < r && 0 <= c < |columns| ==>
          rows[k].cells[c] == if IsInRange(k, c) then "" else old(rows)[k].cells[c]
        invariant forall k :: r <= k < |rows| ==> rows[k] == old(rows)[k]
      {
        var c := 0;
        while c < |columns|
          invariant 0 <= c <= |columns|
          invariant |rows| == |old(rows)| && Valid()
          invariant forall k :: 0 <= k < |rows| ==> rows[k].sno == old(rows)[k].sno
          invariant forall k, j :: 0 <= k < r && 0 <= j < |columns| ==>
            rows[k].cells[j] == if IsInRange(k, j) then "" else old(rows)[k].cells[j]
          invariant forall j :: 0 <= j < |columns| ==>
            rows[r].cells[j] == if j < c && IsInRange(r, j) then "" else old(rows)[r].cells[j]
          invariant forall k :: r < k < |rows| ==> rows[k] == old(rows)[k]
        {
          if IsInRange(r, c) {
            rows := rows[r := rows[r].(cells := rows[r].cells[c := ""])];
          }
          c := c + 1;
        }
        r := r + 1;
      }
    }

    /** `handleKeyDown` on display cell `(row, col)`.
        Arrows and Enter move with wrap-around over the unfiltered row count
        and the column count and clear the range. Backspace clears the range
        when both ends are set and otherwise drops the last character of
        slot `col + 1` of unfiltered row `row`; it never moves the cursor.
        Other keys change nothing. */
    method HandleKeyDown(key: Key, row: int, col: int)
      requires Valid() && 0 <= row < |Shown()| && 0 <= col < |columns|
      modifies this`rows, this`selectedCell, this`rangeStart, this`rangeEnd
      ensures Valid() && |rows| == |old(rows)| && old(row < |rows|)
      ensures IsNavigationKey(key) ==>
        && rows == old(rows)
        && CurrentSelection() == Moved(old(CurrentSelection()), Navigate(key, row, col, |rows|, |columns|).value)
      ensures key == Backspace ==> CurrentSelection() == old(CurrentSelection())
      ensures key == Backspace && rangeStart.Some? && rangeEnd.Some? ==>
        forall r, c :: 0 <= r < |rows| && 0 <= c < |columns| ==>
          rows[r].sno == old(rows)[r].sno &&
          rows[r].cells[c] == if IsInRange(r, c) then "" else old(rows)[r].cells[c]
      ensures key == Backspace && !(rangeStart.Some? && rangeEnd.Some?) ==>
        rows == old(rows)[row := Row(old(rows)[row].sno, old(rows)[row].cells[col := DropLastChar(old(rows)[row].cells[col])])]
      ensures key == OtherKey ==> rows == old(rows) && CurrentSelection() == old(CurrentSelection())
    {
      ShownIndexInRows(row);
      if key == Backspace {
        if rangeStart.Some? && rangeEnd.Some? {
          ClearRange();
        } else {
          rows := rows[row := rows[row].(cells := rows[row].cells[col := DropLastChar(rows[row].cells[col])])];
        }
      } else if IsNavigationKey(key) {
        var next := Navigate(key, row, col, |rows|, |columns|).value;
        selectedCell, rangeStart, rangeEnd := next, None, None;
      }
    }

    method HandleMouseDown(row: int, col: int)
      modifies this`selectedCell, this`rangeStart, this`rangeEnd
      ensures CurrentSelection() == MouseDown(old(CurrentSelection()), Cell(row, col))
    {
      selectedCell, rangeStart, rangeEnd := Cell(row, col), Some(Cell(row, col)), None;
    }

    method HandleMouseOver(row: int, col: int)
      modifies this`rangeEnd
      ensures CurrentSelection() == MouseOver(old(CurrentSelection()), Cell(row, col))
    {
      if rangeStart.Some? {
        rangeEnd := Some(Cell(row, col));
      }
    }

    method HandleMouseUp()
      modifies this`rangeEnd
      ensures CurrentSelection() == MouseUp(old(CurrentSelection()))
    {
      if rangeStart.Some? && rangeEnd.None? {
        rangeEnd := rangeStart;
      }
    }
  }
}
