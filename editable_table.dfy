/** The stand-alone spreadsheet grid (EditableTable.jsx): a `rows` x `cols`
    matrix of strings with the same selection and keyboard protocol as the
    editor, except that Backspace without a range empties the whole cell. */
module EditableTableState {
  import opened Text
  import opened Selection

  class EditableTable {
    const rows: nat
    const cols: nat
    const data: array2<string>
    var selectedCell: Cell
    var rangeStart: Option<Cell>
    var rangeEnd: Option<Cell>

    predicate Valid() {
      data.Length0 == rows && data.Length1 == cols
    }

    function CurrentSelection(): SelectionState
      reads this
    {
      SelectionState(selectedCell, rangeStart, rangeEnd)
    }

    predicate IsInRange(row: int, col: int)
      reads this
    {
      InRange(rangeStart, rangeEnd, row, col)
    }

    /** The component mounted with `rows` and `cols`: every cell empty, cell
        (0, 0) active, no range. */
    constructor (rows: nat, cols: nat)
      ensures Valid() && this.rows == rows && this.cols == cols && fresh(data)
      ensures forall i, j :: 0 <= i < rows && 0 <= j < cols ==> data[i, j] == ""
      ensures CurrentSelection() == SelectionState(Cell(0, 0), None, None)
    {
      this.rows := rows;
      this.cols := cols;
      data := new string[rows, cols]((i, j) => "");
      selectedCell := Cell(0, 0);
      rangeStart := None;
      rangeEnd := None;
    }

    /** The component mounted without props: a 5 x 5 grid. */
    constructor Default()
      ensures Valid() && rows == 5 && cols == 5 && fresh(data)
      ensures forall i, j :: 0 <= i < 5 && 0 <= j < 5 ==> data[i, j] == ""
      ensures CurrentSelection() == SelectionState(Cell(0, 0), None, None)
    {
      rows := 5;
      cols := 5;
      data := new string[5, 5]((i, j) => "");
      selectedCell := Cell(0, 0);
      rangeStart := None;
      rangeEnd := None;
    }

    /** `handleChange`: the typed text replaces one cell. */
    method HandleChange(value: string, row: int, col: int)
      requires Valid() && 0 <= row < rows && 0 <= col < cols
      modifies data
      ensures data[row, col] == value
      ensures forall i, j :: 0 <= i < rows && 0 <= j < cols && (i != row || j != col) ==>
        data[i, j] == old(data[i, j])
    {
      data[row, col] := value;
    }

    /** The nested loops of the Backspace branch: exactly the cells inside the
        range become empty. */
    method ClearRange()
      requires Valid()
      modifies data
      ensures forall i, j :: 0 <= i < rows && 0 <= j < cols ==>
        data[i, j] == if IsInRange(i, j) then "" else old(data[i, j])
    {
      var r := 0;
      while r < rows
        invariant 0 <= r <= rows
        invariant forall i, j :: 0 <= i < r && 0 <= j < cols ==>
          data[i, j] == if IsInRange(i, j) then "" else old(data[i, j])
        invariant forall i, j :: r <= i < rows && 0 <= j < cols ==> data[i, j] == old(data[i, j])
      {
        var c := 0;
        while c < cols
          invariant 0 <= c <= cols
          invariant forall i, j :: 0 <= i < r && 0 <= j < cols ==>
            data[i, j] == if IsInRange(i, j) then "" else old(data[i, j])
          invariant forall j :: 0 <= j < cols ==>
            data[r, j] == if j < c && IsInRange(r, j) then "" else old(data[r, j])
          invariant forall i, j :: r < i < rows && 0 <= j < cols ==> data[i, j] == old(data[i, j])
        {
          if IsInRange(r, c) {
            data[r, c] := "";
          }
          c := c + 1;
        }
        r := r + 1;
      }
    }

    /** `handleKeyDown` on cell `(row, col)`. Arrows and Enter move with
        wrap-around and clear the range, leaving the data alone. Backspace
        empties every cell of the range when both ends are set and otherwise
        empties the cell itself; it never moves the cursor. Other keys change
        nothing. */
    method HandleKeyDown(key: Key, row: int, col: int)
      requires Valid() && 0 <= row < rows && 0 <= col < cols
      modifies this`selectedCell, this`rangeStart, this`rangeEnd, data
      ensures key != Backspace ==>
        forall i, j :: 0 <= i < rows && 0 <= j < cols ==> data[i, j] == old(data[i, j])
      ensures IsNavigationKey(key) ==>
        CurrentSelection() == Moved(old(CurrentSelection()), Navigate(key, row, col, rows, cols).value)
      ensures !IsNavigationKey(key) ==> CurrentSelection() == old(CurrentSelection())
      ensures key == Backspace && rangeStart.Some? && rangeEnd.Some? ==>
        forall i, j :: 0 <= i < rows && 0 <= j < cols ==>
          data[i, j] == if IsInRange(i, j) then "" else old(data[i, j])
      ensures key == Backspace && !(rangeStart.Some? && rangeEnd.Some?) ==>
        && data[row, col] == ""
        && forall i, j :: 0 <= i < rows && 0 <= j < cols && (i != row || j != col) ==>
             data[i, j] == old(data[i, j])
    {
      if key == Backspace {
        if rangeStart.Some? && rangeEnd.Some? {
          ClearRange();
        } else {
          data[row, col] := "";
        }
      } else if IsNavigationKey(key) {
        var next := Navigate(key, row, col, rows, cols).value;
        selectedCell, rangeStart, rangeEnd := next, None, None;
      }
    }

    method HandleMouseDown(row: int, col: int)
      modifies this`selectedCell, this`rangeStart, this`rangeEnd
      ensures CurrentSelection() == MouseDown(old(CurrentSelection()), Cell(row, col))
    {
      selectedCell, rangeStart, rangeEnd := Cell(row, col), Some(Cell(row, col)), None;
    }

    method HandleMouseOver(row: int, col: int)
      modifies this`rangeEnd
      ensures CurrentSelection() == MouseOver(old(CurrentSelection()), Cell(row, col))
    {
      if rangeStart.Some? {
        rangeEnd := Some(Cell(row, col));
      }
    }

    method HandleMouseUp()
      modifies this`rangeEnd
      ensures CurrentSelection() == MouseUp(old(CurrentSelection()))
    {
      if rangeStart.Some? && rangeEnd.None? {
        rangeEnd := rangeStart;
      }
    }
  }
}
