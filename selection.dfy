/** Cell selection as both editing grids keep it: an active cell, a drag range
    given by an anchor (`rangeStart`) and a focus (`rangeEnd`), the rectangle
    test `isInRange`, the mouse protocol that sets anchor and focus, and
    arrow-key navigation that wraps around the grid's edges. */
module Selection {
  import opened Text

  datatype Cell = Cell(row: int, col: int)

  /** The keys the grids react to; any other key is `OtherKey`. */
  datatype Key = Enter | ArrowDown | ArrowUp | ArrowRight | ArrowLeft | Backspace | OtherKey

  /** The three pieces of selection state a grid component holds. */
  datatype SelectionState = SelectionState(selected: Cell, rangeStart: Option<Cell>, rangeEnd: Option<Cell>)

  /** `x` lies between `a` and `b`, whichever of the two is larger. */
  predicate Between(x: int, a: int, b: int) {
    a <= x <= b || b <= x <= a
  }

  /** `isInRange(row, col)`: false unless both endpoints are set, otherwise
      membership in the min/max-normalised inclusive rectangle. */
  predicate InRange(rangeStart: Option<Cell>, rangeEnd: Option<Cell>, row: int, col: int): (b: bool)
    ensures b <==> && rangeStart.Some? && rangeEnd.Some?
                   && Between(row, rangeStart.value.row, rangeEnd.value.row)
                   && Between(col, rangeStart.value.col, rangeEnd.value.col)
  {
    && rangeStart.Some? && rangeEnd.Some?
    && Min(rangeStart.value.row, rangeEnd.value.row) <= row <= Max(rangeStart.value.row, rangeEnd.value.row)
    && Min(rangeStart.value.col, rangeEnd.value.col) <= col <= Max(rangeStart.value.col, rangeEnd.value.col)
  }

  /** Dragging from `b` to `a` highlights the same rectangle as from `a` to `b`. */
  lemma InRangeSymmetric(a: Option<Cell>, b: Option<Cell>, row: int, col: int)
    ensures InRange(a, b, row, col) == InRange(b, a, row, col)
  {
  }

  /** Without both endpoints nothing is highlighted. */
  lemma InRangeNeedsBothEnds(a: Option<Cell>, b: Option<Cell>, row: int, col: int)
    requires a.None? || b.None?
    ensures !InRange(a, b, row, col)
  {
  }

  // ---------------------------------------------------------------------
  // Keyboard navigation
  // ---------------------------------------------------------------------

  /** `(i + 1) % n`: one step forward, from the last index back to 0. */
  function WrapNext(i: int, n: int): (r: int)
    requires 0 <= i < n
    ensures 0 <= r < n
    ensures i < n - 1 ==> r == i + 1
    ensures i == n - 1 ==> r == 0
  {
    (i + 1) % n
  }

  /** `(i - 1 + n) % n`: one step back, from 0 round to the last index. */
  function WrapPrev(i: int, n: int): (r: int)
    requires 0 <= i < n
    ensures 0 <= r < n
    ensures i > 0 ==> r == i - 1
    ensures i == 0 ==> r == n - 1
  {
    (i - 1 + n) % n
  }

  predicate IsNavigationKey(key: Key) {
    key == Enter || key == ArrowDown || key == ArrowUp || key == ArrowRight || key == ArrowLeft
  }

  /** The cell an arrow key or Enter moves to from `(row, col)` on an
      `nrows` x `ncols` grid; `None` for keys that do not navigate. */
  function Navigate(key: Key, row: int, col: int, nrows: int, ncols: int): (r: Option<Cell>)
    requires 0 <= row < nrows && 0 <= col < ncols
    ensures r.Some? <==> IsNavigationKey(key)
    ensures r.Some? ==> 0 <= r.value.row < nrows && 0 <= r.value.col < ncols
    ensures key == Enter || key == ArrowDown ==> r == Some(Cell(if row == nrows - 1 then 0 else row + 1, col))
    ensures key == ArrowUp ==> r == Some(Cell(if row == 0 then nrows - 1 else row - 1, col))
    ensures key == ArrowRight ==> r == Some(Cell(row, if col == ncols - 1 then 0 else col + 1))
    ensures key == ArrowLeft ==> r == Some(Cell(row, if col == 0 then ncols - 1 else col - 1))
  {
    match key
    case Enter => Some(Cell(WrapNext(row, nrows), col))
    case ArrowDown => Some(Cell(WrapNext(row, nrows), col))
    case ArrowUp => Some(Cell(WrapPrev(row, nrows), col))
    case ArrowRight => Some(Cell(row, WrapNext(col, ncols)))
    case ArrowLeft => Some(Cell(row, WrapPrev(col, ncols)))
    case _ => None
  }

  /** Enter moves exactly like ArrowDown. */
  lemma EnterIsDown(row: int, col: int, nrows: int, ncols: int)
    requires 0 <= row < nrows && 0 <= col < ncols
    ensures Navigate(Enter, row, col, nrows, ncols) == Navigate(ArrowDown, row, col, nrows, ncols)
  {
  }

  /** Up undoes Down and Left undoes Right, on every cell, including the
      wrap-around at the edges. */
  lemma NavigateInverse(row: int, col: int, nrows: int, ncols: int)
    requires 0 <= row < nrows && 0 <= col < ncols
    ensures var d := Navigate(ArrowDown, row, col, nrows, ncols).value;
            Navigate(ArrowUp, d.row, d.col, nrows, ncols) == Some(Cell(row, col))
    ensures var u := Navigate(ArrowUp, row, col, nrows, ncols).value;
            Navigate(ArrowDown, u.row, u.col, nrows, ncols) == Some(Cell(row, col))
    ensures var rt := Navigate(ArrowRight, row, col, nrows, ncols).value;
            Navigate(ArrowLeft, rt.row, rt.col, nrows, ncols) == Some(Cell(row, col))
    ensures var lt := Navigate(ArrowLeft, row, col, nrows, ncols).value;
            Navigate(ArrowRight, lt.row, lt.col, nrows, ncols) == Some(Cell(row, col))
  {
  }

  // ---------------------------------------------------------------------
  // Mouse protocol and the effect of navigation on the selection
  // ---------------------------------------------------------------------

  /** mousedown: the clicked cell becomes active and the anchor, the focus is cleared. */
  function MouseDown(s: SelectionState, c: Cell): (r: SelectionState)
    ensures r.selected == c && r.rangeStart == Some(c)
    ensures forall row, col :: !InRange(r.rangeStart, r.rangeEnd, row, col)
  {
    SelectionState(c, Some(c), None)
  }

  /** mouseover with the button held: the focus follows, if there is an anchor. */
  function MouseOver(s: SelectionState, c: Cell): (r: SelectionState)
    ensures r.selected == s.selected && r.rangeStart == s.rangeStart
    ensures s.rangeStart.None? ==> r == s
    ensures s.rangeStart.Some? ==> forall row, col :: InRange(r.rangeStart, r.rangeEnd, row, col) <==>
      Between(row, s.rangeStart.value.row, c.row) && Between(col, s.rangeStart.value.col, c.col)
  {
    if s.rangeStart.Some? then s.(rangeEnd := Some(c)) else s
  }

  /** mouseup: an anchor without a focus collapses to a one-cell range. */
  function MouseUp(s: SelectionState): (r: SelectionState)
    ensures r.selected == s.selected && r.rangeStart == s.rangeStart
    ensures s.rangeStart.Some? ==> r.rangeEnd.Some?
    ensures s.rangeEnd.Some? ==> r == s
    ensures s.rangeStart.Some? && s.rangeEnd.None? ==> forall row, col :: InRange(r.rangeStart, r.rangeEnd, row, col) <==>
      row == s.rangeStart.value.row && col == s.rangeStart.value.col
  {
    if s.rangeStart.Some? && s.rangeEnd.None? then s.(rangeEnd := s.rangeStart) else s
  }

  /** An arrow key or Enter: the target becomes active and the range is cleared. */
  function Moved(s: SelectionState, c: Cell): (r: SelectionState)
    ensures r.selected == c
    ensures r.rangeStart.None? && r.rangeEnd.None?
    ensures forall row, col :: !InRange(r.rangeStart, r.rangeEnd, row, col)
  {
    SelectionState(c, None, None)
  }

  function Highlighted(s: SelectionState, row: int, col: int): bool {
    InRange(s.rangeStart, s.rangeEnd, row, col)
  }

  /** A click without a drag selects exactly the clicked cell as the range. */
  lemma ClickSelectsOneCell(s: SelectionState, c: Cell, row: int, col: int)
    ensures Highlighted(MouseUp(MouseDown(s, c)), row, col) <==> row == c.row && col == c.col
  {
  }

  /** Pressing on `a`, dragging over `b` and releasing leaves the rectangle
      spanned by `a` and `b` as the range, with `a` the active cell. */
  lemma DragSelectsRectangle(s: SelectionState, a: Cell, b: Cell, row: int, col: int)
    ensures MouseUp(MouseOver(MouseDown(s, a), b)).selected == a
    ensures Highlighted(MouseUp(MouseOver(MouseDown(s, a), b)), row, col) <==>
      && (a.row <= row <= b.row || b.row <= row <= a.row)
      && (a.col <= col <= b.col || b.col <= col <= a.col)
  {
  }

  /** Hovering never creates a range without a press first. */
  lemma HoverWithoutAnchor(s: SelectionState, c: Cell)
    requires s.rangeStart.None?
    ensures MouseOver(s, c) == s
  {
  }

  /** Hovering and releasing never move the active cell or the anchor, and
      releasing twice is releasing once. */
  lemma HoverAndReleaseKeepAnchor(s: SelectionState, c: Cell)
    ensures MouseOver(s, c).selected == s.selected && MouseOver(s, c).rangeStart == s.rangeStart
    ensures MouseUp(s).selected == s.selected && MouseUp(s).rangeStart == s.rangeStart
    ensures MouseUp(MouseUp(s)) == MouseUp(s)
  {
  }

  /** After navigation no anchor is left over: hovering and releasing
      before the next press change nothing and highlight nothing. */
  lemma MovedLeavesNoAnchor(s: SelectionState, c: Cell, d: Cell, row: int, col: int)
    ensures MouseOver(Moved(s, c), d) == Moved(s, c)
    ensures MouseUp(Moved(s, c)) == Moved(s, c)
    ensures !Highlighted(MouseUp(MouseOver(Moved(s, c), d)), row, col)
  {
  }
}
