/** The spreadsheet editor's table (CSVEditor.jsx): column labels and rows
    whose slot 0 is a derived serial number ("S.No"), the structural edits
    that build a new table from the old one, the per-column filters that
    decide which rows are displayed, and the unquoted CSV text that the
    Download button produces. */
module EditorGrid {
  import opened Text
  import opened SeqUtil

  /** A row as the editor stores it: slot 0 of the source's array is `sno`,
      slot `c + 1` is `cells[c]`. */
  datatype Row = Row(sno: int, cells: seq<string>)

  datatype Grid = Grid(columns: seq<string>, rows: seq<Row>)

  /** Every row has one cell per column and a serial number equal to its
      1-based position. */
  predicate Valid(g: Grid) {
    forall k :: 0 <= k < |g.rows| ==> |g.rows[k].cells| == |g.columns| && g.rows[k].sno == k + 1
  }

  function RemoveAt<T>(s: seq<T>, i: nat): (r: seq<T>)
    requires i < |s|
    ensures |r| == |s| - 1
    ensures forall k :: 0 <= k < i ==> r[k] == s[k]
    ensures forall k :: i <= k < |r| ==> r[k] == s[k + 1]
  {
    s[..i] + s[i + 1..]
  }

  // ---------------------------------------------------------------------
  // Column labels and the blank template
  // ---------------------------------------------------------------------

  /** The label `Column N`. */
  function ColumnLabel(n: nat): string {
    "Column " + NatToString(n)
  }

  /** Different numbers give different labels. */
  lemma ColumnLabelInjective(a: nat, b: nat)
    requires ColumnLabel(a) == ColumnLabel(b)
    ensures a == b
  {
    assert ColumnLabel(a)[7..] == NatToString(a);
    assert ColumnLabel(b)[7..] == NatToString(b);
    ParseNatToString(a);
    ParseNatToString(b);
  }

  function BlankCells(n: nat): (r: seq<string>)
    ensures |r| == n
    ensures forall c :: 0 <= c < n ==> r[c] == ""
  {
    seq(n, _ => "")
  }

  const DefaultColumnCount: nat := 8
  const DefaultRowCount: nat := 100

  /** `defaultColumns` and `defaultRows`: eight labelled columns and a hundred
      blank rows numbered from 1. */
  function DefaultGrid(): (g: Grid)
    ensures Valid(g)
    ensures |g.columns| == DefaultColumnCount && |g.rows| == DefaultRowCount
    ensures forall c :: 0 <= c < DefaultColumnCount ==> g.columns[c] == ColumnLabel(c + 1)
    ensures forall k :: 0 <= k < DefaultRowCount ==> g.rows[k].cells == BlankCells(DefaultColumnCount)
  {
    Grid(seq(DefaultColumnCount, i requires 0 <= i => ColumnLabel(i + 1)),
         seq(DefaultRowCount, k => Row(k + 1, BlankCells(DefaultColumnCount))))
  }

  /** The template's labels are pairwise different. */
  lemma DefaultLabelsDistinct(i: nat, j: nat)
    requires i < j < DefaultColumnCount
    ensures DefaultGrid().columns[i] != DefaultGrid().columns[j]
  {
    if DefaultGrid().columns[i] == DefaultGrid().columns[j] {
      ColumnLabelInjective(i + 1, j + 1);
    }
  }

  // ---------------------------------------------------------------------
  // Structural edits
  // ---------------------------------------------------------------------

  /** `handleAddColumn`: appends `Column N` with N one more than the old
      column count, and one blank cell at the end of every row. */
  function AddColumn(g: Grid): (r: Grid)
    ensures r.columns == g.columns + [ColumnLabel(|g.columns| + 1)]
    ensures |r.rows| == |g.rows|
    ensures forall k :: 0 <= k < |g.rows| ==> r.rows[k] == Row(g.rows[k].sno, g.rows[k].cells + [""])
    ensures Valid(g) ==> Valid(r)
  {
    Grid(g.columns + [ColumnLabel(|g.columns| + 1)],
         seq(|g.rows|, k requires 0 <= k < |g.rows| => Row(g.rows[k].sno, g.rows[k].cells + [""])))
  }

  /** `handleAddRow`: appends a blank row numbered one more than the old row
      count, as wide as the column list. */
  function AddRow(g: Grid): (r: Grid)
    ensures r.columns == g.columns
    ensures |r.rows| == |g.rows| + 1 && r.rows[..|g.rows|] == g.rows
    ensures r.rows[|g.rows|].sno == |r.rows|
    ensures r.rows[|g.rows|].cells == BlankCells(|g.columns|)
    ensures Valid(g) ==> Valid(r)
  {
    Grid(g.columns, g.rows + [Row(|g.rows| + 1, BlankCells(|g.columns|))])
  }

  /** `handleDeleteColumn(index)`: removes label `index` and, from every row,
      slot `index + 1` (a row too short for that slot is left alone, as
      `splice` does). */
  function DeleteColumn(g: Grid, index: nat): (r: Grid)
    requires index < |g.columns|
    ensures r.columns == RemoveAt(g.columns, index)
    ensures |r.rows| == |g.rows|
    ensures forall k :: 0 <= k < |g.rows| && index < |g.rows[k].cells| ==>
      r.rows[k] == Row(g.rows[k].sno, RemoveAt(g.rows[k].cells, index))
    ensures Valid(g) ==> Valid(r)
  {
    Grid(RemoveAt(g.columns, index),
         seq(|g.rows|, k requires 0 <= k < |g.rows| =>
           var row := g.rows[k];
           if index < |row.cells| then Row(row.sno, RemoveAt(row.cells, index)) else row))
  }

  /** The S.No pass: row `k` gets number `k + 1`, its cells untouched. */
  function Renumber(rows: seq<Row>): (r: seq<Row>)
    ensures |r| == |rows|
    ensures forall k :: 0 <= k < |r| ==> r[k].sno == k + 1 && r[k].cells == rows[k].cells
  {
    seq(|rows|, k requires 0 <= k < |rows| => Row(k + 1, rows[k].cells))
  }

  /** `handleDeleteRow(rowIndex)`: removes exactly that row and renumbers the
      rest so that S.No is again each row's position. */
  function DeleteRow(g: Grid, rowIndex: nat): (r: Grid)
    requires rowIndex < |g.rows|
    ensures r.columns == g.columns
    ensures |r.rows| == |g.rows| - 1
    ensures forall k :: 0 <= k < |r.rows| ==> r.rows[k].sno == k + 1
    ensures forall k :: 0 <= k < rowIndex ==> r.rows[k].cells == g.rows[k].cells
    ensures forall k :: rowIndex <= k < |r.rows| ==> r.rows[k].cells == g.rows[k + 1].cells
    ensures Valid(g) ==> Valid(r)
  {
    Grid(g.columns, Renumber(RemoveAt(g.rows, rowIndex)))
  }

  /** Renumbering a table whose numbers are already positions changes nothing. */
  lemma RenumberValid(g: Grid)
    requires Valid(g)
    ensures Renumber(g.rows) == g.rows
  {
  }

  /** Deleting the column just added gives the table back. */
  lemma AddColumnThenDelete(g: Grid)
    requires Valid(g)
    ensures DeleteColumn(AddColumn(g), |g.columns|) == g
  {
    var r := DeleteColumn(AddColumn(g), |g.columns|);
    assert r.columns == g.columns;
    forall k | 0 <= k < |g.rows|
      ensures r.rows[k] == g.rows[k]
    {
      assert (g.rows[k].cells + [""])[..|g.columns|] == g.rows[k].cells;
    }
  }

  /** Deleting the row just added gives the table back. */
  lemma AddRowThenDelete(g: Grid)
    requires Valid(g)
    ensures DeleteRow(AddRow(g), |g.rows|) == g
  {
    var r := DeleteRow(AddRow(g), |g.rows|);
    assert r.rows == g.rows by {
      forall k | 0 <= k < |g.rows|
        ensures r.rows[k] == g.rows[k]
      {
      }
    }
  }

  // ---------------------------------------------------------------------
  // Filters: `filters` maps a column index to a pattern
  // ---------------------------------------------------------------------

  /** One column's filter test on a row: an empty pattern constrains nothing;
      otherwise the cell, lower-cased, must contain the lower-cased pattern.
      A column past the row's end never matches. A helper of `Displayed`,
      stated through its contract and `DisplayedSpec`. */
  predicate CellMatches(row: Row, col: nat, pattern: string) {
    pattern == "" || (col < |row.cells| && Includes(Lower(row.cells[col]), Lower(pattern)))
  }

  /** The row passes the filters on every column in `cols`. */
  predicate PassesFilters(row: Row, filters: map<nat, string>, cols: set<nat>) {
    forall c :: c in cols && c in filters ==> CellMatches(row, c, filters[c])
  }

  function MatchingRows(rows: seq<Row>, filters: map<nat, string>, cols: set<nat>): seq<Row> {
    Filter(r => PassesFilters(r, filters, cols), rows)
  }

  /** `displayedRows`: the rows that pass every column's filter. */
  function Displayed(g: Grid, filters: map<nat, string>): (r: seq<Row>)
    ensures |r| <= |g.rows|
    ensures forall row :: row in r <==> row in g.rows && PassesFilters(row, filters, filters.Keys)
  {
    FilterMembershipAll(r => PassesFilters(r, filters, filters.Keys), g.rows);
    MatchingRows(g.rows, filters, filters.Keys)
  }

  /** The displayed rows are exactly the rows passing every filter, in their
      original order, so there are never more of them than rows. */
  lemma DisplayedSpec(g: Grid, filters: map<nat, string>, row: Row)
    ensures row in Displayed(g, filters) <==> row in g.rows && PassesFilters(row, filters, filters.Keys)
    ensures IsSubsequence(Displayed(g, filters), g.rows)
    ensures |Displayed(g, filters)| <= |g.rows|
  {
    FilterMembership(r => PassesFilters(r, filters, filters.Keys), g.rows, row);
    FilterIsSubsequence(r => PassesFilters(r, filters, filters.Keys), g.rows);
  }

  /** Before any column's filter is applied every row is kept. */
  lemma MatchingRowsNone(rows: seq<Row>, filters: map<nat, string>)
    ensures MatchingRows(rows, filters, {}) == rows
  {
    FilterKeepsAll(r => PassesFilters(r, filters, {}), rows);
  }

  /** Applying one more column's filter to the rows already filtered on `cols`
      is filtering once on both. */
  lemma MatchingRowsExtend(rows: seq<Row>, filters: map<nat, string>, cols: set<nat>, c: nat)
    ensures MatchingRows(MatchingRows(rows, filters, cols), filters, {c}) == MatchingRows(rows, filters, cols + {c})
  {
    FilterTwice(r => PassesFilters(r, filters, cols), r => PassesFilters(r, filters, {c}),
                r => PassesFilters(r, filters, cols + {c}), rows);
  }

  /** A column whose pattern is empty can be added to `cols` without changing
      the result. */
  lemma MatchingRowsBlank(rows: seq<Row>, filters: map<nat, string>, cols: set<nat>, c: nat)
    requires c in filters && filters[c] == ""
    ensures MatchingRows(rows, filters, cols + {c}) == MatchingRows(rows, filters, cols)
  {
    FilterCongruent(r => PassesFilters(r, filters, cols + {c}), r => PassesFilters(r, filters, cols), rows);
  }

  /** With every pattern empty, all rows are displayed. */
  lemma BlankFiltersShowAll(g: Grid, filters: map<nat, string>)
    requires forall c :: c in filters ==> filters[c] == ""
    ensures Displayed(g, filters) == g.rows
  {
    FilterKeepsAll(r => PassesFilters(r, filters, filters.Keys), g.rows);
  }

  /** One empty pattern for each of the columns `0 .. n - 1`. */
  function BlankFilters(n: nat): (r: map<nat, string>)
    ensures forall c: nat :: c in r <==> c < n
    ensures forall c :: c in r ==> r[c] == ""
  {
    if n == 0 then map[] else BlankFilters(n - 1)[n - 1 := ""]
  }

  /** `toggleFilterInput`: with no filters, one empty filter per column;
      otherwise none at all. */
  function ToggleFilters(filters: map<nat, string>, columnCount: nat): (r: map<nat, string>)
    ensures |filters| == 0 ==> (forall c: nat :: c in r <==> c < columnCount) && forall c :: c in r ==> r[c] == ""
    ensures |filters| != 0 ==> r == map[]
  {
    if |filters| == 0 then BlankFilters(columnCount) else map[]
  }

  /** Turning the filters on shows every row until a pattern is typed. */
  lemma ToggleOnShowsAll(g: Grid)
    ensures Displayed(g, ToggleFilters(map[], |g.columns|)) == g.rows
  {
    BlankFiltersShowAll(g, ToggleFilters(map[], |g.columns|));
  }

  // ---------------------------------------------------------------------
  // The CSV text of the Download button (no quoting)
  // ---------------------------------------------------------------------

  /** The column labels joined by `,`, then one line per row with S.No
      dropped and the cells joined by `,`, the lines joined by a newline. */
  function PlainCsv(columns: seq<string>, rows: seq<Row>): (r: string)
    ensures Join(',', columns) <= r
    ensures |rows| > 0 ==> Join(',', columns) + "\n" <= r
  {
    JoinStartsWithFirst('\n', Join(',', columns), BodyLines(rows));
    Join('\n', [Join(',', columns)] + BodyLines(rows))
  }

  function BodyLines(rows: seq<Row>): (r: seq<string>)
    ensures |r| == |rows|
    ensures forall k :: 0 <= k < |rows| ==> r[k] == Join(',', rows[k].cells)
  {
    seq(|rows|, k requires 0 <= k < |rows| => Join(',', rows[k].cells))
  }

  /** Reads such text back: split into lines, then each line into fields. */
  function DecodePlainCsv(text: string): (seq<string>, seq<seq<string>>) {
    var lines := Split(text, '\n');
    (Split(lines[0], ','), seq(|lines| - 1, k requires 0 <= k < |lines| - 1 => Split(lines[k + 1], ',')))
  }

  predicate PlainField(s: string) {
    ',' !in s && '\n' !in s
  }

  /** Labels and cells come back from the export as long as none of them
      holds a comma or a newline and no line is empty. */
  lemma PlainCsvRoundTrip(columns: seq<string>, rows: seq<Row>)
    requires |columns| >= 1 && forall c :: 0 <= c < |columns| ==> PlainField(columns[c])
    requires forall k :: 0 <= k < |rows| ==> |rows[k].cells| >= 1
    requires forall k, c :: 0 <= k < |rows| && 0 <= c < |rows[k].cells| ==> PlainField(rows[k].cells[c])
    ensures var decoded := DecodePlainCsv(PlainCsv(columns, rows));
      && decoded.0 == columns
      && |decoded.1| == |rows|
      && forall k :: 0 <= k < |rows| ==> decoded.1[k] == rows[k].cells
  {
    var lines := [Join(',', columns)] + BodyLines(rows);
    forall k | 0 <= k < |lines|
      ensures '\n' !in lines[k]
    {
      if k == 0 {
        JoinAvoids(',', columns, '\n');
      } else {
        JoinAvoids(',', rows[k - 1].cells, '\n');
      }
    }
    assert PlainCsv(columns, rows) == Join('\n', lines);
    SplitJoin(lines, '\n');
    SplitJoin(columns, ',');
    forall k | 0 <= k < |rows|
      ensures Split(lines[k + 1], ',') == rows[k].cells
    {
      SplitJoin(rows[k].cells, ',');
    }
    var decoded := DecodePlainCsv(PlainCsv(columns, rows));
    assert decoded.0 == columns;
    assert |decoded.1| == |rows|;
    assert forall k :: 0 <= k < |rows| ==> decoded.1[k] == rows[k].cells;
  }

  /** Without quoting, a cell holding a comma comes back as two fields. */
  lemma PlainCsvSplitsCommaCell()
    ensures DecodePlainCsv(PlainCsv(["A"], [Row(1, ["x,y"])])).1 == [["x", "y"]]
  {
    var text := PlainCsv(["A"], [Row(1, ["x,y"])]);
    assert Join(',', ["A"]) == "A";
    assert Join(',', ["x,y"]) == "x,y";
    assert BodyLines([Row(1, ["x,y"])]) == ["x,y"];
    assert text == Join('\n', ["A", "x,y"]);
    assert Split("x,y", ',') == ["x", "y"] by {
      SplitNoSep("y", ',');
      SplitPiece("x", ',', "y");
      assert "x" + [','] + "y" == "x,y";
    }
    assert Split(text, '\n') == ["A", "x,y"] by {
      SplitJoin(["A", "x,y"], '\n');
    }
  }
}
