# DataNest Online CSV Editor: the table-editing engine in Dafny

This project models the three React components that hold the data-grid
logic of the DataNest Online CSV Editor, and proves properties of them.

- **The spreadsheet editor** (`CSVEditor.jsx`). It starts from a blank
  template of 8 labelled columns and 100 numbered rows. It can add and
  delete columns and rows, renumber the S.No column after a deletion,
  filter rows per column with a case-insensitive substring test, move a
  cell cursor with the arrow keys and Enter (wrapping round the edges),
  select a rectangle with the mouse, clear a range with Backspace, and
  download the filtered rows as unquoted CSV text.
- **The stand-alone grid** (`EditableTable.jsx`). It is a `rows` x `cols`
  matrix of strings with the same selection and keyboard protocol. Its
  Backspace without a range empties the whole cell, where the editor only
  drops the last character. Both behaviours are modelled.
- **The viewer** (`CSVViewer.jsx`). It shows parsed rows (objects from
  column name to text). Its view is derived in three steps: a stable
  one-column sort on lower-cased text, filters on the visible columns, and
  pagination. It can edit, delete and add rows, hide columns and
  download the filtered rows as quoted CSV under a normalised file name.

Modules:

| module | file | contents |
|---|---|---|
| `Text` | text.dfy | the JavaScript operations used: `toLowerCase`, `includes`, `join`, `trim`, `endsWith`, number formatting, `<` on strings, `Math.min`/`Math.max`; `Split` and `ParseNat` are not used by the components and serve only as the readers in the round-trip proofs |
| `SeqUtil` | seq_util.dfy | `Array.prototype.filter` on sequences and its laws |
| `Selection` | selection.dfy | cells, the range test `isInRange`, keyboard navigation, the mouse protocol |
| `EditorGrid` | editor_grid.dfy | the editor's table as a value: template, structural edits, filters, plain CSV |
| `CsvEditorState` | csv_editor.dfy | class `CsvEditor`: the editor's state and event handlers |
| `EditableTableState` | editable_table.dfy | class `EditableTable` over an `array2<string>` |
| `ViewPipeline` | view_pipeline.dfy | the viewer's rows, sort, filter and pagination |
| `ViewerExport` | viewer_export.dfy | the viewer's quoted CSV, a reader for it, and the download name |
| `Viewer` | csv_viewer.dfy | class `CsvViewer`: the viewer's state and handlers |

The editor and viewer states are classes whose fields the handler methods
reassign. Each method's `ensures` gives the new state as a function of the
old one. The lemmas prove what those functions promise: round trips,
permutation and stability, partitions, and inverses.

Two index mismatches in the source are reproduced, not corrected, and each
is shown by a concrete lemma:

- The editor draws `displayedRows` (the filtered rows). Its edit, delete
  and Backspace handlers, however, index the unfiltered `rows` with the
  display row number (`CSVEditor.jsx:358-396`). See
  `CsvEditorState.DisplayIndexIsNotStorageIndex`.
- The viewer draws the sorted and filtered page. Its edit and delete
  handlers index the unsorted, unfiltered `tableData` with
  `pageStartIndex + rowIndex` (`CSVViewer.jsx:109-119`). See
  `Viewer.PagePositionIsNotStoredPosition`. The model also proves that
  this index is always within `tableData` (`Viewer.CsvViewer.PagePositionInRange`),
  so the handlers never write past the end.

Behaviour of the code worth knowing:

- `currentPage` is not clamped to `totalPages` when rows are deleted or
  edited. Only a change to the filters, the sort or the hidden columns
  (and a new page size) resets it to 1. A page past the last one shows no
  rows (`ViewPipeline.PageBeyondLastIsEmpty`).
- The editor keeps its filters and selection when a column is added or
  deleted. Filters are keyed by column index and are not re-indexed.
- Deleting a row has no out-of-range error path. The display index is
  always a valid index of the unfiltered rows (`CsvEditorState.CsvEditor.ShownIndexInRows`).
- The viewer's sort compares lower-cased text, not the text as it is.

## Model

| member | source | states |
|---|---|---|
| Selection.InRange | frontend/src/pages/Editor/CSVEditor.jsx:173-180 | a cell is in range iff both ends are set and its row and column each lie between the two ends' coordinates, whichever end is larger |
| Selection.InRangeSymmetric | frontend/src/pages/Editor/CSVEditor.jsx:173-180 | swapping anchor and focus highlights the same cells |
| Selection.InRangeNeedsBothEnds | frontend/src/pages/Editor/CSVEditor.jsx:174 | with either end of the range unset no cell is in range |
| Selection.WrapNext | frontend/src/pages/Editor/CSVEditor.jsx:187 | stepping forward stays inside the grid: the next index, or 0 from the last one |
| Selection.WrapPrev | frontend/src/pages/Editor/CSVEditor.jsx:189 | stepping back stays inside the grid: the previous index, or the last one from 0 |
| Selection.Navigate | frontend/src/pages/Editor/CSVEditor.jsx:186-193 | exactly Enter and the four arrows navigate, and the target stays inside the grid; Enter and ArrowDown go one row down, from the last row to row 0; ArrowUp one row up, from row 0 to the last row; ArrowRight one column right, from the last column to column 0; ArrowLeft one column left, from column 0 to the last column; the other coordinate is kept |
| Selection.EnterIsDown | frontend/src/pages/EditableTable.jsx:33 | Enter moves exactly like ArrowDown |
| Selection.NavigateInverse | frontend/src/pages/Editor/CSVEditor.jsx:186-193 | Up undoes Down, Down undoes Up, Left undoes Right and Right undoes Left on every cell, wrap-around included |
| Selection.MouseDown | frontend/src/pages/Editor/CSVEditor.jsx:227-231 | the pressed cell becomes active and the anchor, and no cell is highlighted yet |
| Selection.MouseOver | frontend/src/pages/Editor/CSVEditor.jsx:233-237 | active cell and anchor are kept; without an anchor nothing changes; with one, exactly the rectangle between the anchor and the hovered cell is highlighted |
| Selection.MouseUp | frontend/src/pages/Editor/CSVEditor.jsx:239-243 | active cell and anchor are kept; with an anchor a range exists afterwards; an existing focus is left alone; an anchor without a focus highlights exactly the anchor cell |
| Selection.Moved | frontend/src/pages/Editor/CSVEditor.jsx:220-223 | the target becomes the active cell, both ends of the range are cleared, and no cell is highlighted |
| Selection.ClickSelectsOneCell | frontend/src/pages/Editor/CSVEditor.jsx:227-243 | press then release on one cell highlights that cell and no other |
| Selection.DragSelectsRectangle | frontend/src/pages/Editor/CSVEditor.jsx:227-243 | press on a, hover over b, release: a stays active and exactly the rectangle spanned by a and b is highlighted |
| Selection.HoverWithoutAnchor | frontend/src/pages/Editor/CSVEditor.jsx:233-237 | hovering without a prior press changes nothing |
| Selection.HoverAndReleaseKeepAnchor | frontend/src/pages/Editor/CSVEditor.jsx:233-243 | hover and release never move the active cell or the anchor, and releasing twice equals releasing once |
| Selection.MovedLeavesNoAnchor | frontend/src/pages/Editor/CSVEditor.jsx:220-243 | after keyboard navigation a hover or a release without a new press changes nothing and highlights nothing |
| EditorGrid.DefaultGrid | frontend/src/pages/Editor/CSVEditor.jsx:6-10 | the template is well-formed: 8 columns labelled `Column 1`..`Column 8` and 100 blank rows numbered from 1 |
| EditorGrid.ColumnLabelInjective | frontend/src/pages/Editor/CSVEditor.jsx:49 | different numbers give different `Column N` labels |
| EditorGrid.DefaultLabelsDistinct | frontend/src/pages/Editor/CSVEditor.jsx:6 | the template's column labels are pairwise different |
| EditorGrid.AddColumn | frontend/src/pages/Editor/CSVEditor.jsx:48-52 | the label `Column N+1` is appended and every row gains one empty cell at its end; well-formedness is kept |
| EditorGrid.AddRow | frontend/src/pages/Editor/CSVEditor.jsx:54-57 | the old rows are kept and one blank row as wide as the columns is appended, numbered with the new row count; well-formedness is kept |
| EditorGrid.DeleteColumn | frontend/src/pages/Editor/CSVEditor.jsx:59-73 | label `index` is removed, every row loses cell `index` and keeps its number; well-formedness is kept |
| EditorGrid.Renumber | frontend/src/pages/Editor/CSVEditor.jsx:80 | every row's number becomes its 1-based position; cells unchanged |
| EditorGrid.DeleteRow | frontend/src/pages/Editor/CSVEditor.jsx:75-84 | one row fewer; rows before the index keep their cells, later rows shift up by one; every row is numbered by its position |
| EditorGrid.RenumberValid | frontend/src/pages/Editor/CSVEditor.jsx:80 | renumbering an already numbered table changes nothing |
| EditorGrid.AddColumnThenDelete | frontend/src/pages/Editor/CSVEditor.jsx:48-73 | deleting the column just added restores the table |
| EditorGrid.AddRowThenDelete | frontend/src/pages/Editor/CSVEditor.jsx:54-84 | deleting the row just added restores the table |
| EditorGrid.Displayed | frontend/src/pages/Editor/CSVEditor.jsx:154-162 | never more rows than the table; a row is displayed iff it is a row of the table passing every column's filter |
| EditorGrid.DisplayedSpec | frontend/src/pages/Editor/CSVEditor.jsx:154-162 | a row is displayed iff it is a row of the table that passes every column's filter; the displayed rows keep their order and are never more than the rows |
| EditorGrid.MatchingRowsExtend | frontend/src/pages/Editor/CSVEditor.jsx:155-161 | applying one more column's filter to already-filtered rows equals filtering once on all those columns |
| EditorGrid.MatchingRowsBlank | frontend/src/pages/Editor/CSVEditor.jsx:157 | a column whose pattern is empty filters nothing out |
| EditorGrid.BlankFiltersShowAll | frontend/src/pages/Editor/CSVEditor.jsx:154-162 | with every pattern empty all rows are displayed |
| EditorGrid.ToggleFilters | frontend/src/pages/Editor/CSVEditor.jsx:135-147 | with no filters, one empty filter per column index; otherwise no filters |
| EditorGrid.ToggleOnShowsAll | frontend/src/pages/Editor/CSVEditor.jsx:135-162 | switching filters on shows every row until a pattern is typed |
| EditorGrid.PlainCsv | frontend/src/pages/Editor/CSVEditor.jsx:110-113 | the text starts with the labels joined by commas, followed by a newline when there are rows |
| EditorGrid.PlainCsvRoundTrip | frontend/src/pages/Editor/CSVEditor.jsx:110-113 | splitting the export on newlines and commas gives back the labels and each row's cells (S.No dropped), when no label or cell holds a comma or newline |
| EditorGrid.PlainCsvSplitsCommaCell | frontend/src/pages/Editor/CSVEditor.jsx:110-113 | without quoting, a cell `x,y` reads back as two fields |
| CsvEditorState.DropLastChar | frontend/src/pages/Editor/CSVEditor.jsx:209-210 | the empty text stays empty; otherwise the result is the text minus its last character |
| CsvEditorState.DisplayIndexIsNotStorageIndex | frontend/src/pages/Editor/CSVEditor.jsx:358-396 | with a filter hiding row 0, display row 0 is stored row 1, not the stored row 0 the handlers touch |
| CsvEditorState.CsvEditor.ShownIndexInRows | frontend/src/pages/Editor/CSVEditor.jsx:154-162 | every display index is also an index of the unfiltered rows |
| CsvEditorState.CsvEditor.constructor | frontend/src/pages/Editor/CSVEditor.jsx:13-22 | name `Untitled`, the template table, no filters, cell (0, 0) active, no range |
| CsvEditorState.CsvEditor.HandleAddColumn | frontend/src/pages/Editor/CSVEditor.jsx:48-52 | the table becomes `AddColumn` of the old table and stays well-formed |
| CsvEditorState.CsvEditor.HandleAddRow | frontend/src/pages/Editor/CSVEditor.jsx:54-57 | the table becomes `AddRow` of the old table and stays well-formed |
| CsvEditorState.CsvEditor.HandleDeleteColumn | frontend/src/pages/Editor/CSVEditor.jsx:59-73 | the table becomes `DeleteColumn` of the old table at that index and stays well-formed |
| CsvEditorState.CsvEditor.HandleDeleteRow | frontend/src/pages/Editor/CSVEditor.jsx:75-84 | a display index is a valid unfiltered index, and the unfiltered row with that index is deleted and the rest renumbered |
| CsvEditorState.CsvEditor.HandleCellChange | frontend/src/pages/Editor/CSVEditor.jsx:124-132 | the S.No column (-1) is never written; otherwise exactly cell `colIndex` of unfiltered row `rowIndex` takes the value |
| CsvEditorState.CsvEditor.HandleFileNameChange | frontend/src/pages/Editor/CSVEditor.jsx:263 | the file name becomes the typed text |
| CsvEditorState.CsvEditor.ToggleFilterInput | frontend/src/pages/Editor/CSVEditor.jsx:135-147 | the filters become `ToggleFilters` of the old filters and the column count |
| CsvEditorState.CsvEditor.HandleFilterChange | frontend/src/pages/Editor/CSVEditor.jsx:150-152 | only the pattern of that column changes |
| CsvEditorState.CsvEditor.DisplayedRows | frontend/src/pages/Editor/CSVEditor.jsx:154-162 | the loop over the filters in increasing column order yields the displayed rows: an order-preserving subsequence of the rows, every one of them passing every filter |
| CsvEditorState.CsvEditor.Download | frontend/src/pages/Editor/CSVEditor.jsx:95-122 | the text is the plain CSV of the labels and the displayed rows; the name is the file name plus `.csv` |
| CsvEditorState.CsvEditor.ClearRange | frontend/src/pages/Editor/CSVEditor.jsx:198-206 | exactly the cells of the unfiltered rows inside the range become empty; numbers and all other cells are kept |
| CsvEditorState.CsvEditor.HandleKeyDown | frontend/src/pages/Editor/CSVEditor.jsx:182-224 | arrows and Enter move with wrap-around over the unfiltered row count and clear the range, data untouched; Backspace clears the range or drops the last character of the cell, cursor untouched; other keys change nothing |
| CsvEditorState.CsvEditor.HandleMouseDown | frontend/src/pages/Editor/CSVEditor.jsx:227-231 | the selection becomes `MouseDown` of the old one |
| CsvEditorState.CsvEditor.HandleMouseOver | frontend/src/pages/Editor/CSVEditor.jsx:233-237 | the selection becomes `MouseOver` of the old one |
| CsvEditorState.CsvEditor.HandleMouseUp | frontend/src/pages/Editor/CSVEditor.jsx:239-243 | the selection becomes `MouseUp` of the old one |
| EditableTableState.EditableTable.constructor | frontend/src/pages/EditableTable.jsx:3-7 | a fresh `rows` x `cols` matrix of empty strings, cell (0, 0) active, no range |
| EditableTableState.EditableTable.Default | frontend/src/pages/EditableTable.jsx:3-4 | without props, a fresh 5 x 5 empty matrix |
| EditableTableState.EditableTable.HandleChange | frontend/src/pages/EditableTable.jsx:62-66 | exactly the edited cell takes the typed value |
| EditableTableState.EditableTable.ClearRange | frontend/src/pages/EditableTable.jsx:40-46 | exactly the cells inside the range become empty |
| EditableTableState.EditableTable.HandleKeyDown | frontend/src/pages/EditableTable.jsx:29-60 | arrows and Enter move with wrap-around and clear the range, data untouched; Backspace clears the range, or else empties the whole cell, cursor untouched; other keys change nothing |
| EditableTableState.EditableTable.HandleMouseDown | frontend/src/pages/EditableTable.jsx:68-72 | the selection becomes `MouseDown` of the old one |
| EditableTableState.EditableTable.HandleMouseOver | frontend/src/pages/EditableTable.jsx:74-78 | the selection becomes `MouseOver` of the old one |
| EditableTableState.EditableTable.HandleMouseUp | frontend/src/pages/EditableTable.jsx:80-84 | the selection becomes `MouseUp` of the old one |
| ViewPipeline.SetField | frontend/src/pages/Views/CSVViewer.jsx:112 | the field takes the value, every other field is kept, a new key goes last, well-formedness is kept |
| ViewPipeline.EmptyRecord | frontend/src/pages/Views/CSVViewer.jsx:121-124 | a row with exactly the given keys, each empty |
| ViewPipeline.Compare | frontend/src/pages/Views/CSVViewer.jsx:61-68 | -1, 0 or 1; 0 iff the lower-cased keys are equal; negative iff a's key is smaller (ascending) or larger (descending) |
| ViewPipeline.CompareAntisymmetric | frontend/src/pages/Views/CSVViewer.jsx:61-68 | swapping the rows negates the comparison |
| ViewPipeline.DescendingReversesAscending | frontend/src/pages/Views/CSVViewer.jsx:65-66 | descending order is ascending order with the arguments swapped |
| ViewPipeline.CompareTransitive | frontend/src/pages/Views/CSVViewer.jsx:61-68 | "not after" is transitive, so the comparator is a consistent order |
| ViewPipeline.SortedData | frontend/src/pages/Views/CSVViewer.jsx:56-69 | a permutation of the rows; the rows themselves without a sort; in comparator order with one |
| ViewPipeline.SortRecords | frontend/src/pages/Views/CSVViewer.jsx:56-69 | the sorted rows are a permutation of the rows |
| ViewPipeline.SortRecordsCorrect | frontend/src/pages/Views/CSVViewer.jsx:56-69 | the sort is a permutation, every pair is in comparator order, and rows with equal keys keep their relative order |
| ViewPipeline.FilterSortCommute | frontend/src/pages/Views/CSVViewer.jsx:56-101 | sorting then filtering, as the viewer does, equals filtering then sorting |
| ViewPipeline.VisibleColumns | frontend/src/pages/Views/CSVViewer.jsx:94 | never more columns than the first row's keys; a column is shown iff it is a key of the first row and not hidden |
| ViewPipeline.VisibleColumnsSpec | frontend/src/pages/Views/CSVViewer.jsx:94 | a column is shown iff it is a key of the first row and not hidden, in key order |
| ViewPipeline.FilterRows | frontend/src/pages/Views/CSVViewer.jsx:97-101 | never more rows than given; a row survives iff it is one of the rows and passes every visible column's filter |
| ViewPipeline.FilterRowsSpec | frontend/src/pages/Views/CSVViewer.jsx:97-101 | a row survives iff it is a row passing every visible column's filter; order kept; never more rows |
| ViewPipeline.HiddenFilterIgnored | frontend/src/pages/Views/CSVViewer.jsx:94-101 | a pattern on a hidden column has no effect |
| ViewPipeline.BlankPatternsKeepAll | frontend/src/pages/Views/CSVViewer.jsx:97-101 | with every pattern empty nothing is filtered out |
| ViewPipeline.TotalPages | frontend/src/pages/Views/CSVViewer.jsx:104 | at least one page; one page for no rows; otherwise the fewest pages of the page size that hold all rows |
| ViewPipeline.PageWindow | frontend/src/pages/Views/CSVViewer.jsx:105-107 | at most a page of consecutive rows from the page's start; none once the start is past the end |
| ViewPipeline.PagesPartition | frontend/src/pages/Views/CSVViewer.jsx:103-107 | pages 1 to `totalPages` concatenated give every filtered row once, in order |
| ViewPipeline.PageBeyondLastIsEmpty | frontend/src/pages/Views/CSVViewer.jsx:103-107 | a page number past `totalPages` shows no rows |
| ViewerExport.Escape | frontend/src/pages/Views/CSVViewer.jsx:149 | text without a quote is returned as it is; text with a quote comes back longer; never shorter |
| ViewerExport.QuotedCsv | frontend/src/pages/Views/CSVViewer.jsx:143-154 | the text starts with the header of the column names joined by commas, followed by a newline when there are rows |
| ViewerExport.BuildCsv | frontend/src/pages/Views/CSVViewer.jsx:143-154 | the loop pushing the header and one quoted line per row, joined by newlines, yields exactly `QuotedCsv` |
| ViewerExport.QuotedCsvRoundTrip | frontend/src/pages/Views/CSVViewer.jsx:143-154 | reading the export back gives the header and every field of every filtered row, quotes included, when no column name holds a comma or newline and no field a newline |
| ViewerExport.QuotesAreDoubled | frontend/src/pages/Views/CSVViewer.jsx:149 | a quote inside a field is written as two quotes, and the whole field is enclosed in quotes |
| ViewerExport.DownloadName | frontend/src/pages/Views/CSVViewer.jsx:160-163 | the name ends in `.csv` in any letter case; `untitled.csv` for a blank name; otherwise the trimmed name, with `.csv` added only when missing |
| ViewerExport.DownloadNameIdempotent | frontend/src/pages/Views/CSVViewer.jsx:160-163 | normalising a produced download name again keeps it |
| Viewer.PagePositionIsNotStoredPosition | frontend/src/pages/Views/CSVViewer.jsx:109-119 | once sorted descending, page row 0 shows `x` while the stored row 0 the handlers touch is `p` |
| Viewer.CsvViewer.PagePositionInRange | frontend/src/pages/Views/CSVViewer.jsx:109-119 | page start plus a page position is always an index of the stored rows |
| Viewer.CsvViewer.constructor | frontend/src/pages/Views/CSVViewer.jsx:39-50 | the given rows and name, not editing, no filter, no sort, nothing hidden, 25 rows per page, page 1 |
| Viewer.CsvViewer.HandleCellChange | frontend/src/pages/Views/CSVViewer.jsx:109-114 | the index is in range and exactly that stored row gets the field set; all other rows kept |
| Viewer.CsvViewer.HandleDeleteRow | frontend/src/pages/Views/CSVViewer.jsx:116-119 | the index is in range and exactly that stored row is removed |
| Viewer.CsvViewer.HandleAddRow | frontend/src/pages/Views/CSVViewer.jsx:121-126 | a row with every key of the first row, empty, is appended |
| Viewer.CsvViewer.HandleFilterChange | frontend/src/pages/Views/CSVViewer.jsx:128-130 | only that column's pattern changes, and the page returns to 1 |
| Viewer.CsvViewer.SortByAsc | frontend/src/pages/Views/CSVViewer.jsx:190-193 | ascending sort on the column, page 1 |
| Viewer.CsvViewer.SortByDesc | frontend/src/pages/Views/CSVViewer.jsx:195-198 | descending sort on the column, page 1 |
| Viewer.CsvViewer.ToggleFilter | frontend/src/pages/Views/CSVViewer.jsx:200-203 | the filter inputs flip between shown and hidden; patterns kept |
| Viewer.CsvViewer.HideColumn | frontend/src/pages/Views/CSVViewer.jsx:205-208 | the column is appended to the hidden list, page 1 |
| Viewer.CsvViewer.GoNextPage | frontend/src/pages/Views/CSVViewer.jsx:211-213 | one page on unless already on the last; a page within range stays within range |
| Viewer.CsvViewer.GoPrevPage | frontend/src/pages/Views/CSVViewer.jsx:215-217 | one page back unless on page 1; a page within range stays within range |
| Viewer.CsvViewer.OnChangeRowsPerPage | frontend/src/pages/Views/CSVViewer.jsx:219-222 | the chosen page size, page 1 |
| Viewer.CsvViewer.HandleFilenameChange | frontend/src/pages/Views/CSVViewer.jsx:244 | the file name becomes the typed text |
| Viewer.CsvViewer.StartEditingFilename | frontend/src/pages/Views/CSVViewer.jsx:258 | editing of the name starts |
| Viewer.CsvViewer.SaveFilename | frontend/src/pages/Views/CSVViewer.jsx:132-136 | editing ends only when the trimmed name is not blank |
| Viewer.CsvViewer.Download | frontend/src/pages/Views/CSVViewer.jsx:138-181 | nothing iff there are no rows; otherwise the header of every first-row key, hidden ones included, the quoted filtered rows of all pages, and the normalised download name |

## Left out

- Saving to `localStorage` (`CSVEditor.jsx:87-93`), the viewer's `onSave` callback (`CSVViewer.jsx:224-227`) and navigation away (`goHome`, `goDashboard`, `handleClose`) are I/O and routing. They change no grid state.
- Toast messages, input focusing (`focusCell`), the column menus (`menuOpenIndex`, `dropdownOpenFor`) and their click-outside listeners are presentation only.
- Producing the file (Blob, object URL, anchor click, `revokeObjectURL`) is browser I/O. `Download` returns the text and the name.
- CSV upload and parsing (`CSVUpload.jsx`), the dashboard, the landing page and the contact form are not part of this model. The viewer receives already-parsed rows.
- The `e.buttons === 1` test before the editor's mouseover handler (`CSVEditor.jsx:378-380`) is left to the caller. `HandleMouseOver` is the call made when the button is held.
- `Text.Lower`: lower-cases ASCII `A`-`Z` only. JavaScript's `toLowerCase` also maps other Unicode letters, so filters and the sort are case-insensitive only for ASCII.
- `ViewPipeline.FieldPasses`: filters are a map from column name to pattern. The source reads `filters[col]` on a plain object, so a column named like an `Object.prototype` member (`constructor`, `toString`) finds an inherited function there, which is truthy, and the `.toLowerCase()` call on it throws. The model treats such a column like any other.
- `Text.LexLess`: compares characters by code point. JavaScript's `<` compares UTF-16 code units, and the two orders differ only between characters above U+FFFF and characters from U+E000 to U+FFFF.
- `ViewPipeline.Record`: keeps the object's keys in insertion order. JavaScript lists integer-like keys first, in increasing order, so headers of a file whose column names are numbers may come out in a different order.
- `EditorGrid.CellMatches`: a non-empty filter on a column past the end of a row does not match. In the source, `row[colIndex + 1].toString()` throws instead. Deleting any column leaves the filters as they are (`CSVEditor.jsx:59-73`), so the pattern stored under the old last column index now names a column that no longer exists, and the filter at `CSVEditor.jsx:159` reads past the end of the row if that pattern is non-empty.
- `CsvEditorState.CsvEditor.HandleCellChange`: rows are values. The source writes into the inner row arrays of the current state, which are shared with older states and with the module-level template, so a second editor opened in the same page would see the edits. `HandleKeyDown` and `ClearRange` are modelled the same way.
- `Viewer.CsvViewer.OnChangeRowsPerPage`: requires one of the offered sizes 10, 25, 50, 100. The source's `Number(e.target.value)` of any other text is not modelled.
- `Viewer.CsvViewer.HandleFilterChange`: the page reset is a React effect on `filters`, `sortConfig` and `hiddenColumns` (`CSVViewer.jsx:84-86`). The model performs it in the handler that changes them, so the single render that still shows the old page is not modelled. `SortByAsc`, `SortByDesc` and `HideColumn` are modelled the same way.
- `Viewer.CsvViewer.constructor`: a `null` data prop is treated as no rows. Changes of the `data` or `initialFilename` props after mounting are ignored, as `useState` does.
- `EditableTableState.EditableTable.constructor`: `rows` and `cols` are fixed at mounting. The source reads the current props in its key handler, but the matrix keeps its first size.
- `Viewer.CsvViewer.HandleCellChange`, `HandleDeleteRow`, `HandleAddRow`, `GoNextPage` and `GoPrevPage` require at least one row, because the source returns the "No data found" message instead of the table, and so renders none of their controls, when there are none (`CSVViewer.jsx:90-92`). The other handlers require only a well-formed state.
- `CsvEditorState.DropLastChar`: removes the last Unicode character. The source's `currentVal.slice(0, -1)` (`CSVEditor.jsx:210`) removes the last UTF-16 code unit, so for a cell ending in a character above U+FFFF, such as an emoji, the source leaves half of a surrogate pair behind where the model removes the whole character.
