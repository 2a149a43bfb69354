/** The viewer component (CSVViewer.jsx) as an object: the rows, the file
    name, the filters, the sort, the hidden columns and the page are fields,
    and each handler is a method that updates them.

    Rows on screen come from the sorted, filtered page, but the edit and
    delete handlers add the page's start to the row's position on the page
    and use the result as an index into the unsorted, unfiltered rows. The
    methods below state which stored row they touch. */
module Viewer {
  import opened Text
  import opened ViewPipeline
  import opened ViewerExport

  /** The page-size choices offered by the rows-per-page selector. */
  const PageSizes: seq<nat> := [10, 25, 50, 100]

  const DefaultRowsPerPage: nat := 25

  class CsvViewer {
    var tableData: seq<Record>
    var filename: string
    var editingFilename: bool
    var filterActive: bool
    var filters: map<string, string>
    var sortConfig: Option<SortConfig>
    var hiddenColumns: seq<string>
    var rowsPerPage: nat
    var currentPage: nat

    /** Every row is a well-formed object; the page size is positive and the
        page number at least one. */
    ghost predicate Valid()
      reads this
    {
      && rowsPerPage > 0 && currentPage >= 1
      && forall i :: 0 <= i < |tableData| ==> WellFormed(tableData[i])
    }

    /** `columns`: the first row's keys that are not hidden. */
    function Columns(): seq<string>
      requires |tableData| > 0
      reads this
    {
      VisibleColumns(tableData[0], hiddenColumns)
    }

    function Sorted(): seq<Record>
      reads this
    {
      SortedData(tableData, sortConfig)
    }

    /** `filteredData`. */
    function Filtered(): seq<Record>
      requires |tableData| > 0
      reads this
    {
      FilterRows(Sorted(), Columns(), filters)
    }

    function Pages(): nat
      requires Valid() && |tableData| > 0
      reads this
    {
      TotalPages(|Filtered()|, rowsPerPage)
    }

    /** `pageStartIndex`. */
    function Start(): nat
      requires Valid()
      reads this
    {
      PageStart(currentPage, rowsPerPage)
    }

    /** `paginatedData`: the rows on screen. */
    function Paginated(): seq<Record>
      requires Valid() && |tableData| > 0
      reads this
    {
      PageWindow(Filtered(), currentPage, rowsPerPage)
    }

    /** A position on the page plus the page's start is a position in the
        stored rows, because filtering never adds rows and sorting keeps
        their number. */
    lemma PagePositionInRange(rowIndex: nat)
      requires Valid() && |tableData| > 0 && rowIndex < |Paginated()|
      ensures Start() + rowIndex < |tableData|
    {
      FilterRowsSpec(Sorted(), Columns(), filters, tableData[0]);
    }

    /** The viewer opened on `data`: no filter, no sort, nothing hidden, 25
        rows per page, page 1. */
    constructor (data: seq<Record>, initialFilename: string)
      requires forall i :: 0 <= i < |data| ==> WellFormed(data[i])
      ensures Valid()
      ensures tableData == data && filename == initialFilename && !editingFilename
      ensures !filterActive && filters == map[] && sortConfig.None? && hiddenColumns == []
      ensures rowsPerPage == DefaultRowsPerPage && currentPage == 1
    {
      tableData := data;
      filename := initialFilename;
      editingFilename := false;
      filterActive := false;
      filters := map[];
      sortConfig := None;
      hiddenColumns := [];
      rowsPerPage := DefaultRowsPerPage;
      currentPage := 1;
    }

    /** Typing into the field `columnKey` of page row `rowIndex` writes the
        field of stored row `Start() + rowIndex`. */
    method HandleCellChange(rowIndex: nat, columnKey: string, value: string)
      requires Valid() && |tableData| > 0 && rowIndex < |Paginated()|
      modifies this`tableData
      ensures Valid()
      ensures old(Start() + rowIndex < |tableData|)
      ensures tableData == old(tableData[Start() + rowIndex := SetField(tableData[Start() + rowIndex], columnKey, value)])
    {
      PagePositionInRange(rowIndex);
      var actualIndex := Start() + rowIndex;
      tableData := tableData[actualIndex := SetField(tableData[actualIndex], columnKey, value)];
    }

    /** The trash button of page row `rowIndex` removes stored row
        `Start() + rowIndex`. */
    method HandleDeleteRow(rowIndex: nat)
      requires Valid() && |tableData| > 0 && rowIndex < |Paginated()|
      modifies this`tableData
      ensures Valid()
      ensures old(Start() + rowIndex < |tableData|)
      ensures tableData == old(tableData[..Start() + rowIndex] + tableData[Start() + rowIndex + 1..])
    {
      PagePositionInRange(rowIndex);
      var actualIndex := Start() + rowIndex;
      tableData := tableData[..actualIndex] + tableData[actualIndex + 1..];
    }

    /** `handleAddRow`: a row with every key of the first row, empty, at the
        end. */
    method HandleAddRow()
      requires Valid() && |tableData| > 0
      modifies this`tableData
      ensures Valid()
      ensures tableData == old(tableData) + [EmptyRecord(old(tableData[0].keys))]
    {
      tableData := tableData + [EmptyRecord(tableData[0].keys)];
    }

    /** `handleFilterChange`; the page goes back to 1 because the filters
        changed. */
    method HandleFilterChange(col: string, value: string)
      requires Valid()
      modifies this`filters, this`currentPage
      ensures Valid()
      ensures filters == old(filters)[col := value] && currentPage == 1
    {
      filters := filters[col := value];
      currentPage := 1;
    }

    method SortByAsc(col: string)
      requires Valid()
      modifies this`sortConfig, this`currentPage
      ensures Valid()
      ensures sortConfig == Some(SortConfig(col, Asc)) && currentPage == 1
    {
      sortConfig := Some(SortConfig(col, Asc));
      currentPage := 1;
    }

    method SortByDesc(col: string)
      requires Valid()
      modifies this`sortConfig, this`currentPage
      ensures Valid()
      ensures sortConfig == Some(SortConfig(col, Desc)) && currentPage == 1
    {
      sortConfig := Some(SortConfig(col, Desc));
      currentPage := 1;
    }

    /** `toggleFilter` and the FILTERS button: show or hide the filter inputs;
        the patterns themselves are kept. */
    method ToggleFilter()
      modifies this`filterActive
      ensures filterActive == !old(filterActive)
    {
      filterActive := !filterActive;
    }

    /** `hideColumn`; the page goes back to 1. */
    method HideColumn(col: string)
      requires Valid()
      modifies this`hiddenColumns, this`currentPage
      ensures Valid()
      ensures hiddenColumns == old(hiddenColumns) + [col] && currentPage == 1
    {
      hiddenColumns := hiddenColumns + [col];
      currentPage := 1;
    }

    method GoNextPage()
      requires Valid() && |tableData| > 0
      modifies this`currentPage
      ensures Valid()
      ensures currentPage == if old(currentPage) < Pages() then old(currentPage) + 1 else old(currentPage)
      ensures old(currentPage) <= Pages() ==> 1 <= currentPage <= Pages()
    {
      if currentPage < Pages() {
        currentPage := currentPage + 1;
      }
    }

    method GoPrevPage()
      requires Valid() && |tableData| > 0
      modifies this`currentPage
      ensures Valid()
      ensures old(currentPage) <= Pages() ==> 1 <= currentPage <= Pages()
      ensures currentPage == if old(currentPage) > 1 then old(currentPage) - 1 else old(currentPage)
    {
      if currentPage > 1 {
        currentPage := currentPage - 1;
      }
    }

    /** `onChangeRowsPerPage`: one of the offered sizes, and page 1. */
    method OnChangeRowsPerPage(size: nat)
      requires Valid() && size in PageSizes
      modifies this`rowsPerPage, this`currentPage
      ensures Valid()
      ensures rowsPerPage == size && currentPage == 1
    {
      rowsPerPage := size;
      currentPage := 1;
    }

    /** The file-name input while editing. */
    method HandleFilenameChange(name: string)
      modifies this`filename
      ensures filename == name
    {
      filename := name;
    }

    /** The pencil button. */
    method StartEditingFilename()
      modifies this`editingFilename
      ensures editingFilename
    {
      editingFilename := true;
    }

    /** `saveFilename`: editing ends only when the trimmed name is not empty. */
    method SaveFilename()
      modifies this`editingFilename
      ensures editingFilename == (old(editingFilename) && Trim(filename) == "")
    {
      if Trim(filename) == "" {
        return;
      }
      editingFilename := false;
    }

    /** `handleDownload`: nothing without rows; otherwise the header of all
        of the first row's keys, hidden ones included, then every filtered
        row of every page, quoted, and the download name. */
    method Download() returns (result: Option<(string, string)>)
      ensures |tableData| == 0 <==> result.None?
      ensures |tableData| > 0 ==>
        result == Some((QuotedCsv(tableData[0].keys, Filtered()), DownloadName(filename)))
    {
      if |tableData| == 0 {
        return None;
      }
      var text := BuildCsv(tableData[0].keys, Filtered());
      result := Some((text, DownloadName(filename)));
    }
  }

  /** The page position and the stored position disagree once the rows are
      sorted: sorting "p", "x" in descending order shows "x" first, while
      editing or deleting page row 0 acts on stored row 0, "p". */
  lemma PagePositionIsNotStoredPosition()
    ensures var p := Record(["a"], map["a" := "p"]);
            var x := Record(["a"], map["a" := "x"]);
            var shown := PageWindow(FilterRows(SortedData([p, x], Some(SortConfig("a", Desc))), ["a"], map[]), 1, DefaultRowsPerPage);
            |shown| == 2 && shown[0] == x && shown[0] != [p, x][PageStart(1, DefaultRowsPerPage) + 0]
  {
    var p := Record(["a"], map["a" := "p"]);
    var x := Record(["a"], map["a" := "x"]);
    var cfg := SortConfig("a", Desc);
    assert Lower("p") == "p" && Lower("x") == "x";
    assert LexLess("p", "x");
    assert Compare(p, x, cfg) > 0;
    assert Insert(x, [], cfg) == [x];
    assert SortRecords([x], cfg) == [x] by {
      assert [x][1..] == [];
    }
    assert SortRecords([p, x], cfg) == Insert(p, [x], cfg) by {
      assert [p, x][1..] == [x];
    }
    assert Insert(p, [x], cfg) == [x, p] by {
      assert [x][1..] == [];
    }
    BlankPatternsKeepAll([x, p], ["a"], map[]);
  }
}
