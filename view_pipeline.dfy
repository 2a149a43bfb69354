/** The viewer's data pipeline (CSVViewer.jsx): each row is a JavaScript
    object from column name to text; the view sorts the rows on one column,
    keeps the rows that pass the filters of the visible columns and cuts the
    result into pages. */
module ViewPipeline {
  import opened Text
  import opened SeqUtil

  // ---------------------------------------------------------------------
  // Rows as objects
  // ---------------------------------------------------------------------

  /** A parsed CSV row: the object's keys in insertion order and its fields. */
  datatype Record = Record(keys: seq<string>, value: map<string, string>)

  predicate DistinctKeys(keys: seq<string>) {
    forall i, j :: 0 <= i < j < |keys| ==> keys[i] != keys[j]
  }

  /** The keys are listed once each and are exactly the fields present. */
  ghost predicate WellFormed(r: Record) {
    DistinctKeys(r.keys) && forall k :: k in r.value <==> k in r.keys
  }

  /** `row[col] ?? ''`: a missing field reads as the empty text. A helper of
      the sort, the export and `EmptyRecord`, stated through their contracts. */
  function Get(r: Record, col: string): string {
    if col in r.value then r.value[col] else ""
  }

  /** `{ ...row, [col]: v }`: the field is replaced, or added after the
      existing keys; every other field is kept. */
  function SetField(r: Record, col: string, v: string): (t: Record)
    ensures Get(t, col) == v && col in t.value
    ensures forall k :: k != col ==> Get(t, k) == Get(r, k) && (k in t.value <==> k in r.value)
    ensures col in r.keys ==> t.keys == r.keys
    ensures col !in r.keys ==> t.keys == r.keys + [col]
    ensures WellFormed(r) ==> WellFormed(t)
  {
    Record(if col in r.keys then r.keys else r.keys + [col], r.value[col := v])
  }

  /** The row `handleAddRow` appends: every key of the first row, empty. */
  function EmptyRecord(keys: seq<string>): (r: Record)
    ensures r.keys == keys
    ensures forall k :: k in keys ==> k in r.value && Get(r, k) == ""
    ensures DistinctKeys(keys) ==> WellFormed(r)
  {
    Record(keys, map k | k in keys :: "")
  }

  // ---------------------------------------------------------------------
  // Sorting on one column
  // ---------------------------------------------------------------------

  datatype Direction = Asc | Desc

  /** `sortConfig`: the column to sort on and the direction. */
  datatype SortConfig = SortConfig(column: string, direction: Direction)

  /** `(row[column] || '').toString().toLowerCase()`; a helper of `Compare`,
      whose contract states it. */
  function SortKey(r: Record, column: string): string {
    Lower(Get(r, column))
  }

  /** The comparator handed to `Array.prototype.sort`: -1, 0 or 1 from the
      `<` and `>` tests on the lower-cased keys, with the signs swapped for
      descending order. */
  function Compare(a: Record, b: Record, cfg: SortConfig): (c: int)
    ensures -1 <= c <= 1
    ensures c == 0 <==> SortKey(a, cfg.column) == SortKey(b, cfg.column)
    ensures cfg.direction == Asc ==> (c < 0 <==> LexLess(SortKey(a, cfg.column), SortKey(b, cfg.column)))
    ensures cfg.direction == Desc ==> (c < 0 <==> LexLess(SortKey(b, cfg.column), SortKey(a, cfg.column)))
  {
    var x := SortKey(a, cfg.column);
    var y := SortKey(b, cfg.column);
    LexIrreflexive(x);
    LexTotal(x, y);
    LexAsymmetric(x, y);
    if LexLess(x, y) then (if cfg.direction == Asc then -1 else 1)
    else if LexLess(y, x) then (if cfg.direction == Asc then 1 else -1)
    else 0
  }

  /** Swapping the arguments negates the comparison. */
  lemma CompareAntisymmetric(a: Record, b: Record, cfg: SortConfig)
    ensures Compare(a, b, cfg) == -Compare(b, a, cfg)
  {
    LexAsymmetric(SortKey(a, cfg.column), SortKey(b, cfg.column));
  }

  /** Descending order is ascending order with every comparison reversed. */
  lemma DescendingReversesAscending(a: Record, b: Record, column: string)
    ensures Compare(a, b, SortConfig(column, Desc)) == Compare(b, a, SortConfig(column, Asc))
  {
    LexAsymmetric(SortKey(a, column), SortKey(b, column));
  }

  /** "Not after" is transitive, so the comparator is a consistent order. */
  lemma CompareTransitive(a: Record, b: Record, c: Record, cfg: SortConfig)
    requires Compare(a, b, cfg) <= 0 && Compare(b, c, cfg) <= 0
    ensures Compare(a, c, cfg) <= 0
  {
    var x, y, z := SortKey(a, cfg.column), SortKey(b, cfg.column), SortKey(c, cfg.column);
    LexTransitive(x, y, z);
    LexTransitive(z, y, x);
  }

  /** Places `x` before the first element it does not come after; used to
      build a stable sort from the back of the sequence forward. */
  function Insert(x: Record, s: seq<Record>, cfg: SortConfig): (r: seq<Record>)
    ensures |r| == |s| + 1
    ensures multiset(r) == multiset(s) + multiset{x}
    ensures r[0] == x || (|s| > 0 && r[0] == s[0])
    decreases |s|
  {
    if |s| == 0 || Compare(x, s[0], cfg) <= 0 then [x] + s
    else
      assert s == [s[0]] + s[1..];
      [s[0]] + Insert(x, s[1..], cfg)
  }

  /** `[...tableData].sort(comparator)`; `Array.prototype.sort` is stable. */
  function SortRecords(s: seq<Record>, cfg: SortConfig): (r: seq<Record>)
    ensures |r| == |s| && multiset(r) == multiset(s)
    decreases |s|
  {
    if |s| == 0 then []
    else
      assert s == [s[0]] + s[1..];
      Insert(s[0], SortRecords(s[1..], cfg), cfg)
  }

  /** `sortedData`: the rows unchanged without a sort, sorted otherwise. */
  function SortedData(s: seq<Record>, sortConfig: Option<SortConfig>): (r: seq<Record>)
    ensures |r| == |s| && multiset(r) == multiset(s)
    ensures sortConfig.None? ==> r == s
    ensures sortConfig.Some? ==> OrderedPairs(r, sortConfig.value)
  {
    if sortConfig.None? then s
    else
      SortOrdered(s, sortConfig.value);
      OrderedAllPairs(SortRecords(s, sortConfig.value), sortConfig.value);
      SortRecords(s, sortConfig.value)
  }

  predicate Ordered(s: seq<Record>, cfg: SortConfig) {
    forall i :: 0 <= i < |s| - 1 ==> Compare(s[i], s[i + 1], cfg) <= 0
  }

  predicate OrderedPairs(s: seq<Record>, cfg: SortConfig) {
    forall i, j :: 0 <= i < j < |s| ==> Compare(s[i], s[j], cfg) <= 0
  }

  lemma {:induction false} InsertOrdered(x: Record, s: seq<Record>, cfg: SortConfig)
    requires Ordered(s, cfg)
    ensures Ordered(Insert(x, s, cfg), cfg)
    decreases |s|
  {
    if |s| > 0 && Compare(x, s[0], cfg) > 0 {
      InsertOrdered(x, s[1..], cfg);
      CompareAntisymmetric(x, s[0], cfg);
    }
  }

  lemma {:induction false} SortOrdered(s: seq<Record>, cfg: SortConfig)
    ensures Ordered(SortRecords(s, cfg), cfg)
    decreases |s|
  {
    if |s| > 0 {
      SortOrdered(s[1..], cfg);
      InsertOrdered(s[0], SortRecords(s[1..], cfg), cfg);
    }
  }

  /** Neighbours in order means every pair in order. */
  lemma {:induction false} OrderedAllPairs(s: seq<Record>, cfg: SortConfig)
    requires Ordered(s, cfg)
    ensures OrderedPairs(s, cfg)
    decreases |s|
  {
    if |s| > 1 {
      OrderedAllPairs(s[1..], cfg);
      forall j | 0 < j < |s|
        ensures Compare(s[0], s[j], cfg) <= 0
      {
        if j > 1 {
          assert Compare(s[1], s[j], cfg) <= 0 by {
            assert s[1..][0] == s[1] && s[1..][j - 1] == s[j];
          }
          CompareTransitive(s[0], s[1], s[j], cfg);
        }
      }
      forall i, j | 0 <= i < j < |s|
        ensures Compare(s[i], s[j], cfg) <= 0
      {
        if i > 0 {
          assert s[1..][i - 1] == s[i] && s[1..][j - 1] == s[j];
        }
      }
    }
  }

  /** The test "this row's sort key is `k`". */
  function HasKey(column: string, k: string): Record -> bool {
    r => SortKey(r, column) == k
  }

  /** The rows of one sort-key value: the sort must keep them in their
      original relative order. */
  function KeyClass(s: seq<Record>, column: string, k: string): seq<Record> {
    Filter(HasKey(column, k), s)
  }

  /** The key class of one row: the row itself or nothing. */
  function KeyOf(x: Record, column: string, k: string): seq<Record> {
    if SortKey(x, column) == k then [x] else []
  }

  lemma KeyClassCons(x: Record, s: seq<Record>, column: string, k: string)
    ensures KeyClass([x] + s, column, k) == KeyOf(x, column, k) + KeyClass(s, column, k)
  {
    FilterSingleton(HasKey(column, k), x);
    FilterAppend(HasKey(column, k), [x], s);
  }

  lemma InsertBehind(x: Record, s: seq<Record>, cfg: SortConfig)
    requires |s| > 0 && Compare(x, s[0], cfg) > 0
    ensures Insert(x, s, cfg) == [s[0]] + Insert(x, s[1..], cfg)
  {
  }

  /** Rows that compare unequal have different keys, so at most one of them
      is in a key class. */
  lemma UnequalKeyOf(x: Record, y: Record, cfg: SortConfig, k: string)
    requires Compare(x, y, cfg) != 0
    ensures KeyOf(x, cfg.column, k) == [] || KeyOf(y, cfg.column, k) == []
  {
  }

  /** The key class of `[y] + rest`, where `rest` is `tail` with `x` inserted
      and at most one of `x`, `y` has key `k`. */
  lemma KeyClassBehind(x: Record, y: Record, rest: seq<Record>, tail: seq<Record>, column: string, k: string)
    requires KeyClass(rest, column, k) == KeyOf(x, column, k) + KeyClass(tail, column, k)
    requires KeyOf(x, column, k) == [] || KeyOf(y, column, k) == []
    ensures KeyClass([y] + rest, column, k) == KeyOf(x, column, k) + KeyClass([y] + tail, column, k)
  {
    KeyClassCons(y, rest, column, k);
    KeyClassCons(y, tail, column, k);
    var xs, head, t := KeyOf(x, column, k), KeyOf(y, column, k), KeyClass(tail, column, k);
    if head == [] {
      assert head + (xs + t) == xs + t && head + t == t;
    } else {
      assert xs + (head + t) == head + t && xs + t == t;
    }
  }

  lemma {:induction false} InsertStable(x: Record, s: seq<Record>, cfg: SortConfig, k: string)
    ensures KeyClass(Insert(x, s, cfg), cfg.column, k) ==
            KeyOf(x, cfg.column, k) + KeyClass(s, cfg.column, k)
    decreases |s|
  {
    if |s| == 0 || Compare(x, s[0], cfg) <= 0 {
      assert Insert(x, s, cfg) == [x] + s;
      KeyClassCons(x, s, cfg.column, k);
    } else {
      InsertStable(x, s[1..], cfg, k);
      InsertBehind(x, s, cfg);
      UnequalKeyOf(x, s[0], cfg, k);
      KeyClassBehind(x, s[0], Insert(x, s[1..], cfg), s[1..], cfg.column, k);
      assert [s[0]] + s[1..] == s;
    }
  }

  /** The result is sorted, is a permutation of the input, and rows with
      equal keys keep their original relative order. */
  lemma {:induction false} SortRecordsCorrect(s: seq<Record>, cfg: SortConfig, k: string)
    ensures multiset(SortRecords(s, cfg)) == multiset(s)
    ensures OrderedPairs(SortRecords(s, cfg), cfg)
    ensures KeyClass(SortRecords(s, cfg), cfg.column, k) == KeyClass(s, cfg.column, k)
    decreases |s|
  {
    SortOrdered(s, cfg);
    OrderedAllPairs(SortRecords(s, cfg), cfg);
    if |s| > 0 {
      SortRecordsCorrect(s[1..], cfg, k);
      InsertStable(s[0], SortRecords(s[1..], cfg), cfg, k);
    }
  }

  /** The first row surviving a filter of an ordered sequence does not come
      before anything that comes before the sequence's head. */
  lemma FilterHeadAfter(p: Record -> bool, x: Record, t: seq<Record>, cfg: SortConfig)
    requires Ordered(t, cfg) && |t| > 0 && Compare(x, t[0], cfg) <= 0
    requires |Filter(p, t)| > 0
    ensures Compare(x, Filter(p, t)[0], cfg) <= 0
  {
    var f := Filter(p, t);
    FilterMembership(p, t, f[0]);
    var j :| 0 <= j < |t| && t[j] == f[0];
    OrderedAllPairs(t, cfg);
    if j > 0 {
      CompareTransitive(x, t[0], t[j], cfg);
    }
  }

  lemma FilterInsertFront(p: Record -> bool, x: Record, t: seq<Record>, cfg: SortConfig)
    requires Ordered(t, cfg) && |t| > 0 && Compare(x, t[0], cfg) <= 0
    ensures Filter(p, Insert(x, t, cfg)) == if p(x) then Insert(x, Filter(p, t), cfg) else Filter(p, t)
  {
    assert Insert(x, t, cfg) == [x] + t;
    FilterAppend(p, [x], t);
    var f := Filter(p, t);
    if p(x) && |f| > 0 {
      FilterHeadAfter(p, x, t, cfg);
      assert Insert(x, f, cfg) == [x] + f;
    }
  }

  lemma FilterInsertBehind(p: Record -> bool, x: Record, t: seq<Record>, cfg: SortConfig)
    requires |t| > 0 && Compare(x, t[0], cfg) > 0
    requires Filter(p, Insert(x, t[1..], cfg)) ==
             if p(x) then Insert(x, Filter(p, t[1..]), cfg) else Filter(p, t[1..])
    ensures Filter(p, Insert(x, t, cfg)) == if p(x) then Insert(x, Filter(p, t), cfg) else Filter(p, t)
  {
    var rest := Insert(x, t[1..], cfg);
    var f1 := Filter(p, t[1..]);
    var head: seq<Record> := if p(t[0]) then [t[0]] else [];
    assert Insert(x, t, cfg) == [t[0]] + rest;
    assert Filter(p, [t[0]]) == head by {
      assert [t[0]][1..] == [];
    }
    FilterAppend(p, [t[0]], rest);
    assert Filter(p, t) == head + f1;
    if p(x) {
      assert Filter(p, rest) == Insert(x, f1, cfg);
      if p(t[0]) {
        assert ([t[0]] + f1)[0] == t[0] && ([t[0]] + f1)[1..] == f1;
        assert Insert(x, [t[0]] + f1, cfg) == [t[0]] + Insert(x, f1, cfg);
      } else {
        assert head + f1 == f1;
        assert head + Insert(x, f1, cfg) == Insert(x, f1, cfg);
      }
    } else {
      assert Filter(p, rest) == f1;
    }
  }

  /** Filtering an ordered sequence and inserting commute. */
  lemma {:induction false} FilterInsert(p: Record -> bool, x: Record, t: seq<Record>, cfg: SortConfig)
    requires Ordered(t, cfg)
    ensures Filter(p, Insert(x, t, cfg)) == if p(x) then Insert(x, Filter(p, t), cfg) else Filter(p, t)
    decreases |t|
  {
    if |t| == 0 {
      assert Insert(x, t, cfg) == [x];
    } else if Compare(x, t[0], cfg) <= 0 {
      FilterInsertFront(p, x, t, cfg);
    } else {
      FilterInsert(p, x, t[1..], cfg);
      FilterInsertBehind(p, x, t, cfg);
    }
  }

  /** Sorting then filtering, as the viewer does, equals filtering then
      sorting. */
  lemma {:induction false} FilterSortCommute(p: Record -> bool, s: seq<Record>, cfg: SortConfig)
    ensures Filter(p, SortRecords(s, cfg)) == SortRecords(Filter(p, s), cfg)
    decreases |s|
  {
    if |s| > 0 {
      var sortedTail := SortRecords(s[1..], cfg);
      var f := Filter(p, s[1..]);
      assert SortRecords(s, cfg) == Insert(s[0], sortedTail, cfg);
      FilterSortCommute(p, s[1..], cfg);
      SortOrdered(s[1..], cfg);
      FilterInsert(p, s[0], sortedTail, cfg);
      assert Filter(p, s) == (if p(s[0]) then [s[0]] else []) + f;
      if p(s[0]) {
        assert ([s[0]] + f)[0] == s[0] && ([s[0]] + f)[1..] == f;
        assert SortRecords([s[0]] + f, cfg) == Insert(s[0], SortRecords(f, cfg), cfg);
      } else {
        assert Filter(p, s) == f;
      }
    }
  }

  // ---------------------------------------------------------------------
  // Hidden columns and filters
  // ---------------------------------------------------------------------

  /** `Object.keys(tableData[0]).filter((col) => !hiddenColumns.includes(col))`. */
  function VisibleColumns(first: Record, hidden: seq<string>): (r: seq<string>)
    ensures |r| <= |first.keys|
    ensures forall c :: c in r <==> c in first.keys && c !in hidden
  {
    FilterMembershipAll(c => c !in hidden, first.keys);
    Filter(c => c !in hidden, first.keys)
  }

  lemma VisibleColumnsSpec(first: Record, hidden: seq<string>, c: string)
    ensures c in VisibleColumns(first, hidden) <==> c in first.keys && c !in hidden
    ensures IsSubsequence(VisibleColumns(first, hidden), first.keys)
  {
    FilterMembership(c => c !in hidden, first.keys, c);
    FilterIsSubsequence(c => c !in hidden, first.keys);
  }

  /** One column's test: no pattern or an empty pattern lets every row
      through; otherwise the row must have the field and the lower-cased
      field must contain the lower-cased pattern. A helper of `FilterRows`,
      stated through its contract and `FilterRowsSpec`. */
  predicate FieldPasses(row: Record, col: string, filters: map<string, string>) {
    col !in filters || filters[col] == "" ||
    (col in row.value && Includes(Lower(row.value[col]), Lower(filters[col])))
  }

  predicate RowPasses(row: Record, columns: seq<string>, filters: map<string, string>) {
    forall i :: 0 <= i < |columns| ==> FieldPasses(row, columns[i], filters)
  }

  /** `filteredData`. */
  function FilterRows(rows: seq<Record>, columns: seq<string>, filters: map<string, string>): (r: seq<Record>)
    ensures |r| <= |rows|
    ensures forall row :: row in r <==> row in rows && RowPasses(row, columns, filters)
  {
    FilterMembershipAll(r => RowPasses(r, columns, filters), rows);
    Filter(r => RowPasses(r, columns, filters), rows)
  }

  /** The filtered rows are exactly the rows passing every visible column's
      filter, in their original order. */
  lemma FilterRowsSpec(rows: seq<Record>, columns: seq<string>, filters: map<string, string>, row: Record)
    ensures row in FilterRows(rows, columns, filters) <==> row in rows && RowPasses(row, columns, filters)
    ensures IsSubsequence(FilterRows(rows, columns, filters), rows)
    ensures |FilterRows(rows, columns, filters)| <= |rows|
  {
    FilterMembership(r => RowPasses(r, columns, filters), rows, row);
    FilterIsSubsequence(r => RowPasses(r, columns, filters), rows);
  }

  /** A pattern typed for a column that is hidden has no effect. */
  lemma HiddenFilterIgnored(rows: seq<Record>, columns: seq<string>, filters: map<string, string>, col: string, v: string)
    requires col !in columns
    ensures FilterRows(rows, columns, filters[col := v]) == FilterRows(rows, columns, filters)
  {
    forall r, i | 0 <= i < |columns|
      ensures FieldPasses(r, columns[i], filters[col := v]) == FieldPasses(r, columns[i], filters)
    {
    }
    FilterCongruent(r => RowPasses(r, columns, filters[col := v]), r => RowPasses(r, columns, filters), rows);
  }

  /** With every pattern empty, nothing is filtered out. */
  lemma BlankPatternsKeepAll(rows: seq<Record>, columns: seq<string>, filters: map<string, string>)
    requires forall c :: c in filters ==> filters[c] == ""
    ensures FilterRows(rows, columns, filters) == rows
  {
    FilterKeepsAll(r => RowPasses(r, columns, filters), rows);
  }

  // ---------------------------------------------------------------------
  // Pagination
  // ---------------------------------------------------------------------

  /** `Math.max(1, Math.ceil(totalRows / rowsPerPage))`: the fewest pages of
      `perPage` rows that hold `n` rows, and never fewer than one. */
  function TotalPages(n: nat, perPage: nat): (p: nat)
    requires perPage > 0
    ensures p >= 1
    ensures n == 0 ==> p == 1
    ensures n > 0 ==> (p - 1) * perPage < n <= p * perPage
  {
    var q := (n + perPage - 1) / perPage;
    var m := (n + perPage - 1) % perPage;
    assert n + perPage - 1 == q * perPage + m && 0 <= m < perPage;
    assert (q - 1) * perPage == q * perPage - perPage;
    if q < 1 then 1 else q
  }

  /** `(currentPage - 1) * rowsPerPage`; a helper of `PageWindow`, whose
      contract states it. */
  function PageStart(page: nat, perPage: nat): nat
    requires page >= 1
  {
    (page - 1) * perPage
  }

  /** `filteredData.slice(pageStartIndex, pageEndIndex)` with
      `pageEndIndex = Math.min(pageStartIndex + rowsPerPage, totalRows)`:
      at most `perPage` consecutive rows from the page's start, none once
      the start is past the end. */
  function PageWindow(data: seq<Record>, page: nat, perPage: nat): (r: seq<Record>)
    requires page >= 1 && perPage > 0
    ensures |r| <= perPage
    ensures PageStart(page, perPage) < |data| ==> |r| == Min(perPage, |data| - PageStart(page, perPage))
    ensures PageStart(page, perPage) >= |data| ==> r == []
    ensures forall i :: 0 <= i < |r| ==>
      PageStart(page, perPage) + i < |data| && r[i] == data[PageStart(page, perPage) + i]
  {
    var start := PageStart(page, perPage);
    var end := Min(start + perPage, |data|);
    if start < end then data[start..end] else []
  }

  /** Pages 1 to `k` laid end to end. */
  function PagesUpTo(data: seq<Record>, perPage: nat, k: nat): seq<Record>
    requires perPage > 0
  {
    if k == 0 then [] else PagesUpTo(data, perPage, k - 1) + PageWindow(data, k, perPage)
  }

  /** Adding page `k` to pages 1 to `k - 1` extends the prefix by one page. */
  lemma PagesUpToStep(data: seq<Record>, perPage: nat, k: nat, start: nat)
    requires perPage > 0 && k > 0 && start == (k - 1) * perPage
    requires PagesUpTo(data, perPage, k - 1) == data[..Min(start, |data|)]
    ensures PagesUpTo(data, perPage, k) == data[..Min(start + perPage, |data|)]
  {
    var end := Min(start + perPage, |data|);
    if start < |data| {
      assert PageWindow(data, k, perPage) == data[start..end];
      assert data[..start] + data[start..end] == data[..end];
    } else {
      assert PageWindow(data, k, perPage) == [];
    }
  }

  lemma {:induction false} PagesUpToPrefix(data: seq<Record>, perPage: nat, k: nat)
    requires perPage > 0
    ensures PagesUpTo(data, perPage, k) == data[..Min(k * perPage, |data|)]
    decreases k
  {
    if k > 0 {
      PagesUpToPrefix(data, perPage, k - 1);
      assert k * perPage == (k - 1) * perPage + perPage;
      PagesUpToStep(data, perPage, k, (k - 1) * perPage);
    }
  }

  /** The pages partition the filtered rows: pages 1 to `TotalPages`
      concatenated give every row once, in order. */
  lemma PagesPartition(data: seq<Record>, perPage: nat)
    requires perPage > 0
    ensures PagesUpTo(data, perPage, TotalPages(|data|, perPage)) == data
  {
    PagesUpToPrefix(data, perPage, TotalPages(|data|, perPage));
  }

  /** A page number past `TotalPages` shows no rows. */
  lemma PageBeyondLastIsEmpty(data: seq<Record>, page: nat, perPage: nat)
    requires perPage > 0 && page > TotalPages(|data|, perPage)
    ensures PageWindow(data, page, perPage) == []
  {
    var p := TotalPages(|data|, perPage);
    MulMonotone(p, page - 1, perPage);
  }

  lemma {:induction false} MulMonotone(a: nat, b: nat, c: nat)
    requires a <= b
    ensures a * c <= b * c
    decreases b - a
  {
    if a < b {
      MulMonotone(a, b - 1, c);
      assert b * c == (b - 1) * c + c;
    }
  }
}
