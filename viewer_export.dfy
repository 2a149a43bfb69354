/** The viewer's CSV export (`handleDownload` in CSVViewer.jsx): an unquoted
    header line of every column of the first row, then one line per filtered
    row with every field in double quotes and inner quotes doubled; and the
    rule that turns the edited file name into the download name. */
module ViewerExport {
  import opened Text
  import opened ViewPipeline

  /** The text holds a double quote (see `HasQuoteIff`). */
  predicate HasQuote(v: string)
    decreases |v|
  {
    |v| > 0 && (v[0] == '"' || HasQuote(v[1..]))
  }

  lemma {:induction false} HasQuoteIff(v: string)
    ensures HasQuote(v) <==> '"' in v
    decreases |v|
  {
    if |v| > 0 {
      HasQuoteIff(v[1..]);
      assert v == [v[0]] + v[1..];
    }
  }

  /** `.replace(/"/g, '""')`: every double quote doubled, so the text grows
      exactly when it holds a quote and is otherwise returned as it is. */
  function Escape(v: string): (r: string)
    ensures |r| >= |v|
    ensures !HasQuote(v) ==> r == v
    ensures HasQuote(v) ==> |r| > |v|
    decreases |v|
  {
    if |v| == 0 then "" else (if v[0] == '"' then "\"\"" else [v[0]]) + Escape(v[1..])
  }

  /** `"${...}"` around the escaped text; a helper of `QuotedCsv`, stated
      through `QuotesAreDoubled` and `QuotedCsvRoundTrip`. */
  function QuoteField(v: string): string {
    "\"" + Escape(v) + "\""
  }

  function QuoteAll(vals: seq<string>): (r: seq<string>)
    ensures |r| == |vals|
  {
    seq(|vals|, i requires 0 <= i < |vals| => QuoteField(vals[i]))
  }

  /** The fields of `row` for `columns`, a missing one as empty text. */
  function FieldsOf(row: Record, columns: seq<string>): (r: seq<string>)
    ensures |r| == |columns|
  {
    seq(|columns|, i requires 0 <= i < |columns| => Get(row, columns[i]))
  }

  /** One exported row: `vals.join(',')`. */
  function QuotedLine(row: Record, columns: seq<string>): string {
    Join(',', QuoteAll(FieldsOf(row, columns)))
  }

  function QuotedLines(rows: seq<Record>, columns: seq<string>): (r: seq<string>)
    ensures |r| == |rows|
  {
    seq(|rows|, k requires 0 <= k < |rows| => QuotedLine(rows[k], columns))
  }

  /** `csvRows.join('\n')` with the header `allColumns.join(',')` first. */
  function QuotedCsv(allColumns: seq<string>, rows: seq<Record>): (r: string)
    ensures Join(',', allColumns) <= r
    ensures |rows| > 0 ==> Join(',', allColumns) + "\n" <= r
  {
    JoinStartsWithFirst('\n', Join(',', allColumns), QuotedLines(rows, allColumns));
    Join('\n', [Join(',', allColumns)] + QuotedLines(rows, allColumns))
  }

  /** The loop of `handleDownload`: the header line first, then one quoted
      line pushed per row, all joined with newlines. */
  method BuildCsv(allColumns: seq<string>, rows: seq<Record>) returns (text: string)
    ensures text == QuotedCsv(allColumns, rows)
  {
    var csvRows := [Join(',', allColumns)];
    var i := 0;
    while i < |rows|
      invariant 0 <= i <= |rows|
      invariant csvRows == [Join(',', allColumns)] + QuotedLines(rows[..i], allColumns)
    {
      assert QuotedLines(rows[..i + 1], allColumns) == QuotedLines(rows[..i], allColumns) + [QuotedLine(rows[i], allColumns)];
      csvRows := csvRows + [QuotedLine(rows[i], allColumns)];
      i := i + 1;
    }
    assert rows[..i] == rows;
    text := Join('\n', csvRows);
  }

  // ---------------------------------------------------------------------
  // A reader for the quoted lines, as the partner of the writer
  // ---------------------------------------------------------------------

  /** Reads the inside of a quoted field (the opening quote already
      consumed): a doubled quote stands for one quote, a single quote ends
      the field. Returns the field and what follows the closing quote. */
  function ReadQuoted(s: string): (r: Option<(string, string)>)
    ensures r.Some? ==> |r.value.1| < |s|
    decreases |s|
  {
    if |s| == 0 then None
    else if s[0] == '"' then
      if |s| > 1 && s[1] == '"' then
        match ReadQuoted(s[2..])
        case None => None
        case Some((v, rest)) => Some(("\"" + v, rest))
      else Some(("", s[1..]))
    else
      match ReadQuoted(s[1..])
      case None => None
      case Some((v, rest)) => Some(([s[0]] + v, rest))
  }

  /** Reads a line of comma-separated quoted fields. */
  function ReadFields(s: string): Option<seq<string>>
    decreases |s|
  {
    if |s| == 0 || s[0] != '"' then None
    else
      match ReadQuoted(s[1..])
      case None => None
      case Some((v, rest)) =>
        if rest == "" then Some([v])
        else if rest[0] == ',' then
          match ReadFields(rest[1..])
          case None => None
          case Some(vs) => Some([v] + vs)
        else None
  }

  /** A doubled quote inside a field reads as one quote. */
  lemma ReadQuotedDoubled(inner: string, v: string, tail: string)
    requires ReadQuoted(inner) == Some((v, tail))
    ensures ReadQuoted("\"\"" + inner) == Some(("\"" + v, tail))
  {
    var s := "\"\"" + inner;
    assert s[0] == '"' && s[1] == '"' && s[2..] == inner;
  }

  /** Any other character is read as itself. */
  lemma ReadQuotedPlain(c: char, inner: string, v: string, tail: string)
    requires c != '"' && ReadQuoted(inner) == Some((v, tail))
    ensures ReadQuoted([c] + inner) == Some(([c] + v, tail))
  {
    var s := [c] + inner;
    assert s[0] == c && s[1..] == inner;
  }

  /** Escaping works one character at a time. */
  lemma EscapeHead(v: string)
    requires |v| > 0
    ensures Escape(v) == (if v[0] == '"' then "\"\"" else [v[0]]) + Escape(v[1..])
  {
  }

  /** The escaped text followed by the closing quote reads back as the
      original text, leaving whatever follows the field. */
  lemma {:induction false} ReadQuotedEscape(v: string, tail: string)
    requires tail == "" || tail[0] != '"'
    ensures ReadQuoted(Escape(v) + "\"" + tail) == Some((v, tail))
    decreases |v|
  {
    if |v| == 0 {
      ReadQuotedClose(tail);
    } else {
      ReadQuotedEscape(v[1..], tail);
      EscapeHead(v);
      ReadQuotedStep(v, Escape(v[1..]), tail);
    }
  }

  /** A closing quote ends an empty field. */
  lemma ReadQuotedClose(tail: string)
    requires tail == "" || tail[0] != '"'
    ensures ReadQuoted("" + "\"" + tail) == Some(("", tail))
  {
    var s := "" + "\"" + tail;
    assert s[0] == '"' && s[1..] == tail;
  }

  /** One more escaped character in front of an escaped text reads back as
      that character in front of the text. */
  lemma ReadQuotedStep(v: string, e: string, tail: string)
    requires |v| > 0
    requires ReadQuoted(e + "\"" + tail) == Some((v[1..], tail))
    ensures ReadQuoted((if v[0] == '"' then "\"\"" else [v[0]]) + e + "\"" + tail) == Some((v, tail))
  {
    var inner := e + "\"" + tail;
    if v[0] == '"' {
      assert "\"\"" + e + "\"" + tail == "\"\"" + inner;
      ReadQuotedDoubled(inner, v[1..], tail);
      assert "\"" + v[1..] == v;
    } else {
      assert [v[0]] + e + "\"" + tail == [v[0]] + inner;
      ReadQuotedPlain(v[0], inner, v[1..], tail);
      assert [v[0]] + v[1..] == v;
    }
  }

  /** Quoting then joining with commas reads back as the original fields. */
  lemma {:induction false} ReadFieldsQuoted(vals: seq<string>)
    requires |vals| >= 1
    ensures ReadFields(Join(',', QuoteAll(vals))) == Some(vals)
    decreases |vals|
  {
    var q := QuoteAll(vals);
    var e := Escape(vals[0]);
    assert q[0] == "\"" + e + "\"";
    if |vals| == 1 {
      ReadQuotedEscape(vals[0], "");
      JoinOneQuoted(q, e);
      ReadFieldsLast(vals[0], e);
      assert vals == [vals[0]];
    } else {
      var restText := Join(',', q[1..]);
      assert q[1..] == QuoteAll(vals[1..]);
      ReadFieldsQuoted(vals[1..]);
      ReadQuotedEscape(vals[0], "," + restText);
      JoinFirstQuoted(q, e);
      ReadFieldsNext(vals[0], e, restText, vals[1..]);
      assert [vals[0]] + vals[1..] == vals;
    }
  }

  lemma JoinOneQuoted(q: seq<string>, e: string)
    requires |q| == 1 && q[0] == "\"" + e + "\""
    ensures Join(',', q) == "\"" + (e + "\"" + "")
  {
  }

  lemma JoinFirstQuoted(q: seq<string>, e: string)
    requires |q| >= 2 && q[0] == "\"" + e + "\""
    ensures Join(',', q) == "\"" + (e + "\"" + ("," + Join(',', q[1..])))
  {
  }

  /** The last field of a line. */
  lemma ReadFieldsLast(v: string, e: string)
    requires ReadQuoted(e + "\"" + "") == Some((v, ""))
    ensures ReadFields("\"" + (e + "\"" + "")) == Some([v])
  {
    var line := "\"" + (e + "\"" + "");
    assert line[0] == '"' && line[1..] == e + "\"" + "";
  }

  /** A field followed by a comma and the rest of the line. */
  lemma ReadFieldsNext(v: string, e: string, restText: string, vs: seq<string>)
    requires ReadQuoted(e + "\"" + ("," + restText)) == Some((v, "," + restText))
    requires ReadFields(restText) == Some(vs)
    ensures ReadFields("\"" + (e + "\"" + ("," + restText))) == Some([v] + vs)
  {
    var line := "\"" + (e + "\"" + ("," + restText));
    assert line[0] == '"' && line[1..] == e + "\"" + ("," + restText);
    assert ("," + restText)[1..] == restText;
  }

  /** Escaping introduces no character but quotes. */
  lemma {:induction false} EscapeAvoids(v: string, c: char)
    requires c != '"' && c !in v
    ensures c !in Escape(v)
    decreases |v|
  {
    if |v| > 0 {
      EscapeAvoids(v[1..], c);
    }
  }

  /** The reader the export is checked against: lines, then the header
      split on commas and every other line read as quoted fields. */
  function DecodeQuotedCsv(text: string): (seq<string>, seq<Option<seq<string>>>) {
    var lines := Split(text, '\n');
    (Split(lines[0], ','), seq(|lines| - 1, k requires 0 <= k < |lines| - 1 => ReadFields(lines[k + 1])))
  }

  /** The export reads back as the header and, for every row, the text of
      each of its fields, as long as there is a column, no column name holds
      a comma or a newline and no field holds a newline. */
  lemma QuotedCsvRoundTrip(allColumns: seq<string>, rows: seq<Record>)
    requires |allColumns| >= 1
    requires forall c :: 0 <= c < |allColumns| ==> ',' !in allColumns[c] && '\n' !in allColumns[c]
    requires forall k, c :: 0 <= k < |rows| && 0 <= c < |allColumns| ==> '\n' !in Get(rows[k], allColumns[c])
    ensures var d := DecodeQuotedCsv(QuotedCsv(allColumns, rows));
            && d.0 == allColumns && |d.1| == |rows|
            && forall k :: 0 <= k < |rows| ==> d.1[k] == Some(FieldsOf(rows[k], allColumns))
  {
    var lines := [Join(',', allColumns)] + QuotedLines(rows, allColumns);
    forall k | 0 <= k < |lines|
      ensures '\n' !in lines[k]
    {
      if k == 0 {
        JoinAvoids(',', allColumns, '\n');
      } else {
        var vals := FieldsOf(rows[k - 1], allColumns);
        forall i | 0 <= i < |vals|
          ensures '\n' !in QuoteAll(vals)[i]
        {
          EscapeAvoids(vals[i], '\n');
        }
        JoinAvoids(',', QuoteAll(vals), '\n');
      }
    }
    SplitJoin(lines, '\n');
    SplitJoin(allColumns, ',');
    forall k | 0 <= k < |rows|
      ensures ReadFields(lines[k + 1]) == Some(FieldsOf(rows[k], allColumns))
    {
      ReadFieldsQuoted(FieldsOf(rows[k], allColumns));
    }
  }

  /** Escaping works character by character. */
  lemma {:induction false} EscapeAppend(a: string, b: string)
    ensures Escape(a + b) == Escape(a) + Escape(b)
    decreases |a|
  {
    if |a| > 0 {
      var head := if a[0] == '"' then "\"\"" else [a[0]];
      EscapeAppend(a[1..], b);
      assert (a + b)[0] == a[0] && (a + b)[1..] == a[1..] + b;
      EscapeHead(a + b);
      EscapeHead(a);
      assert head + (Escape(a[1..]) + Escape(b)) == (head + Escape(a[1..])) + Escape(b);
    } else {
      assert a + b == b;
    }
  }

  /** A quote inside a field is written as two quotes: a field made of
      quote-free text `a`, a quote and any text `b` is exported as a quote,
      `a`, two quotes, the escaped `b` and a closing quote. */
  lemma QuotesAreDoubled(a: string, b: string)
    requires '"' !in a
    ensures QuoteField(a + "\"" + b) == "\"" + a + "\"\"" + Escape(b) + "\""
  {
    EscapeQuoteAfter(a);
    EscapeAppend(a + "\"", b);
  }

  /** Quote-free text followed by one quote escapes to the text and two quotes. */
  lemma EscapeQuoteAfter(a: string)
    requires '"' !in a
    ensures Escape(a + "\"") == a + "\"\""
  {
    EscapeQuote();
    HasQuoteIff(a);
    EscapeAppend(a, "\"");
  }

  lemma EscapeQuote()
    ensures Escape("\"") == "\"\""
  {
    var q := "\"";
    assert q[1..] == "";
  }

  // ---------------------------------------------------------------------
  // The download name
  // ---------------------------------------------------------------------

  /** The trimmed name, `untitled.csv` when that is empty, with `.csv`
      appended unless it already ends in `.csv` in any letter case. */
  function DownloadName(filename: string): (r: string)
    ensures EndsWith(Lower(r), ".csv")
    ensures Trim(filename) == "" ==> r == "untitled.csv"
    ensures Trim(filename) != "" ==> r == Trim(filename) || r == Trim(filename) + ".csv"
    ensures EndsWith(Lower(Trim(filename)), ".csv") ==> r == Trim(filename)
  {
    var t := Trim(filename);
    var f := if t == "" then Untitled else t;
    UntitledEndsWithCsv();
    LowerAppendCsv(f);
    if !EndsWith(Lower(f), ".csv") then f + ".csv" else f
  }

  const Untitled: string := "untitled.csv"

  lemma UntitledEndsWithCsv()
    ensures EndsWith(Lower(Untitled), ".csv")
  {
    LowerUnchanged(Untitled);
    assert Untitled[|Untitled| - 4..] == ".csv";
  }

  /** Lower-casing leaves text without capitals as it is. */
  lemma LowerUnchanged(s: string)
    requires forall i :: 0 <= i < |s| ==> !IsUpper(s[i])
    ensures Lower(s) == s
  {
  }

  /** Appending `.csv` and lower-casing gives a name ending in `.csv`. */
  lemma LowerAppendCsv(a: string)
    ensures EndsWith(Lower(a + ".csv"), ".csv")
  {
    var b := ".csv";
    LowerUnchanged(b);
    assert Lower(a + b) == Lower(a) + Lower(b) by {
      assert forall i :: 0 <= i < |a + b| ==> Lower(a + b)[i] == (Lower(a) + Lower(b))[i];
    }
    assert (Lower(a) + b)[|Lower(a) + b| - 4..] == b;
  }

  lemma UntitledTrimmed()
    ensures Trim(Untitled) == Untitled
  {
    assert !IsJsWhitespace(Untitled[0]) && !IsJsWhitespace(Untitled[|Untitled| - 1]);
    TrimUnchanged(Untitled);
  }

  lemma AppendCsvTrimmed(t: string)
    requires t != "" && !IsJsWhitespace(t[0])
    ensures Trim(t + ".csv") == t + ".csv"
  {
    var r := t + ".csv";
    assert r[0] == t[0] && r[|r| - 1] == 'v';
    TrimUnchanged(r);
  }

  /** The download name has no white space at either end. */
  lemma DownloadNameTrimmed(filename: string)
    ensures Trim(DownloadName(filename)) == DownloadName(filename)
  {
    var t := Trim(filename);
    var r := DownloadName(filename);
    if t == "" {
      UntitledTrimmed();
    } else if r == t {
      TrimUnchanged(t);
    } else {
      AppendCsvTrimmed(t);
    }
  }

  /** Downloading under the name already produced keeps that name. */
  lemma DownloadNameIdempotent(filename: string)
    ensures DownloadName(DownloadName(filename)) == DownloadName(filename)
  {
    var r := DownloadName(filename);
    DownloadNameTrimmed(filename);
    assert EndsWith(Lower(Trim(r)), ".csv");
  }
}
