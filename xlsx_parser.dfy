/** The worksheet reader of the importer: it turns the first worksheet of an
    XLSX workbook into dense rows of cell text. The ZIP container and the XML
    parser are not modelled; what they deliver is given as values: the parsed
    `c` elements of each `row` (SpreadsheetML, ECMA-376 Part 1, section 18.3.1)
    and the `si` entries of the shared string table (section 18.4). */
module XlsxParser {
  import opened Runtime

  /** One `c` element of a worksheet row, as the XML layer delivers it. */
  datatype Cell = Cell(
    r: string,              // the `r` attribute, a reference such as "B7" ('' when absent)
    t: string,              // the `t` attribute, the type tag ('' when absent)
    v: Option<string>,      // text of the `v` child, found with or without the default namespace
    inlineT: Option<string> // text of the `is/t` child
  )

  datatype RowElement = RowElement(cells: seq<Cell>)

  /** A parsed worksheet; `rows` is `None` when it has no `sheetData/row`. */
  datatype Worksheet = Worksheet(rows: Option<seq<RowElement>>)

  /** A rich-text run `r` of a shared string, with the text of its `t` child. */
  datatype Run = Run(t: Option<string>)

  /** An `si` entry of the shared string table: a plain `t` child and/or runs. */
  datatype StringItem = StringItem(t: Option<string>, runs: seq<Run>)

  /** The outcome of handing an XML part to the XML parser. */
  datatype Xml<T> = Malformed | WellFormed(doc: T)

  /** The two parts of the archive the reader looks at; `None` when the archive
      has no entry of that name. */
  datatype Archive = Archive(
    sharedStrings: Option<Xml<seq<StringItem>>>, // xl/sharedStrings.xml
    sheet1: Option<Xml<Worksheet>>               // xl/worksheets/sheet1.xml
  )

  /** The uploaded file as the reader finds it on disk. */
  datatype Upload = Missing | NotAZip | Zip(archive: Archive)

  datatype ReadError = NoZipSupport | FileNotFound | ZipOpenFailed | NoWorksheet | XmlParseFailed

  // ------------------------------------------------------------ column letters

  predicate IsColumnName(w: string) {
    w != [] && forall i :: 0 <= i < |w| ==> IsUpper(w[i])
  }

  /** The leading run of upper-case letters of a reference (`/^([A-Z]+)/`). */
  function LeadingUpper(s: string): (w: string)
    ensures w <= s && (forall i :: 0 <= i < |w| ==> IsUpper(w[i]))
    ensures |w| < |s| ==> !IsUpper(s[|w|])
  {
    if s != [] && IsUpper(s[0]) then [s[0]] + LeadingUpper(s[1..]) else []
  }

  /** The column letters of a reference; a reference that does not start with
      an upper-case letter is read as column "A". */
  function ColumnLetters(ref: string): (w: string)
    ensures IsColumnName(w)
  {
    var m := LeadingUpper(ref);
    if m == [] then "A" else m
  }

  function LetterValue(c: char): (n: nat)
    requires IsUpper(c)
    ensures 1 <= n <= 26
  {
    c as int - 'A' as int + 1
  }

  function Letter(n: nat): (c: char)
    requires 1 <= n <= 26
    ensures IsUpper(c) && LetterValue(c) == n
  {
    ('A' as int + n - 1) as char
  }

  /** The one-based number of a column name, read as a bijective base-26
      numeral with digits A = 1 .. Z = 26. */
  function ColumnNumber(w: string): nat
    requires forall i :: 0 <= i < |w| ==> IsUpper(w[i])
  {
    if w == [] then 0 else ColumnNumber(w[..|w| - 1]) * 26 + LetterValue(w[|w| - 1])
  }

  /** The name of the column with one-based number `n`: 1 is "A", 26 is "Z",
      27 is "AA". */
  function ColumnName(n: nat): (w: string)
    requires n >= 1
    ensures IsColumnName(w)
  {
    if n <= 26 then [Letter(n)] else ColumnName((n - 1) / 26) + [Letter((n - 1) % 26 + 1)]
  }

  /** Naming a column and reading the name back gives the column's number. */
  lemma {:induction false} ColumnNumberOfName(n: nat)
    requires n >= 1
    ensures ColumnNumber(ColumnName(n)) == n
  {
    if n > 26 {
      var w := ColumnName(n);
      assert w[..|w| - 1] == ColumnName((n - 1) / 26);
      ColumnNumberOfName((n - 1) / 26);
    }
  }

  /** Reading a column name and naming the number gives the name back: the
      decoding is a bijection between column names and positive numbers. */
  lemma {:induction false} ColumnNameOfNumber(w: string)
    requires IsColumnName(w)
    ensures ColumnNumber(w) >= 1
    ensures ColumnName(ColumnNumber(w)) == w
  {
    var init, last := w[..|w| - 1], w[|w| - 1];
    var c := LetterValue(last);
    if init == [] {
      assert w == [last];
    } else {
      ColumnNameOfNumber(init);
      var m := ColumnNumber(init);
      var n := m * 26 + c;
      assert (n - 1) / 26 == m && (n - 1) % 26 + 1 == c;
      assert w == init + [last];
    }
  }

  /** The zero-based column index a cell reference addresses. */
  function ColumnIndex(ref: string): nat {
    ColumnNameOfNumber(ColumnLetters(ref));
    ColumnNumber(ColumnLetters(ref)) - 1
  }

  /** `column_to_index`: accumulate `index * 26 + letter` over the letters, then
      subtract one. The result is the zero-based column whose name is the
      reference's letters. */
  method ColumnToIndex(ref: string) returns (index: int)
    ensures index >= 0 && ColumnName(index + 1) == ColumnLetters(ref)
  {
    var column := LeadingUpper(ref);
    if column == [] {
      column := "A";
    }
    var acc: nat := 0;
    for i := 0 to |column|
      invariant acc == ColumnNumber(column[..i])
    {
      assert column[..i + 1][..i] == column[..i];
      acc := acc * 26 + LetterValue(column[i]);
    }
    assert column[..|column|] == column;
    ColumnNameOfNumber(column);
    index := acc - 1;
  }

  /** The decoding on one-letter references named in the file's own
      comments, and on a reference without letters. */
  lemma ColumnIndexOneLetter()
    ensures ColumnIndex("A1") == 0 && ColumnIndex("Z1") == 25 && ColumnIndex("7") == 0
  {
    assert LeadingUpper("A1") == "A";
    assert LeadingUpper("Z1") == "Z";
    assert LeadingUpper("7") == "";
  }

  /** The decoding on the two-letter references named in the file's own
      comments. */
  lemma ColumnIndexTwoLetters()
    ensures ColumnIndex("AA1") == 26 && ColumnIndex("AZ5") == 51
    ensures ColumnIndex("BA2") == 52 && ColumnIndex("AB5") == 27
  {
    assert LeadingUpper("AA1") == "AA";
    assert LeadingUpper("AZ5") == "AZ";
    assert LeadingUpper("BA2") == "BA";
    assert LeadingUpper("AB5") == "AB";
    TwoLetterNumber('A', 'A');
    TwoLetterNumber('A', 'Z');
    TwoLetterNumber('B', 'A');
    TwoLetterNumber('A', 'B');
  }

  lemma TwoLetterNumber(a: char, b: char)
    requires IsUpper(a) && IsUpper(b)
    ensures ColumnNumber([a, b]) == LetterValue(a) * 26 + LetterValue(b)
  {
    var w := [a, b];
    assert w[..1] == [a] && w[1] == b;
    assert [a][..0] == [];
    assert ColumnNumber([a]) == LetterValue(a);
  }

  // ------------------------------------------------------------ cell values

  /** `get_cell_value`: the text of a cell, chosen by its type tag. */
  function CellValue(c: Cell, sharedStrings: seq<string>): string {
    var value := c.v.GetOr("");
    if c.t == "s" then
      var k := PhpIntval(value);
      if 0 <= k < |sharedStrings| then sharedStrings[k] else ""
    else if c.t == "inlineStr" then c.inlineT.GetOr("")
    else if c.t == "b" then (if value == "1" then "TRUE" else "FALSE")
    else if c.t == "e" then ""
    else value
  }

  /** A shared-string cell whose `v` is the decimal index `k` resolves to entry
      `k` of the table, or to '' when the table has no entry `k`. */
  lemma SharedStringCell(ref: string, k: nat, inlineT: Option<string>, sharedStrings: seq<string>)
    ensures CellValue(Cell(ref, "s", Some(NatToString(k)), inlineT), sharedStrings)
            == if k < |sharedStrings| then sharedStrings[k] else ""
  {
    PhpIntvalOfNatToString(k);
  }

  /** What a cell's text depends on. Only a shared-string cell reads the
      table, and it yields one of its entries or ''. Only an inline string
      reads its `is/t` child. Every other type reads nothing but `v`, and
      its position plays no part. A boolean cell yields "TRUE" exactly when
      `v` is "1", and "FALSE" otherwise. */
  lemma CellValueSources(c: Cell, sharedStrings: seq<string>, other: seq<string>)
    ensures c.t != "s" ==> CellValue(c, sharedStrings) == CellValue(c, other)
    ensures c.t == "s" ==> CellValue(c, sharedStrings) == "" || CellValue(c, sharedStrings) in sharedStrings
    ensures c.t != "inlineStr" ==> CellValue(c, sharedStrings) == CellValue(c.(inlineT := None), sharedStrings)
    ensures CellValue(c, sharedStrings) == CellValue(c.(r := ""), sharedStrings)
    ensures c.t == "b" ==> (CellValue(c, sharedStrings) == "TRUE" <==> c.v == Some("1"))
    ensures c.t == "b" ==> (CellValue(c, sharedStrings) == "FALSE" <==> c.v != Some("1"))
  {
  }

  // ------------------------------------------------------------ shared strings

  /** The text of one rich-text run list: the runs' `t` texts, concatenated. */
  function RunsText(runs: seq<Run>): string {
    if runs == [] then "" else RunsText(runs[..|runs| - 1]) + runs[|runs| - 1].t.GetOr("")
  }

  /** The table entry one `si` gives: its `t`, else its runs' text, else ''. */
  function ItemText(si: StringItem): string {
    if si.t.Some? then si.t.value
    else if si.runs != [] then RunsText(si.runs)
    else ""
  }

  // ------------------------------------------------------------ rows

  /** The row after the padding loop and the write of one cell: the row is
      extended with '' up to position `k`, then position `k` is set. */
  function Place(row: seq<string>, k: nat, value: string): seq<string> {
    var padded := if |row| <= k then row + seq(k + 1 - |row|, _ => "") else row;
    padded[k := value]
  }

  /** The dense row built from the cells of one `row` element, in order. */
  function AssembleRow(cells: seq<Cell>, sharedStrings: seq<string>): seq<string> {
    if cells == [] then []
    else
      var last := cells[|cells| - 1];
      Place(AssembleRow(cells[..|cells| - 1], sharedStrings), ColumnIndex(last.r), CellValue(last, sharedStrings))
  }

  /** The value of the last cell addressed to column `k`, if any cell is. */
  function LastWrite(cells: seq<Cell>, k: nat, sharedStrings: seq<string>): Option<string> {
    if cells == [] then None
    else if ColumnIndex(cells[|cells| - 1].r) == k then Some(CellValue(cells[|cells| - 1], sharedStrings))
    else LastWrite(cells[..|cells| - 1], k, sharedStrings)
  }

  /** What one placement does: position `k` receives the value, earlier
      positions keep theirs, and new positions between hold ''. */
  lemma PlaceFacts(row: seq<string>, k: nat, value: string)
    ensures |Place(row, k, value)| == if |row| <= k then k + 1 else |row|
    ensures Place(row, k, value)[k] == value
    ensures forall i :: 0 <= i < |Place(row, k, value)| && i != k ==>
      Place(row, k, value)[i] == if i < |row| then row[i] else ""
  {
  }

  /** The width of an assembled row: every cell's column lies inside the row,
      and the last position is some cell's column, so the width is the largest
      column index plus one (zero for a row without cells). */
  lemma {:induction false} RowWidth(cells: seq<Cell>, sharedStrings: seq<string>)
    ensures var row := AssembleRow(cells, sharedStrings);
      && (forall j :: 0 <= j < |cells| ==> ColumnIndex(cells[j].r) < |row|)
      && (row != [] ==> exists j :: 0 <= j < |cells| && ColumnIndex(cells[j].r) == |row| - 1)
  {
    if cells != [] {
      var init := cells[..|cells| - 1];
      var last := cells[|cells| - 1];
      RowWidth(init, sharedStrings);
      var prev := AssembleRow(init, sharedStrings);
      var c := ColumnIndex(last.r);
      PlaceFacts(prev, c, CellValue(last, sharedStrings));
      var row := AssembleRow(cells, sharedStrings);
      assert |row| == if |prev| <= c then c + 1 else |prev|;
      forall j | 0 <= j < |cells|
        ensures ColumnIndex(cells[j].r) < |row|
      {
        if j < |cells| - 1 {
          assert cells[j] == init[j];
        }
      }
      if |prev| > c {
        var j :| 0 <= j < |init| && ColumnIndex(init[j].r) == |prev| - 1;
        assert cells[j] == init[j];
      }
    }
  }

  /** The contents of an assembled row: each position holds the value of the
      last cell addressed to it, and a position no cell addresses holds ''. */
  lemma {:induction false} RowContents(cells: seq<Cell>, sharedStrings: seq<string>)
    ensures var row := AssembleRow(cells, sharedStrings);
      forall k :: 0 <= k < |row| ==> row[k] == LastWrite(cells, k, sharedStrings).GetOr("")
  {
    if cells != [] {
      var init := cells[..|cells| - 1];
      var last := cells[|cells| - 1];
      RowContents(init, sharedStrings);
      RowWidth(init, sharedStrings);
      var prev := AssembleRow(init, sharedStrings);
      var c := ColumnIndex(last.r);
      PlaceFacts(prev, c, CellValue(last, sharedStrings));
      var row := AssembleRow(cells, sharedStrings);
      forall k | 0 <= k < |row|
        ensures row[k] == LastWrite(cells, k, sharedStrings).GetOr("")
      {
        if k != c && k >= |prev| {
          LastWriteBeyond(init, k, sharedStrings);
        }
      }
    }
  }

  /** No cell writes beyond the width of the row it builds. */
  lemma {:induction false} LastWriteBeyond(cells: seq<Cell>, k: nat, sharedStrings: seq<string>)
    requires forall j :: 0 <= j < |cells| ==> ColumnIndex(cells[j].r) < k
    ensures LastWrite(cells, k, sharedStrings) == None
  {
    if cells != [] {
      LastWriteBeyond(cells[..|cells| - 1], k, sharedStrings);
    }
  }

  /** The rows of a worksheet: one dense row per `row` element, in document
      order, the header row included; no `sheetData/row` gives no rows. */
  function SheetRows(ws: Worksheet, sharedStrings: seq<string>): seq<seq<string>> {
    match ws.rows
    case None => []
    case Some(rs) => RowsOf(rs, sharedStrings)
  }

  /** The assembled rows of a list of `row` elements: one output row per
      element, in document order, the `i`-th assembled from the `i`-th
      element's cells. */
  function RowsOf(elements: seq<RowElement>, sharedStrings: seq<string>): (rows: seq<seq<string>>)
    ensures |rows| == |elements|
    ensures forall i :: 0 <= i < |elements| ==> rows[i] == AssembleRow(elements[i].cells, sharedStrings)
  {
    if elements == [] then []
    else
      var init := elements[..|elements| - 1];
      assert forall i :: 0 <= i < |init| ==> init[i] == elements[i];
      RowsOf(init, sharedStrings) + [AssembleRow(elements[|elements| - 1].cells, sharedStrings)]
  }

  /** The parser object; its shared string table is loaded by `ExtractAllRows`
      and read while the worksheet is parsed. */
  class XlsxReader {
    var sharedStrings: seq<string>

    constructor ()
      ensures sharedStrings == []
    {
      sharedStrings := [];
    }

    /** `load_shared_strings`: one entry per `si`, in order, so that the
        indexes cells use stay aligned; a missing or unparsable part gives an
        empty table. */
    method LoadSharedStrings(part: Option<Xml<seq<StringItem>>>) returns (strings: seq<string>)
      ensures part.Some? && part.value.WellFormed? ==>
        |strings| == |part.value.doc| &&
        forall i :: 0 <= i < |strings| ==> strings[i] == ItemText(part.value.doc[i])
      ensures !(part.Some? && part.value.WellFormed?) ==> strings == []
    {
      strings := [];
      if part.None? || part.value.Malformed? {
        return;
      }
      var items := part.value.doc;
      for n := 0 to |items|
        invariant |strings| == n
        invariant forall i :: 0 <= i < n ==> strings[i] == ItemText(items[i])
      {
        var si := items[n];
        if si.t.Some? {
          strings := strings + [si.t.value];
        } else if si.runs != [] {
          var text := "";
          for j := 0 to |si.runs|
            invariant text == RunsText(si.runs[..j])
          {
            assert si.runs[..j + 1][..j] == si.runs[..j];
            if si.runs[j].t.Some? {
              text := text + si.runs[j].t.value;
            }
          }
          assert si.runs[..|si.runs|] == si.runs;
          strings := strings + [text];
        } else {
          strings := strings + [""];
        }
      }
    }

    /** `parse_sheet`: an unparsable worksheet is an error; otherwise one row
        per `row` element, each assembled from its cells with the current
        shared string table. */
    method ParseSheet(xml: Xml<Worksheet>) returns (result: Result<seq<seq<string>>, ReadError>)
      ensures xml.Malformed? ==> result == Failure(XmlParseFailed)
      ensures xml.WellFormed? ==> result == Success(SheetRows(xml.doc, sharedStrings))
    {
      if xml.Malformed? {
        return Failure(XmlParseFailed);
      }
      var rows: seq<seq<string>> := [];
      if xml.doc.rows.None? {
        return Success(rows);
      }
      rows := ParseRows(xml.doc.rows.value);
      result := Success(rows);
    }

    /** `parse_sheet`'s loop over the `row` elements: one dense row each, in
        document order. */
    method ParseRows(elements: seq<RowElement>) returns (rows: seq<seq<string>>)
      ensures rows == RowsOf(elements, sharedStrings)
    {
      rows := [];
      for n := 0 to |elements|
        invariant rows == RowsOf(elements[..n], sharedStrings)
      {
        assert elements[..n + 1][..n] == elements[..n];
        var rowData := ParseRow(elements[n].cells);
        rows := rows + [rowData];
      }
      assert elements[..|elements|] == elements;
    }

    /** The body of `parse_sheet`'s loop over one `row` element: each cell's
        value is written at its decoded column, after padding the row with ''
        up to that column. */
    method ParseRow(cells: seq<Cell>) returns (rowData: seq<string>)
      ensures rowData == AssembleRow(cells, sharedStrings)
    {
      rowData := [];
      for j := 0 to |cells|
        invariant rowData == AssembleRow(cells[..j], sharedStrings)
      {
        assert cells[..j + 1][..j] == cells[..j];
        var colIndex := ColumnToIndex(cells[j].r);
        ColumnNumberOfName(colIndex + 1);
        assert colIndex == ColumnIndex(cells[j].r);
        rowData := WriteCell(rowData, colIndex, CellValue(cells[j], sharedStrings));
      }
      assert cells[..|cells|] == cells;
    }

    /** One cell's write: pad the row with '' while it is too short to hold
        position `k`, then store the value at `k`. */
    static method WriteCell(row: seq<string>, k: nat, value: string) returns (rowData: seq<string>)
      ensures rowData == Place(row, k, value)
    {
      rowData := row;
      while |rowData| <= k
        invariant |row| <= |rowData| <= if |row| <= k then k + 1 else |row|
        invariant rowData == row + seq(|rowData| - |row|, _ => "")
      {
        rowData := rowData + [""];
      }
      rowData := rowData[k := value];
    }

    /** `extract_all_rows`: the error outcomes in the order the reader meets
        them, else the rows of the first worksheet. The shared string table is
        replaced as soon as the archive opens. */
    method ExtractAllRows(zipSupport: bool, file: Upload) returns (result: Result<seq<seq<string>>, ReadError>)
      modifies this
      ensures !zipSupport ==> result == Failure(NoZipSupport) && sharedStrings == old(sharedStrings)
      ensures zipSupport && file.Missing? ==> result == Failure(FileNotFound) && sharedStrings == old(sharedStrings)
      ensures zipSupport && file.NotAZip? ==> result == Failure(ZipOpenFailed) && sharedStrings == old(sharedStrings)
      ensures zipSupport && file.Zip? ==>
        var part := file.archive.sharedStrings;
        if part.Some? && part.value.WellFormed? then
          |sharedStrings| == |part.value.doc| &&
          forall i :: 0 <= i < |sharedStrings| ==> sharedStrings[i] == ItemText(part.value.doc[i])
        else sharedStrings == []
      ensures zipSupport && file.Zip? && file.archive.sheet1.None? ==> result == Failure(NoWorksheet)
      ensures zipSupport && file.Zip? && file.archive.sheet1 == Some(Malformed) ==> result == Failure(XmlParseFailed)
      ensures zipSupport && file.Zip? && file.archive.sheet1.Some? && file.archive.sheet1.value.WellFormed? ==>
        result == Success(SheetRows(file.archive.sheet1.value.doc, sharedStrings))
    {
      if !zipSupport {
        return Failure(NoZipSupport);
      }
      if file.Missing? {
        return Failure(FileNotFound);
      }
      if file.NotAZip? {
        return Failure(ZipOpenFailed);
      }
      sharedStrings := LoadSharedStrings(file.archive.sharedStrings);
      var sheet := file.archive.sheet1;
      if sheet.None? {
        return Failure(NoWorksheet);
      }
      result := ParseSheet(sheet.value);
    }
  }
}
