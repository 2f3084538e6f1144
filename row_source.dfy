/** Where the pipeline's lines come from and how they are written
    (src/bday/io.py), with the file and spreadsheet access replaced by what
    the readers see: a file's text, its worksheets, its data-frame rows. */
module RowSource {
  import opened Wrappers
  import opened Seqs
  import opened Text
  import opened Decimal
  import opened Paths

  /** `DELIMITER`, the one-character string `";"`. */
  const DELIMITER: char := ';'

  const EXCEL_SUFFIXES: set<string> := {".xlsx", ".xls"}

  /** `is_excel_file`: the lower-cased suffix is `.xlsx` or `.xls`. */
  predicate IsExcelFile(p: Path) {
    LowerSuffix(p) in EXCEL_SUFFIXES
  }

  /** The check ignores case: names equal up to case are both spreadsheets
      or both not. */
  lemma IsExcelFileIgnoresCase(p: Path, q: Path)
    requires LowerStr(p.name) == LowerStr(q.name)
    ensures IsExcelFile(p) <==> IsExcelFile(q)
  {
    SuffixLower(p.name);
    SuffixLower(q.name);
  }

  // ---------------------------------------------------------------------
  // Cell values
  // ---------------------------------------------------------------------

  /** A cell as the spreadsheet libraries hand it over. Dates and
      date-times carry no microseconds and no time zone; a float whose
      `is_integer()` holds carries its integer value; any other float and
      any other object carry the text `str` gives for them. */
  datatype CellValue =
    | Empty
    | Text(text: string)
    | Date(year: nat, month: nat, day: nat)
    | DateTime(year: nat, month: nat, day: nat, hour: nat, minute: nat, second: nat)
    | IntegralFloat(value: int)
    | OtherFloat(repr: string)
    | Other(repr: string)

  /** `date.isoformat()`: `YYYY-MM-DD`, each field zero-padded. */
  function DateIso(year: nat, month: nat, day: nat): string {
    ZeroPad(year, 4) + "-" + ZeroPad(month, 2) + "-" + ZeroPad(day, 2)
  }

  /** `datetime.isoformat()` without microseconds or time zone:
      `YYYY-MM-DDTHH:MM:SS`. */
  function DateTimeIso(year: nat, month: nat, day: nat, hour: nat, minute: nat, second: nat): string {
    DateIso(year, month, day) + "T" + ZeroPad(hour, 2) + ":" + ZeroPad(minute, 2) + ":" + ZeroPad(second, 2)
  }

  /** `stringify_value`: the empty string for an empty cell, text as it is,
      ISO format for dates and date-times, the integer's digits for an
      integral float, and `str` of anything else. */
  function StringifyValue(v: CellValue): string {
    match v
    case Empty => ""
    case Text(s) => s
    case Date(y, m, d) => DateIso(y, m, d)
    case DateTime(y, mo, d, h, mi, s) => DateTimeIso(y, mo, d, h, mi, s)
    case IntegralFloat(n) => IntToDecimal(n)
    case OtherFloat(repr) => repr
    case Other(repr) => repr
  }

  predicate ValidDate(year: nat, month: nat, day: nat) {
    1 <= year <= 9999 && 1 <= month <= 12 && 1 <= day <= 31
  }

  /** A field below `10^width` pads to exactly `width` digits. */
  lemma ZeroPadExact(n: nat, width: nat)
    requires 0 < width && n < Pow10(width)
    ensures |ZeroPad(n, width)| == width
  {
    NatToDecimalLength(n, width);
  }

  /** An ISO date of a valid date has ten characters, dashes at 4 and 7,
      and its three digit fields read back as year, month and day. */
  lemma DateIsoFields(year: nat, month: nat, day: nat)
    requires ValidDate(year, month, day)
    ensures var r := DateIso(year, month, day);
            && |r| == 10 && r[4] == '-' && r[7] == '-'
            && AllDigits(r[..4]) && DecimalValue(r[..4]) == year
            && AllDigits(r[5..7]) && DecimalValue(r[5..7]) == month
            && AllDigits(r[8..]) && DecimalValue(r[8..]) == day
  {
    assert Pow10(2) == 100 && Pow10(4) == 10000;
    ZeroPadExact(year, 4);
    ZeroPadExact(month, 2);
    ZeroPadExact(day, 2);
    var r := DateIso(year, month, day);
    assert r[..4] == ZeroPad(year, 4);
    assert r[5..7] == ZeroPad(month, 2);
    assert r[8..] == ZeroPad(day, 2);
  }

  /** An ISO date-time of a valid instant has nineteen characters, the
      date, a `T` at 10, colons at 13 and 16, and its time fields read back
      as hour, minute and second. */
  lemma DateTimeIsoFields(year: nat, month: nat, day: nat, hour: nat, minute: nat, second: nat)
    requires ValidDate(year, month, day) && hour < 24 && minute < 60 && second < 60
    ensures var r := DateTimeIso(year, month, day, hour, minute, second);
            && |r| == 19 && r[..10] == DateIso(year, month, day)
            && r[10] == 'T' && r[13] == ':' && r[16] == ':'
            && AllDigits(r[11..13]) && DecimalValue(r[11..13]) == hour
            && AllDigits(r[14..16]) && DecimalValue(r[14..16]) == minute
            && AllDigits(r[17..]) && DecimalValue(r[17..]) == second
  {
    assert Pow10(2) == 100;
    DateIsoFields(year, month, day);
    ZeroPadExact(hour, 2);
    ZeroPadExact(minute, 2);
    ZeroPadExact(second, 2);
    TimeLayout(DateIso(year, month, day), ZeroPad(hour, 2), ZeroPad(minute, 2), ZeroPad(second, 2));
  }

  /** Where the parts of `dateTtime` sit, for a ten-character date and
      two-digit time fields. */
  lemma TimeLayout(date: string, h: string, m: string, s: string)
    requires |date| == 10 && |h| == 2 && |m| == 2 && |s| == 2
    ensures var r := date + "T" + h + ":" + m + ":" + s;
            && |r| == 19 && r[..10] == date && r[10] == 'T' && r[13] == ':' && r[16] == ':'
            && r[11..13] == h && r[14..16] == m && r[17..] == s
  {
    var r := date + "T" + h + ":" + m + ":" + s;
    assert r[..10] == date;
    assert r[11..13] == h;
    assert r[14..16] == m;
    assert r[17..] == s;
  }

  /** An integral float prints as an integer without `.0`: an optional
      minus sign and digits only, which read back as the value. */
  lemma IntegralFloatText(n: int)
    ensures var r := StringifyValue(IntegralFloat(n));
            '.' !in r && ParseInt(r) == n
  {
    IntToDecimalRoundTrip(n);
  }

  /** Only text and `str` of other objects can hold the delimiter. */
  lemma StringifyNoDelimiter(v: CellValue)
    requires !v.Text? && !v.OtherFloat? && !v.Other?
    ensures DELIMITER !in StringifyValue(v)
  {
    match v
    case Empty =>
    case Date(y, m, d) =>
      DateNoDelimiter(y, m, d);
    case DateTime(y, mo, d, h, mi, s) =>
      DateNoDelimiter(y, mo, d);
      assert DELIMITER !in ZeroPad(h, 2) && DELIMITER !in ZeroPad(mi, 2) && DELIMITER !in ZeroPad(s, 2);
    case IntegralFloat(n) =>
  }

  lemma DateNoDelimiter(y: nat, m: nat, d: nat)
    ensures DELIMITER !in DateIso(y, m, d)
  {
    assert DELIMITER !in ZeroPad(y, 4) && DELIMITER !in ZeroPad(m, 2) && DELIMITER !in ZeroPad(d, 2);
  }

  /** The cell values of the io tests. */
  lemma StringifyValueExamples()
    ensures StringifyValue(Empty) == ""
    ensures StringifyValue(Text("text")) == "text"
    ensures StringifyValue(IntegralFloat(3)) == "3"
    ensures StringifyValue(OtherFloat("3.14")) == "3.14"
  {
  }

  /** `date(2025, 1, 2)` and `datetime(2025, 1, 2, 3, 4, 5)`. */
  lemma StringifyDateExamples()
    ensures StringifyValue(Date(2025, 1, 2)) == "2025-01-02"
    ensures StringifyValue(DateTime(2025, 1, 2, 3, 4, 5)) == "2025-01-02T03:04:05"
  {
    ZeroPadExamples();
    IsoLiterals();
  }

  lemma IsoLiterals()
    ensures "2025" + "-" + "01" + "-" + "02" == "2025-01-02"
    ensures "2025-01-02" + "T" + "03" + ":" + "04" + ":" + "05" == "2025-01-02T03:04:05"
  {
  }

  lemma ZeroPadExamples()
    ensures ZeroPad(2025, 4) == "2025" && ZeroPad(1, 2) == "01" && ZeroPad(2, 2) == "02"
    ensures ZeroPad(3, 2) == "03" && ZeroPad(4, 2) == "04" && ZeroPad(5, 2) == "05"
  {
  }

  // ---------------------------------------------------------------------
  // Rows and the spreadsheet readers
  // ---------------------------------------------------------------------

  type Row = seq<CellValue>

  type Worksheet = seq<Row>

  /** `[stringify_value(cell) for cell in row]`. */
  function StringifyRow(row: Row): (r: seq<string>)
    ensures |r| == |row|
    ensures forall i :: 0 <= i < |row| ==> r[i] == StringifyValue(row[i])
  {
    seq(|row|, i requires 0 <= i < |row| => StringifyValue(row[i]))
  }

  /** `DELIMITER.join(stringified)`: the line one row becomes. */
  function RowLine(row: Row): string {
    Join(DELIMITER, StringifyRow(row))
  }

  /** A non-empty row whose stringified cells hold no `;` joins into a line
      with one `;` fewer than it has cells, and splitting that line at `;`
      gives back the stringified cells. */
  lemma RowLineSplits(row: Row)
    requires row != []
    requires forall i :: 0 <= i < |row| ==> DELIMITER !in StringifyValue(row[i])
    ensures Split(RowLine(row), DELIMITER) == StringifyRow(row)
    ensures Count(RowLine(row), DELIMITER) == |row| - 1
  {
    SplitJoin(DELIMITER, StringifyRow(row));
  }

  /** The lines of one sheet (or data frame): one per row, in row order. */
  function SheetLines(rows: seq<Row>): (r: seq<string>)
    ensures |r| == |rows|
    ensures forall i :: 0 <= i < |rows| ==> r[i] == RowLine(rows[i])
  {
    seq(|rows|, i requires 0 <= i < |rows| => RowLine(rows[i]))
  }

  /** Reading rows one batch after another concatenates their lines. */
  lemma SheetLinesAppend(a: seq<Row>, b: seq<Row>)
    ensures SheetLines(a + b) == SheetLines(a) + SheetLines(b)
  {
    var l, r := SheetLines(a + b), SheetLines(a) + SheetLines(b);
    forall i | 0 <= i < |l| ensures l[i] == r[i] {
      if i < |a| {
        assert (a + b)[i] == a[i];
      } else {
        assert (a + b)[i] == b[i - |a|];
      }
    }
  }

  /** The lines of a workbook: its sheets' lines, sheet after sheet. */
  function WorkbookLines(sheets: seq<Worksheet>): seq<string> {
    if sheets == [] then []
    else WorkbookLines(sheets[..|sheets| - 1]) + SheetLines(sheets[|sheets| - 1])
  }

  /** Number of rows in all sheets. */
  function RowCount(sheets: seq<Worksheet>): nat {
    if sheets == [] then 0 else RowCount(sheets[..|sheets| - 1]) + |sheets[|sheets| - 1]|
  }

  /** Reading sheets one after another concatenates their lines. */
  lemma {:induction false} WorkbookLinesAppend(a: seq<Worksheet>, b: seq<Worksheet>)
    ensures WorkbookLines(a + b) == WorkbookLines(a) + WorkbookLines(b)
    decreases |b|
  {
    if b == [] {
      AppendNil(a);
    } else {
      var b', last := b[..|b| - 1], b[|b| - 1];
      InitLast(a, b);
      WorkbookLinesAppend(a, b');
      AppendAssoc(WorkbookLines(a), WorkbookLines(b'), SheetLines(last));
    }
  }

  lemma {:induction false} RowCountAppend(a: seq<Worksheet>, b: seq<Worksheet>)
    ensures RowCount(a + b) == RowCount(a) + RowCount(b)
    decreases |b|
  {
    if b == [] {
      assert a + b == a;
    } else {
      var b' := b[..|b| - 1];
      assert (a + b)[..|a + b| - 1] == a + b';
      RowCountAppend(a, b');
    }
  }

  /** Each row yields exactly one line, in sheet-then-row order: row `r` of
      sheet `s` is the line after all rows of the earlier sheets and the
      `r` rows before it. */
  lemma {:induction false} WorkbookLinesAt(sheets: seq<Worksheet>, s: nat, r: nat)
    requires s < |sheets| && r < |sheets[s]|
    ensures |WorkbookLines(sheets)| == RowCount(sheets)
    ensures RowCount(sheets[..s]) + r < |WorkbookLines(sheets)|
    ensures WorkbookLines(sheets)[RowCount(sheets[..s]) + r] == RowLine(sheets[s][r])
  {
    var before, rest := sheets[..s], sheets[s + 1..];
    assert sheets == before + [sheets[s]] + rest;
    WorkbookLinesAppend(before + [sheets[s]], rest);
    WorkbookLinesAppend(before, [sheets[s]]);
    RowCountAppend(before + [sheets[s]], rest);
    RowCountAppend(before, [sheets[s]]);
    assert [sheets[s]][..0] == [];
    WorkbookLinesLength(before);
    WorkbookLinesLength(rest);
  }

  lemma {:induction false} WorkbookLinesLength(sheets: seq<Worksheet>)
    ensures |WorkbookLines(sheets)| == RowCount(sheets)
  {
    if sheets != [] {
      WorkbookLinesLength(sheets[..|sheets| - 1]);
    }
  }

  /** `_read_xlsx`: for every worksheet, for every row, append the row's
      line. */
  method ReadXlsxLines(sheets: seq<Worksheet>) returns (lines: seq<string>)
    ensures lines == WorkbookLines(sheets)
  {
    lines := [];
    var s := 0;
    while s < |sheets|
      invariant 0 <= s <= |sheets|
      invariant lines == WorkbookLines(sheets[..s])
    {
      var sheet := sheets[s];
      var r := 0;
      while r < |sheet|
        invariant 0 <= r <= |sheet|
        invariant lines == WorkbookLines(sheets[..s]) + SheetLines(sheet[..r])
      {
        var stringified := StringifyRow(sheet[r]);
        SheetLinesExtend(sheet, r);
        AppendAssoc(WorkbookLines(sheets[..s]), SheetLines(sheet[..r]), [RowLine(sheet[r])]);
        lines := lines + [Join(DELIMITER, stringified)];
        r := r + 1;
      }
      assert sheet[..r] == sheet;
      WorkbookLinesExtend(sheets, s);
      s := s + 1;
    }
    assert sheets[..s] == sheets;
  }

  lemma SheetLinesExtend(sheet: Worksheet, r: nat)
    requires r < |sheet|
    ensures SheetLines(sheet[..r + 1]) == SheetLines(sheet[..r]) + [RowLine(sheet[r])]
  {
  }

  lemma WorkbookLinesExtend(sheets: seq<Worksheet>, s: nat)
    requires s < |sheets|
    ensures WorkbookLines(sheets[..s + 1]) == WorkbookLines(sheets[..s]) + SheetLines(sheets[s])
  {
    assert sheets[..s + 1][..s] == sheets[..s];
  }

  /** `_read_xls`: for every data-frame row, append the row's line. */
  method ReadXlsLines(frameRows: seq<Row>) returns (lines: seq<string>)
    ensures lines == SheetLines(frameRows)
  {
    lines := [];
    var r := 0;
    while r < |frameRows|
      invariant 0 <= r <= |frameRows|
      invariant lines == SheetLines(frameRows[..r])
    {
      var stringified := StringifyRow(frameRows[r]);
      lines := lines + [Join(DELIMITER, stringified)];
      assert frameRows[..r + 1][..r] == frameRows[..r];
      r := r + 1;
    }
    assert frameRows[..r] == frameRows;
  }

  // ---------------------------------------------------------------------
  // Dispatch on the suffix
  // ---------------------------------------------------------------------

  /** What the readers see of a file: its text, its worksheets as openpyxl
      yields them, and its data-frame rows as pandas yields them (pandas
      has already taken the first row as column names). */
  datatype FileContents = FileContents(text: string, worksheets: seq<Worksheet>, frameRows: seq<Row>)

  /** The outcome of `read_excel_lines`. */
  function ExcelLines(p: Path, contents: FileContents): Result<seq<string>, Error> {
    var suffix := LowerSuffix(p);
    if suffix == ".xls" then Success(SheetLines(contents.frameRows))
    else if suffix == ".xlsx" then Success(WorkbookLines(contents.worksheets))
    else Failure(ValueError("Unsupported Excel extension: " + suffix))
  }

  /** `read_excel_lines` fails exactly for the paths that are not
      spreadsheets, naming their lower-cased suffix. */
  lemma ExcelLinesFailure(p: Path, contents: FileContents)
    ensures ExcelLines(p, contents).Failure? <==> !IsExcelFile(p)
    ensures ExcelLines(p, contents).Failure? ==>
              ExcelLines(p, contents).error == ValueError("Unsupported Excel extension: " + LowerSuffix(p))
  {
  }

  /** `read_excel_lines`: `.xls` to the data-frame reader, `.xlsx` to the
      workbook reader, any other suffix an error. */
  method ReadExcelLines(p: Path, contents: FileContents) returns (r: Result<seq<string>, Error>)
    ensures r == ExcelLines(p, contents)
  {
    var suffix := LowerSuffix(p);
    if suffix == ".xls" {
      var lines := ReadXlsLines(contents.frameRows);
      return Success(lines);
    }
    if suffix == ".xlsx" {
      var lines := ReadXlsxLines(contents.worksheets);
      return Success(lines);
    }
    return Failure(ValueError("Unsupported Excel extension: " + suffix));
  }

  // ---------------------------------------------------------------------
  // Text files
  // ---------------------------------------------------------------------

  /** The text `write_csv_lines` writes: every line followed by one `\n`. */
  function CsvText(lines: seq<string>): string {
    if lines == [] then [] else lines[0] + "\n" + CsvText(lines[1..])
  }

  /** Writing more lines appends their text. */
  lemma {:induction false} CsvTextAppend(a: seq<string>, b: seq<string>)
    ensures CsvText(a + b) == CsvText(a) + CsvText(b)
  {
    if a == [] {
      assert a + b == b;
    } else {
      assert (a + b)[1..] == a[1..] + b;
      CsvTextAppend(a[1..], b);
    }
  }

  /** The written text holds one `\n` per line when the lines hold none,
      and ends in `\n` unless nothing was written. */
  lemma {:induction false} CsvTextNewlines(lines: seq<string>)
    requires forall i :: 0 <= i < |lines| ==> '\n' !in lines[i]
    ensures Count(CsvText(lines), '\n') == |lines|
    ensures lines != [] ==> CsvText(lines)[|CsvText(lines)| - 1] == '\n'
  {
    if lines != [] {
      CsvTextNewlines(lines[1..]);
      CountAppend(lines[0] + "\n", CsvText(lines[1..]), '\n');
      CountAppend(lines[0], "\n", '\n');
    }
  }

  /** `write_csv_lines`: write each line, then `\n`. */
  method WriteCsvLines(lines: seq<string>) returns (written: string)
    ensures written == CsvText(lines)
  {
    written := [];
    var i := 0;
    while i < |lines|
      invariant 0 <= i <= |lines|
      invariant written == CsvText(lines[..i])
    {
      CsvTextAppend(lines[..i], [lines[i]]);
      assert lines[..i + 1] == lines[..i] + [lines[i]];
      assert [lines[i]][1..] == [];
      written := written + lines[i];
      written := written + "\n";
      i := i + 1;
    }
    assert lines[..i] == lines;
  }

  /** Universal-newline reading: `\r\n` and a lone `\r` both become `\n`. */
  function TranslateNewlines(text: string): (r: string)
    ensures '\r' !in r
  {
    if text == [] then []
    else if text[0] == '\r' then "\n" + TranslateNewlines(if |text| > 1 && text[1] == '\n' then text[2..] else text[1..])
    else [text[0]] + TranslateNewlines(text[1..])
  }

  /** Text without `\r` reads unchanged. */
  lemma {:induction false} TranslateNewlinesNoReturn(text: string)
    requires '\r' !in text
    ensures TranslateNewlines(text) == text
  {
    if text != [] {
      TranslateNewlinesNoReturn(text[1..]);
    }
  }

  /** Iterating over a text handle: every line keeps its `\n`; the last one
      has none when the text does not end in `\n`. */
  function HandleLines(text: string): (r: seq<string>)
    decreases |text|
  {
    if text == [] then []
    else
      var i := FirstIndex(text, '\n');
      if i == |text| then [text] else [text[..i + 1]] + HandleLines(text[i + 1..])
  }

  /** `read_csv_lines`: the handle's lines with trailing `\n` and `\r`
      removed. */
  function ReadCsvLines(text: string): (r: seq<string>) {
    var raw := HandleLines(TranslateNewlines(text));
    seq(|raw|, i requires 0 <= i < |raw| => RStripChars(raw[i], {'\n', '\r'}))
  }

  predicate NoLineBreak(line: string) {
    '\n' !in line && '\r' !in line
  }

  /** The handle yields back the written lines, each with its `\n`. */
  lemma {:induction false} HandleLinesOfCsv(lines: seq<string>)
    requires forall i :: 0 <= i < |lines| ==> NoLineBreak(lines[i])
    ensures HandleLines(CsvText(lines)) == seq(|lines|, i requires 0 <= i < |lines| => lines[i] + "\n")
  {
    if lines != [] {
      var text := CsvText(lines);
      var head := lines[0];
      assert text == head + "\n" + CsvText(lines[1..]);
      assert text[|head|] == '\n';
      assert FirstIndex(text, '\n') == |head|;
      assert text[..|head| + 1] == head + "\n";
      assert text[|head| + 1..] == CsvText(lines[1..]);
      HandleLinesOfCsv(lines[1..]);
    }
  }

  /** Reading back what `write_csv_lines` wrote gives the lines again,
      provided none of them holds a line break. */
  lemma CsvRoundTrip(lines: seq<string>)
    requires forall i :: 0 <= i < |lines| ==> NoLineBreak(lines[i])
    ensures ReadCsvLines(CsvText(lines)) == lines
  {
    CsvTextNoReturn(lines);
    TranslateNewlinesNoReturn(CsvText(lines));
    HandleLinesOfCsv(lines);
    forall i | 0 <= i < |lines| ensures RStripChars(lines[i] + "\n", {'\n', '\r'}) == lines[i] {
      RStripNewline(lines[i]);
    }
  }

  lemma {:induction false} CsvTextNoReturn(lines: seq<string>)
    requires forall i :: 0 <= i < |lines| ==> NoLineBreak(lines[i])
    ensures '\r' !in CsvText(lines)
  {
    if lines != [] {
      CsvTextNoReturn(lines[1..]);
    }
  }

  lemma RStripNewline(line: string)
    requires NoLineBreak(line)
    ensures RStripChars(line + "\n", {'\n', '\r'}) == line
  {
    var s := line + "\n";
    assert s[..|s| - 1] == line;
  }

  /** A line ending in `\r` does not survive the round trip: its `\r\n`
      reads as one line break. */
  lemma CsvRoundTripNeedsNoReturn()
    ensures ReadCsvLines(CsvText(["a\r"])) == ["a"]
  {
    assert CsvText(["a\r"]) == "a\r\n";
    assert TranslateNewlines("a\r\n") == "a\n";
    var read := "a\n";
    assert FirstIndex(read, '\n') == 1;
    assert read[..2] == read && read[2..] == [];
    assert HandleLines(read) == [read];
    assert RStripChars("a\n", {'\n', '\r'}) == "a";
  }
}
