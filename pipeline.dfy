/** The line pipeline (src/bday/pipeline.py): drop the first line, keep the
    lines that parse as contacts, write them as `name;email` under a fixed
    header, into a file next to the input. */
module Pipeline {
  import opened Wrappers
  import opened Seqs
  import opened Text
  import opened Contacts
  import opened Paths
  import opened RowSource

  /** `HEADER`, `name;email`. */
  const HEADER: string := "name" + [DELIMITER] + "email"

  /** The output line of a contact, `name;email`. */
  function FormatContact(c: Contact): string {
    c.name + [DELIMITER] + c.email
  }

  /** `try_parse_contact(line, DELIMITER)`, the parser `process_lines`
      applies to each line. */
  function ParseLine(line: string): Option<Contact> {
    TryParseContact(line, DELIMITER)
  }

  /** What one parse result contributes to the output: the formatted
      contact, or nothing. */
  function Emit(result: Option<Contact>): (r: seq<string>)
    ensures |r| <= 1
  {
    if result.Some? then [FormatContact(result.value)] else []
  }

  /** The output lines for a run of parse results: the formatted contact
      of every line that parsed, in order. */
  function Keep(results: seq<Option<Contact>>): (r: seq<string>)
    ensures |r| <= |results|
  {
    if results == [] then [] else Keep(results[..|results| - 1]) + Emit(results[|results| - 1])
  }

  /** `f` applied to every element. */
  function Map<A, B>(f: A -> B, s: seq<A>): (r: seq<B>)
    ensures |r| == |s|
    ensures forall i :: 0 <= i < |s| ==> r[i] == f(s[i])
  {
    seq(|s|, i requires 0 <= i < |s| => f(s[i]))
  }

  /** The parse result of every line. */
  function ParseAll(lines: seq<string>): (r: seq<Option<Contact>>)
    ensures |r| == |lines|
  {
    Map(ParseLine, lines)
  }

  /** The output lines for the lines after the first. */
  function DataLines(lines: seq<string>): (r: seq<string>)
    ensures |r| <= |lines|
  {
    Keep(ParseAll(lines))
  }

  /** What `process_lines` returns: the header, then the data lines of
      everything after the first line. It always begins with the header
      and is never longer than the input, except that an empty input still
      yields the header. */
  function ProcessedLines(lines: seq<string>): (r: seq<string>)
    ensures r != [] && r[0] == HEADER
    ensures |r| <= if |lines| <= 1 then 1 else |lines|
  {
    [HEADER] + DataLines(if lines == [] then [] else lines[1..])
  }

  /** `process_lines`: skip the first line if there is one, start from the
      header and append the formatted contact of each further line that
      parses. */
  method ProcessLines(lines: seq<string>) returns (processed: seq<string>)
    ensures processed == ProcessedLines(lines)
  {
    var first := if lines == [] then 0 else 1;
    processed := [HEADER];
    var i := first;
    while i < |lines|
      invariant first <= i <= |lines|
      invariant processed == [HEADER] + DataLines(lines[first..i])
    {
      DataLinesExtend(lines, first, i);
      var contact := TryParseContact(lines[i], DELIMITER);
      if contact.Some? {
        processed := processed + [FormatContact(contact.value)];
      }
      i := i + 1;
    }
    assert lines[first..i] == if lines == [] then [] else lines[1..];
  }

  /** One more line extends the output by what that line emits. */
  lemma DataLinesExtend(lines: seq<string>, first: nat, i: nat)
    requires first <= i < |lines|
    ensures [HEADER] + DataLines(lines[first..i + 1]) == ([HEADER] + DataLines(lines[first..i])) + Emit(ParseLine(lines[i]))
  {
    SliceExtend(lines, first, i);
    DataLinesAppend(lines[first..i], [lines[i]]);
    DataLinesOne(lines[i]);
    AppendAssoc([HEADER], DataLines(lines[first..i]), Emit(ParseLine(lines[i])));
  }

  /** Results kept one batch after another come out in that order. */
  lemma {:induction false} KeepAppend(a: seq<Option<Contact>>, b: seq<Option<Contact>>)
    ensures Keep(a + b) == Keep(a) + Keep(b)
    decreases |b|
  {
    if b == [] {
      AppendNil(a);
    } else {
      var b', last := b[..|b| - 1], b[|b| - 1];
      InitLast(a, b);
      KeepAppend(a, b');
      AppendAssoc(Keep(a), Keep(b'), Emit(last));
    }
  }

  /** Every kept line comes from a result that is a contact. */
  lemma {:induction false} KeepFrom(results: seq<Option<Contact>>, k: nat)
    requires k < |Keep(results)|
    ensures exists j :: 0 <= j < |results| && results[j].Some? && Keep(results)[k] == FormatContact(results[j].value)
  {
    var init, last := results[..|results| - 1], results[|results| - 1];
    if k < |Keep(init)| {
      KeepFrom(init, k);
      var i :| 0 <= i < |init| && init[i].Some? && Keep(init)[k] == FormatContact(init[i].value);
      assert results[i] == init[i];
    } else {
      assert results[|results| - 1].Some?;
    }
  }

  /** Results that are all `None` keep nothing. */
  lemma {:induction false} KeepNone(results: seq<Option<Contact>>)
    requires forall i :: 0 <= i < |results| ==> results[i].None?
    ensures Keep(results) == []
  {
    if results != [] {
      KeepNone(results[..|results| - 1]);
    }
  }

  lemma MapAppend<A, B>(f: A -> B, a: seq<A>, b: seq<A>)
    ensures Map(f, a + b) == Map(f, a) + Map(f, b)
  {
    var l := a + b;
    forall i | 0 <= i < |l| ensures Map(f, l)[i] == (Map(f, a) + Map(f, b))[i] {
      if i < |a| {
        assert l[i] == a[i];
      } else {
        assert l[i] == b[i - |a|];
      }
    }
  }

  /** Lines processed one batch after another give the batches' outputs in
      that order. */
  lemma DataLinesAppend(a: seq<string>, b: seq<string>)
    ensures DataLines(a + b) == DataLines(a) + DataLines(b)
  {
    MapAppend(ParseLine, a, b);
    KeepAppend(ParseAll(a), ParseAll(b));
  }

  /** A single line yields its formatted contact, or nothing. */
  lemma DataLinesOne(line: string)
    ensures DataLines([line]) == Emit(ParseLine(line))
  {
    var results := ParseAll([line]);
    assert results[..0] == [];
    assert [] + Emit(results[0]) == Emit(results[0]);
  }

  /** A line that parses lands right after the output of every line before
      it: the output keeps the input's order and drops nothing that parses. */
  lemma DataLinesAt(lines: seq<string>, j: nat)
    requires j < |lines| && ParseLine(lines[j]).Some?
    ensures var k := |DataLines(lines[..j])|;
            k < |DataLines(lines)| && DataLines(lines)[k] == FormatContact(ParseLine(lines[j]).value)
  {
    var before, line, after := lines[..j], lines[j], lines[j + 1..];
    SplitAround(lines, j);
    DataLinesAppend(before + [line], after);
    DataLinesAppend(before, [line]);
    DataLinesOne(line);
    IndexAfter(DataLines(before), FormatContact(ParseLine(line).value), DataLines(after));
  }

  /** Every output line comes from an input line that parses, as that
      line's formatted contact. */
  lemma DataLinesFrom(lines: seq<string>, k: nat)
    requires k < |DataLines(lines)|
    ensures exists j :: 0 <= j < |lines| && ParseLine(lines[j]).Some?
                        && DataLines(lines)[k] == FormatContact(ParseLine(lines[j]).value)
  {
    var results := ParseAll(lines);
    KeepFrom(results, k);
    var j :| 0 <= j < |results| && results[j].Some? && Keep(results)[k] == FormatContact(results[j].value);
    assert results[j] == ParseLine(lines[j]);
  }

  /** Number of lines that parse as contacts. */
  function ParsedCount(lines: seq<string>): nat {
    if lines == [] then 0
    else (if ParseLine(lines[0]).Some? then 1 else 0) + ParsedCount(lines[1..])
  }

  /** One data line per line that parses. */
  lemma {:induction false} DataLinesLength(lines: seq<string>)
    ensures |DataLines(lines)| == ParsedCount(lines)
    decreases |lines|
  {
    if lines != [] {
      HeadTail(lines);
      DataLinesAppend([lines[0]], lines[1..]);
      DataLinesOne(lines[0]);
      DataLinesLength(lines[1..]);
    }
  }

  /** The output is the header plus one line per line after the first that
      parses. */
  lemma ProcessedLength(lines: seq<string>)
    ensures |ProcessedLines(lines)| == 1 + ParsedCount(if lines == [] then [] else lines[1..])
  {
    DataLinesLength(if lines == [] then [] else lines[1..]);
  }

  /** The first line never matters, whatever it holds. */
  lemma FirstLineIgnored(a: string, b: string, rest: seq<string>)
    ensures ProcessedLines([a] + rest) == ProcessedLines([b] + rest)
  {
    assert ([a] + rest)[1..] == rest;
    assert ([b] + rest)[1..] == rest;
  }

  /** An empty input yields the header alone. */
  lemma EmptyInput()
    ensures ProcessedLines([]) == [HEADER]
  {
  }

  /** The output line of a contact whose name holds no `;` and no
      whitespace and whose email is valid is `name;email` with exactly one
      `;`, splitting back into name and email, and holds no whitespace. */
  lemma FormatContactShape(c: Contact)
    requires IsValidEmail(c.email) && NoSpace(c.name) && DELIMITER !in c.name
    ensures Split(FormatContact(c), DELIMITER) == [c.name, c.email]
    ensures Count(FormatContact(c), DELIMITER) == 1
    ensures NoSpace(FormatContact(c))
  {
    EmailCharset(c.email);
    JoinTwoFree(c.name, c.email);
    SplitJoin(DELIMITER, [c.name, c.email]);
  }

  lemma JoinTwoFree(name: string, email: string)
    requires NoSpace(name) && NoSpace(email)
    ensures Join(DELIMITER, [name, email]) == name + [DELIMITER] + email
    ensures NoSpace(name + [DELIMITER] + email)
  {
    assert [name, email][1..] == [email];
  }

  /** Every data line of the output is a well-formed `name;email` line. */
  lemma DataLinesShape(lines: seq<string>, k: nat)
    requires k < |DataLines(lines)|
    ensures Count(DataLines(lines)[k], DELIMITER) == 1
    ensures var fields := Split(DataLines(lines)[k], DELIMITER);
            |fields| == 2 && IsValidEmail(fields[1])
    ensures NoSpace(DataLines(lines)[k])
  {
    DataLinesFrom(lines, k);
    var j :| 0 <= j < |lines| && ParseLine(lines[j]).Some?
             && DataLines(lines)[k] == FormatContact(ParseLine(lines[j]).value);
    ParsedContact(lines[j]);
    FormatContactShape(ParseLine(lines[j]).value);
  }

  /** A parsed contact's name holds no `;` and no whitespace, and its email
      is valid. */
  lemma ParsedContact(line: string)
    requires ParseLine(line).Some?
    ensures var c := ParseLine(line).value;
            IsValidEmail(c.email) && NoSpace(c.name) && DELIMITER !in c.name
  {
    assert !IsAsciiLetter(DELIMITER);
    ParsedNameHasNoDelimiter(line, DELIMITER);
  }

  /** Lines with fewer than two `;` never parse, so they yield nothing. */
  lemma DataLinesOfSingleDelimiter(lines: seq<string>)
    requires forall i :: 0 <= i < |lines| ==> Count(lines[i], DELIMITER) < 2
    ensures DataLines(lines) == []
  {
    var results := ParseAll(lines);
    forall i | 0 <= i < |results| ensures results[i].None? {
      assert results[i] == ParseLine(lines[i]);
    }
    KeepNone(results);
  }

  /** Processing an output again yields the header alone: its data lines
      have one `;` each and no longer parse. */
  lemma ReprocessingYieldsHeader(lines: seq<string>)
    ensures ProcessedLines(ProcessedLines(lines)) == [HEADER]
  {
    var out := ProcessedLines(lines);
    var data := DataLines(if lines == [] then [] else lines[1..]);
    assert out[1..] == data;
    forall i | 0 <= i < |data| ensures Count(data[i], DELIMITER) < 2 {
      DataLinesShape(if lines == [] then [] else lines[1..], i);
    }
    DataLinesOfSingleDelimiter(data);
  }

  /** The output holds no line break, so the text written for it reads back
      as the same lines. */
  lemma ProcessedReadsBack(lines: seq<string>)
    ensures ReadCsvLines(CsvText(ProcessedLines(lines))) == ProcessedLines(lines)
  {
    var rest := if lines == [] then [] else lines[1..];
    var data := DataLines(rest);
    forall k | 0 <= k < |data| ensures NoLineBreak(data[k]) {
      DataLinesShape(rest, k);
      NoSpaceNoLineBreak(data[k]);
    }
    HeaderThenLines(data);
    CsvRoundTrip([HEADER] + data);
  }

  lemma NoSpaceNoLineBreak(s: string)
    requires NoSpace(s)
    ensures NoLineBreak(s)
  {
    assert forall k :: 0 <= k < |s| ==> s[k] != '\n' && s[k] != '\r';
  }

  lemma HeaderThenLines(data: seq<string>)
    requires forall k :: 0 <= k < |data| ==> NoLineBreak(data[k])
    ensures forall k :: 0 <= k < |[HEADER] + data| ==> NoLineBreak(([HEADER] + data)[k])
  {
    assert '\n' !in HEADER && '\r' !in HEADER;
    forall k | 0 < k < |[HEADER] + data| ensures NoLineBreak(([HEADER] + data)[k]) {
      assert ([HEADER] + data)[k] == data[k - 1];
    }
  }

  /** The row that fails the email check in the pipeline tests. */
  lemma JaneRejected()
    ensures TryParseContact("Doe, Jane;;invalid", DELIMITER) == None
  {
    assert ';' !in "Doe, Jane";
    assert "Doe, Jane;;invalid" == "Doe, Jane" + [';'] + "" + [';'] + "invalid";
    assert '@' !in "invalid";
    TryParseContactFields("Doe, Jane", "", "invalid", ';');
  }

  /** The pipeline test: the header line is replaced, the valid row is
      kept, the row with an invalid email is dropped. */
  lemma ProcessLinesExample()
    ensures ProcessedLines(["name;middle;email", "Doe, John;;john.doe@example.com", "Doe, Jane;;invalid"])
         == ["name;email", "John;john.doe@example.com"]
  {
    var john, jane := "Doe, John;;john.doe@example.com", "Doe, Jane;;invalid";
    assert FormatContact(Contact("John", "john.doe@example.com")) == "John;john.doe@example.com";
    assert HEADER == "name;email";
    ThreeParts(HEADER, "John;john.doe@example.com");
    TryParseContactExampleValid();
    JaneRejected();
    ProcessedOfThree("name;middle;email", john, jane);
    DataLinesOne(john);
    DataLinesOne(jane);
  }

  lemma ThreeParts(a: string, b: string)
    ensures [a] + [b] + [] == [a, b]
  {
  }

  lemma ProcessedOfThree(first: string, a: string, b: string)
    ensures ProcessedLines([first, a, b]) == [HEADER] + DataLines([a]) + DataLines([b])
  {
    TailOfThree(first, a, b);
    DataLinesAppend([a], [b]);
  }

  // ---------------------------------------------------------------------
  // process_file
  // ---------------------------------------------------------------------

  const LEGACY_XLS_MESSAGE: string := "Legacy .xls files are not supported; convert the file to .xlsx or CSV."

  /** The reader `process_file` uses for a path. */
  datatype Route = LegacyRejected | SpreadsheetReader | TextReader

  function RouteOf(p: Path): Route {
    if LowerSuffix(p) == ".xls" then LegacyRejected
    else if IsExcelFile(p) then SpreadsheetReader
    else TextReader
  }

  /** `.xls` in any case is rejected, `.xlsx` in any case goes to the
      spreadsheet reader, every other suffix to the text reader. */
  lemma RouteBySuffix(p: Path)
    ensures RouteOf(p) == LegacyRejected <==> LowerSuffix(p) == ".xls"
    ensures RouteOf(p) == SpreadsheetReader <==> LowerSuffix(p) == ".xlsx"
    ensures RouteOf(p) == TextReader <==> LowerSuffix(p) !in {".xls", ".xlsx"}
  {
  }

  /** What `process_file` leaves behind: the path it wrote and the text it
      wrote there. */
  datatype Written = Written(path: Path, text: string)

  /** The lines `process_file` reads from a path that is not rejected. */
  function InputLines(p: Path, contents: FileContents): Result<seq<string>, Error> {
    if IsExcelFile(p) then ExcelLines(p, contents) else Success(ReadCsvLines(contents.text))
  }

  /** The outcome of `process_file`. */
  function ProcessFileResult(p: Path, contents: FileContents): Result<Written, Error> {
    if RouteOf(p) == LegacyRejected then Failure(ValueError(LEGACY_XLS_MESSAGE))
    else
      var read := InputLines(p, contents);
      if read.Failure? then Failure(read.error)
      else
        var out := OutputPath(p);
        if out.Failure? then Failure(out.error)
        else Success(Written(out.value, CsvText(ProcessedLines(read.value))))
  }

  /** `process_file`: reject `.xls`, read the lines with the reader the
      suffix picks, process them, and write them to the output path. */
  method ProcessFile(p: Path, contents: FileContents) returns (r: Result<Written, Error>)
    ensures r == ProcessFileResult(p, contents)
  {
    var suffix := LowerSuffix(p);
    if suffix == ".xls" {
      return Failure(ValueError(LEGACY_XLS_MESSAGE));
    }
    var lines: seq<string>;
    if IsExcelFile(p) {
      var read := ReadExcelLines(p, contents);
      if read.Failure? {
        return Failure(read.error);
      }
      lines := read.value;
    } else {
      lines := ReadCsvLines(contents.text);
    }
    var processed := ProcessLines(lines);
    var outputPath := OutputPath(p);
    if outputPath.Failure? {
      return Failure(outputPath.error);
    }
    var text := WriteCsvLines(processed);
    return Success(Written(outputPath.value, text));
  }

  /** `process_file` fails exactly for a `.xls` path, with the legacy
      message, and for a path with an empty name; the spreadsheet reader's
      unsupported-extension error can never surface. */
  lemma ProcessFileFailures(p: Path, contents: FileContents)
    ensures ProcessFileResult(p, contents).Failure? <==> LowerSuffix(p) == ".xls" || p.name == []
    ensures LowerSuffix(p) == ".xls" ==> ProcessFileResult(p, contents) == Failure(ValueError(LEGACY_XLS_MESSAGE))
    ensures InputLines(p, contents).Success?
  {
    OutputPathSuffix(p);
    ExcelLinesFailure(p, contents);
  }

  /** On success `process_file` writes beside the input, never over it, a
      `.csv` file whose text reads back as the processed input lines,
      header first. */
  lemma ProcessFileWritten(p: Path, contents: FileContents)
    requires ProcessFileResult(p, contents).Success?
    ensures var w := ProcessFileResult(p, contents).value;
            && w.path == OutputPath(p).value
            && w.path != p
            && LowerSuffix(w.path) == ".csv"
            && ReadCsvLines(w.text) == ProcessedLines(InputLines(p, contents).value)
  {
    OutputPathSuffix(p);
    OutputPathDiffers(p);
    ProcessedReadsBack(InputLines(p, contents).value);
  }
}
