# bday contact transformation in Dafny

This project models the core of `bday`, a small tool that reads contact rows
from a `;`-delimited text file or an `.xlsx` workbook. It keeps the rows whose
third field is a valid email and writes `name;email` lines next to the input,
under the header `name;email`. The name is reduced to a capitalised first name
(`"Diaz, MARIA Fernanda"` becomes `"Maria"`).

Modules, one per concern:

- `Wrappers`: `Option`, `Result` and the `ValueError` the code raises.
- `Seqs`: generic sequence facts (concatenation, slicing).
- `Text`: the Python `str` operations the code uses, restricted to ASCII:
  `isspace`, `strip`, `rstrip(chars)`, `split()`, `split(sep, maxsplit)`,
  `join`, `lower` and `upper`.
- `Decimal`: `str(int)` and the zero-padded fields of `isoformat`.
- `Paths`: `PurePath.suffix`, `stem` and `with_suffix` on a path given as its
  directory part and its final component.
- `Contacts` (src/bday/contact.py):
  - the email pattern, as a predicate over character classes;
  - `_first_token`, `_capitalize` and `extract_first_name`;
  - `try_parse_contact` and the `Contact` value, the datatype
    `Contacts.Contact` with a name and an email.
- `RowSource` (src/bday/io.py):
  - `DELIMITER`, `EXCEL_SUFFIXES` and `is_excel_file`;
  - `stringify_value`, over a sum type of cell values;
  - the row join and the loops of `_read_xlsx` and `_read_xls`;
  - the dispatch in `read_excel_lines`;
  - `write_csv_lines` as a loop that builds the written text;
  - `read_csv_lines` as a function of a file's text.
- `Pipeline` (src/bday/pipeline.py):
  - `HEADER`, the constant `Pipeline.HEADER` (`name;email`);
  - `process_lines`, as a loop proved against a specification function;
  - `process_file`: the `.xls` rejection, the reader dispatch and the output
    path, with the file system replaced by the contents the readers see.

The loops of the source (`process_lines`, `_read_xlsx`, `_read_xls` and
`write_csv_lines`) are methods with loop invariants. Each method's
postcondition ties its result to a specification function, and lemmas prove
the source's promises about that function. Everything else is pure functions
and lemmas, as in the source.

Where the code and its documentation or tests disagree, the model follows the
code:

- A contact may have an empty name: a first field of blanks passes
  `if not name_raw` (src/bday/contact.py:51) and its first name is `""`
  (`BlankNameAccepted`).
- `read_excel_lines` sends `.xls` to the pandas reader. Only `process_file`
  rejects `.xls`, although a test expects `read_excel_lines` to reject it.
- The tests call `io._stringify_value`; the function is `stringify_value`.
- The lines of `_read_xls` start with the first data row, not a header row:
  pandas consumes the first row as column names (src/bday/io.py:55). The
  workbook reader keeps the first row. `process_file` never reaches the
  pandas reader, because it rejects `.xls` first.

## Model

| member | source | states |
|---|---|---|
| Contacts.IsValidEmail | src/bday/contact.py:7-19 | `is_valid_email`: some placement of the `@` and of the final dot fits the pattern's character classes; `IsValidEmailDecided` shows the placement is the first `@` and the last dot |
| Contacts.EmailShapeUnique | src/bday/contact.py:7 | any way the pattern fits a string puts its `@` at the first `@` and its final dot at the last dot: the pattern is unambiguous |
| Contacts.IsValidEmailDecided | src/bday/contact.py:16-19 | a string is a valid email exactly when the pattern fits with the `@` at its first `@` and the final dot at its last dot |
| Contacts.EmailCharset | src/bday/contact.py:7 | a valid email holds only local-part characters and `@`, exactly one `@`, no `;` and no whitespace |
| Contacts.EmailHasOneAt | src/bday/contact.py:7 | a string matching the pattern holds exactly one `@` |
| Contacts.EmailExampleJohn | tests/test_contact.py:11 | `john.doe@example.com` is valid |
| Contacts.EmailExampleTagged | tests/test_contact.py:12 | `user.name+tag@domain.co` is valid |
| Contacts.EmailExamplesInvalid | tests/test_contact.py:13-14 | `invalid@domain` and `missing_at_symbol.com` are not valid |
| Contacts.FirstToken | src/bday/contact.py:22-24 | `_first_token`: the run of non-whitespace characters at the first non-whitespace character; `FirstTokenSplit` proves it equal to the head of `strip().split()` |
| Contacts.FirstTokenSplit | src/bday/contact.py:22-24 | the first token is the head of `text.strip().split()`, or `""` when that is empty; it holds no whitespace, and it is empty exactly when the text is blank |
| Contacts.FirstTokenOfWord | src/bday/contact.py:22-24 | a whitespace-free word is its own first token |
| Contacts.FirstTokenOfParts | src/bday/contact.py:22-24 | after leading whitespace, the first token is the word that runs up to the next whitespace |
| Contacts.Capitalize | src/bday/contact.py:27-32 | the result has the name's length and equals it up to case; its first character is not lower-case and no later character is upper-case; `""` gives `""` |
| Contacts.CapitalizeUnique | src/bday/contact.py:27-32 | those four properties determine the result |
| Contacts.CapitalizeIdempotent | src/bday/contact.py:27-32 | capitalising twice is capitalising once |
| Contacts.CapitalizeExamples | src/bday/contact.py:27-32 | `MARIA` gives `Maria`, `John` stays, `b,c` gives `B,c`, `c` gives `C` |
| Contacts.NameSource | src/bday/contact.py:38-39 | the candidate `extract_first_name` takes its token from: the text after the first comma when it is not blank, the whole name otherwise; `NameSourceSplit` proves it equal to the `split(",", 1)` form |
| Contacts.NameSourceSplit | src/bday/contact.py:38-39 | the token source is `parts[1]` of `split(",", 1)` when there are two parts and `parts[1].strip()` is non-empty, and the whole name otherwise |
| Contacts.NameSourceBlank | src/bday/contact.py:38-39 | the token source is blank exactly when the whole name is blank |
| Contacts.NameSourceOfParts | src/bday/contact.py:38-39 | for a comma-free `before` and non-blank `after`, the token source of `before,after` is `after` |
| Contacts.ExtractFirstName | src/bday/contact.py:35-40 | `extract_first_name`: the capitalised first token of the candidate; its properties are the lemmas below |
| Contacts.ExtractFirstNameShape | src/bday/contact.py:35-40 | the first name holds no whitespace and is empty exactly when the full name is blank; it equals its token up to case, with no lower-case first letter and no upper-case later letter |
| Contacts.ExtractFirstNameChars | src/bday/contact.py:35-40 | every non-letter in the first name occurs in the full name |
| Contacts.ExtractFirstNameIdempotent | src/bday/contact.py:35-40 | extracting again from a first name that holds no comma gives the same name |
| Contacts.ExtractFirstNameOfParts | src/bday/contact.py:35-40 | the first name of `before,ws word rest` is `word` capitalised |
| Contacts.ExtractFirstNameAfterComma | src/bday/contact.py:35-40 | a whitespace-free word right after the first comma is the first name, capitalised |
| Contacts.ExtractFirstNameCommaExample | src/bday/contact.py:38-40 | `a,b,c` gives `B,c`, which still holds a comma |
| Contacts.ExtractFirstNameCommaAgain | src/bday/contact.py:38-40 | `B,c` gives `C`, so extraction is not idempotent once a comma survives |
| Contacts.ExtractFirstNameExampleMaria | tests/test_contact.py:21-22 | `Diaz, MARIA Fernanda` gives `Maria` |
| Contacts.ExtractFirstNameExampleBlank | tests/test_contact.py:42-43 | `"   "` gives `""` |
| Contacts.ExtractFirstNameExampleJohn | src/bday/contact.py:35-40 | `Doe, John` gives `John` |
| Contacts.TryParseContact | src/bday/contact.py:43-57 | a line with fewer than two delimiters gives none; a contact always has a valid email and a whitespace-free name |
| Contacts.LineFields | src/bday/contact.py:46-50 | a line with at least two delimiters splits into three fields: two delimiter-free ones and the rest, which rejoin to the line |
| Contacts.TryParseContactFields | src/bday/contact.py:46-57 | for `name;middle;rest` the result is a contact exactly when `name` is non-empty and `rest` is a valid email; the contact is the first name of `name` with `rest` verbatim, whatever `middle` is |
| Contacts.ExtraDelimiterRejected | src/bday/contact.py:46-55 | a line with more than two `;` is always rejected |
| Contacts.ParsedNameHasNoDelimiter | src/bday/contact.py:43-57 | for a non-letter delimiter, a parsed name never holds the delimiter |
| Contacts.BlankNameAccepted | src/bday/contact.py:50-57 | `   ;;a@b.co` parses to a contact with the empty name |
| Contacts.TryParseContactExampleValid | tests/test_contact.py:25-27 | `Doe, John;;john.doe@example.com` gives `John` with that email |
| Contacts.TryParseContactExampleEmpty | tests/test_contact.py:33 | the empty line is rejected |
| Contacts.TryParseContactExampleBadEmail | tests/test_contact.py:34 | `Doe;;not-an-email` is rejected |
| Contacts.TryParseContactExampleTwoFields | tests/test_contact.py:35 | `OnlyTwoFields;john.doe@example.com` is rejected |
| Text.StripEmptyIffBlank | src/bday/contact.py:39 | `s.strip()` is empty exactly when `s` is blank |
| Text.StripThenWords | src/bday/contact.py:23-24 | the first word of `strip().split()` starts at the first non-whitespace character; there is none exactly when the text is blank |
| Text.SplitN | src/bday/contact.py:46 | `split(sep, maxsplit)` yields `1 + min(maxsplit, count)` fields (`1 + count` for a negative `maxsplit`); every field but the last is separator-free, and so is the last once every separator was split at |
| Text.JoinSplitN | src/bday/contact.py:46 | joining the fields of a split gives back the string |
| Text.SplitOnce | src/bday/contact.py:38 | `split(",", 1)` is the text before and after the first comma, or the string alone |
| Text.SplitJoin | src/bday/io.py:48 | splitting a join of separator-free parts gives back the parts, and the join holds one separator fewer than there are parts |
| Text.RStripChars | src/bday/io.py:20 | `rstrip(chars)` removes a suffix made only of `chars`, and what remains does not end in one of `chars` |
| Decimal.NatToDecimalInjective | src/bday/io.py:33-35 | distinct integers print differently |
| Decimal.ZeroPad | src/bday/io.py:30-31 | a zero-padded field holds only digits, is at least as wide as asked, and reads back as the number |
| Decimal.IntToDecimalRoundTrip | src/bday/io.py:33-35 | `int(str(i)) == i` |
| Paths.Suffix | src/bday/pipeline.py:33 | a suffix is a dot, then at least one character and no further dot, at the end of a longer name, or empty |
| Paths.SuffixOfParts | src/bday/pipeline.py:33 | the suffix of `stem.ext` is `.ext` |
| Paths.SuffixLower | src/bday/io.py:15 | the suffix of the lower-cased name is the lower-cased suffix |
| Paths.WithSuffix | src/bday/pipeline.py:45 | `with_suffix` fails exactly for an invalid suffix or an empty name, and otherwise keeps the directory and replaces the suffix |
| Paths.OutputPath | src/bday/pipeline.py:45 | `path.with_suffix(".parsed.csv")` |
| Paths.OutputPathSuffix | src/bday/pipeline.py:45 | the output path exists exactly for a non-empty name; it keeps the directory and stem, ends in `.parsed.csv` and has suffix `.csv` |
| Paths.OutputPathDiffers | src/bday/pipeline.py:45 | the output path is never the input path |
| Paths.OutputPathOfParts | src/bday/pipeline.py:45 | `stem.ext` becomes `stem.parsed.csv` |
| Paths.OutputPathExampleCsv | tests/test_cli.py:29 | `input.csv` becomes `input.parsed.csv` |
| Paths.OutputPathExampleXlsx | src/bday/pipeline.py:45 | `data/contacts.xlsx` becomes `data/contacts.parsed.csv` |
| Paths.OutputPathExampleNoSuffix | src/bday/pipeline.py:45 | a name without a suffix is extended with `.parsed.csv` |
| RowSource.IsExcelFile | src/bday/io.py:10-15 | `is_excel_file`: the lower-cased suffix is in `EXCEL_SUFFIXES`, `{.xlsx, .xls}` |
| RowSource.IsExcelFileIgnoresCase | src/bday/io.py:14-15 | names equal up to case are both spreadsheets or both not |
| RowSource.StringifyValue | src/bday/io.py:23-38 | `stringify_value`, one case per branch: `""` for an empty cell, text unchanged, ISO text for dates and date-times, the integer for an integral float, the carried `str` text otherwise |
| RowSource.DateIsoFields | src/bday/io.py:30-31 | a valid date's ISO text has ten characters, dashes at 4 and 7, and digit fields reading back as year, month and day |
| RowSource.DateTimeIsoFields | src/bday/io.py:30-31 | a valid date-time's ISO text has nineteen characters: its date, `T`, and digit fields for hour, minute and second separated by `:` |
| RowSource.IntegralFloatText | src/bday/io.py:33-35 | an integral float prints without a `.` and reads back as its value |
| RowSource.StringifyNoDelimiter | src/bday/io.py:23-38 | empty cells, dates, date-times and integral floats never print a `;` |
| RowSource.StringifyValueExamples | tests/test_io.py:11-18 | `None`, `"text"`, `3.0` and `3.14` print as `""`, `text`, `3` and `3.14` |
| RowSource.StringifyDateExamples | tests/test_io.py:14-15 | `date(2025, 1, 2)` prints as `2025-01-02`, `datetime(2025, 1, 2, 3, 4, 5)` as `2025-01-02T03:04:05` |
| RowSource.RowLine | src/bday/io.py:47-48 | the line of one row: its stringified cells joined with `;` |
| RowSource.RowLineSplits | src/bday/io.py:47-48 | a row of n cells whose values hold no `;` joins into a line with n-1 delimiters, and splitting it gives back the values |
| RowSource.SheetLinesAppend | src/bday/io.py:57-61 | reading rows one batch after another concatenates their lines, so row order is kept |
| RowSource.WorkbookLines | src/bday/io.py:45-48 | the lines of a workbook: every sheet's row lines, sheet after sheet |
| RowSource.WorkbookLinesAppend | src/bday/io.py:45-48 | reading sheets one after another concatenates their lines |
| RowSource.WorkbookLinesAt | src/bday/io.py:45-48 | one line per row of every sheet, in sheet-then-row order: row r of sheet s is line `rows before sheet s + r` |
| RowSource.ReadXlsxLines | src/bday/io.py:41-51 | the nested loop yields the workbook's lines |
| RowSource.ReadXlsLines | src/bday/io.py:54-62 | the loop yields one line per data-frame row |
| RowSource.ExcelLines | src/bday/io.py:65-71 | the outcome of `read_excel_lines`: the data-frame lines for `.xls`, the workbook lines for `.xlsx`, otherwise an error naming the suffix |
| RowSource.ExcelLinesFailure | src/bday/io.py:65-71 | reading fails exactly for a path that is not `.xls` or `.xlsx` in any case, with an error naming the lower-cased suffix |
| RowSource.ReadExcelLines | src/bday/io.py:65-71 | `.xls` goes to the data-frame reader, `.xlsx` to the workbook reader |
| RowSource.CsvText | src/bday/io.py:74-78 | the text `write_csv_lines` writes: every line followed by `\n` |
| RowSource.CsvTextAppend | src/bday/io.py:74-78 | writing more lines appends their text |
| RowSource.CsvTextNewlines | src/bday/io.py:74-78 | for lines without `\n`, the text holds one `\n` per line and ends in `\n` |
| RowSource.WriteCsvLines | src/bday/io.py:74-78 | the loop writes every line followed by `\n` |
| RowSource.TranslateNewlines | src/bday/io.py:19 | text read in text mode holds no `\r` |
| RowSource.TranslateNewlinesNoReturn | src/bday/io.py:19 | text without `\r` reads unchanged |
| RowSource.HandleLines | src/bday/io.py:19-20 | iterating a text handle: lines up to and including each `\n`, and a last line without one |
| RowSource.ReadCsvLines | src/bday/io.py:18-20 | `read_csv_lines`: the handle's lines of the newline-translated text, each with trailing `\n` and `\r` removed |
| RowSource.HandleLinesOfCsv | src/bday/io.py:19-20 | the handle yields back every written line with its `\n` |
| RowSource.RStripNewline | src/bday/io.py:20 | `rstrip("\n\r")` removes exactly the written `\n` |
| RowSource.CsvRoundTrip | src/bday/io.py:18-20 | reading back the written text of lines without line breaks gives the lines |
| RowSource.CsvRoundTripNeedsNoReturn | src/bday/io.py:18-20 | a line ending in `\r` loses it on the way back |
| Pipeline.FormatContact | src/bday/pipeline.py:27 | the output line of a contact: name, `;`, email |
| Pipeline.ParseLine | src/bday/pipeline.py:25 | `try_parse_contact(line, DELIMITER)` |
| Pipeline.Emit | src/bday/pipeline.py:26-27 | what one parse result adds: the formatted contact, or nothing |
| Pipeline.DataLines | src/bday/pipeline.py:24-27 | the output lines of a run of input lines: the formatted contact of each line that parses, in order |
| Pipeline.Keep | src/bday/pipeline.py:24-27 | at most one output line per parse result |
| Pipeline.KeepAppend | src/bday/pipeline.py:24-27 | results kept one batch after another come out in that order |
| Pipeline.KeepFrom | src/bday/pipeline.py:24-27 | every kept line is the formatted contact of some result |
| Pipeline.KeepNone | src/bday/pipeline.py:24-27 | results that are all none keep nothing |
| Pipeline.ProcessedLines | src/bday/pipeline.py:19-29 | the output starts with the header and is at most as long as the input (at least one line) |
| Pipeline.ProcessLines | src/bday/pipeline.py:19-29 | the loop returns the header, then the formatted contact of every line after the first that parses |
| Pipeline.DataLinesAppend | src/bday/pipeline.py:24-27 | lines processed batch after batch give the batches' outputs in order |
| Pipeline.DataLinesOne | src/bday/pipeline.py:25-27 | one line gives its formatted contact, or nothing |
| Pipeline.DataLinesAt | src/bday/pipeline.py:24-27 | a line that parses yields its formatted contact right after the output of every line before it, so order is preserved |
| Pipeline.DataLinesFrom | src/bday/pipeline.py:24-27 | every output line is the formatted contact of an input line that parses |
| Pipeline.DataLinesLength | src/bday/pipeline.py:24-27 | one data line per line that parses |
| Pipeline.ProcessedLength | src/bday/pipeline.py:19-29 | the output length is one plus the number of lines after the first that parse |
| Pipeline.FirstLineIgnored | src/bday/pipeline.py:20-21 | the first line never affects the output |
| Pipeline.EmptyInput | src/bday/pipeline.py:19-23 | an empty input yields the header alone |
| Pipeline.FormatContactShape | src/bday/pipeline.py:27 | a contact's line holds one `;` and splits into its name and email |
| Pipeline.DataLinesShape | src/bday/pipeline.py:24-27 | every data line holds exactly one `;`, no whitespace, and a valid email after the `;` |
| Pipeline.ParsedContact | src/bday/pipeline.py:25 | a parsed contact's name holds no `;` and no whitespace, and its email is valid |
| Pipeline.DataLinesOfSingleDelimiter | src/bday/pipeline.py:24-27 | lines with fewer than two `;` yield nothing |
| Pipeline.ReprocessingYieldsHeader | src/bday/pipeline.py:19-29 | processing an output again yields the header alone |
| Pipeline.ProcessedReadsBack | src/bday/pipeline.py:44-46 | the written output reads back as the processed lines |
| Pipeline.JaneRejected | tests/test_pipeline.py:15 | `Doe, Jane;;invalid` is rejected |
| Pipeline.ProcessLinesExample | tests/test_pipeline.py:11-23 | the pipeline test's three lines give `name;email` and `John;john.doe@example.com` |
| Pipeline.RouteOf | src/bday/pipeline.py:33-42 | the branch `process_file` takes: rejection for `.xls`, the spreadsheet reader for spreadsheet suffixes, the text reader otherwise |
| Pipeline.ProcessFileResult | src/bday/pipeline.py:32-47 | the outcome of `process_file`: the legacy error, a reader's error, a `with_suffix` error, or the output path with the written text |
| Pipeline.RouteBySuffix | src/bday/pipeline.py:33-42 | `.xls` in any case is rejected, `.xlsx` goes to the spreadsheet reader, every other suffix to the text reader |
| Pipeline.ProcessFile | src/bday/pipeline.py:32-47 | the method rejects `.xls`, reads with the chosen reader, processes, and writes to the output path |
| Pipeline.ProcessFileFailures | src/bday/pipeline.py:32-47 | the outcome is an error exactly for a `.xls` path, with the legacy message, or for an empty name; the unsupported-extension error never surfaces |
| Pipeline.ProcessFileWritten | src/bday/pipeline.py:44-47 | on success the file is written beside the input, never over it, with suffix `.csv`, and its text reads back as the processed input |

## Left out

- File, workbook and data-frame access are not modelled: `path.open`, `load_workbook`, `pd.read_excel`, `workbook.close` and `handle.write`. `process_file` and the readers receive the contents they would see: a file's text, its worksheets and its data-frame rows.
- I/O errors are not modelled: a missing file, bad UTF-8, or a directory in place of a file.
- Python's `re` engine is replaced by an explicit predicate over the pattern's character classes.
- Only ASCII is modelled. `isspace`, `lower`, `upper`, `strip` and `split` treat every non-ASCII character as a non-space letter without case.
- Non-integral floats and arbitrary objects are carried as the text `str` gives them. `float.is_integer` is decided when the cell value is built.
- `isoformat` is modelled without microseconds and time zones.
- Universal-newline reading is modelled as one translation of the whole text (`\r\n` and a lone `\r` become `\n`), so how the decoder handles a `\r` that ends one read chunk is folded into that translation.
- `Paths.Suffix` and `Paths.WithSuffix` follow `pathlib` up to Python 3.13: a name ending in a single dot (`foo.`) has no suffix, and `with_suffix(".")` is an error. Python 3.14 changed both.
- `Paths.WithSuffix`: the error texts are simplified to one `ValueError` message each.
- `Paths.WithSuffix`: the path's directory part is carried along unparsed.
- `Pipeline.ProcessFile`: a path with an empty name fails at `with_suffix`. The original would fail earlier, when it opens the path.
- The delimiter is one character (`;`), as `DELIMITER` is; `try_parse_contact` is modelled for single-character delimiters.
- src/bday/cli.py is not part of this model: it only checks the argument count and prints.
