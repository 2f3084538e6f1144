/** Parsing one `;`-delimited line into a contact: email validation against
    the fixed pattern, first-name extraction and the three-field row shape
    (src/bday/contact.py). */
module Contacts {
  import opened Wrappers
  import opened Seqs
  import opened Text

  /** A validated contact; built only by `TryParseContact`. */
  datatype Contact = Contact(name: string, email: string)

  // ---------------------------------------------------------------------
  // Email validation: `^[a-zA-Z0-9._%+-]+@[a-zA-Z0-9.-]+\.[a-zA-Z]{2,}$`
  // ---------------------------------------------------------------------

  /** The character class of the local part, `[a-zA-Z0-9._%+-]`. */
  predicate IsLocalChar(c: char) {
    IsAsciiLetter(c) || IsAsciiDigit(c) || c == '.' || c == '_' || c == '%' || c == '+' || c == '-'
  }

  /** The character class of the domain, `[a-zA-Z0-9.-]`. */
  predicate IsDomainChar(c: char) {
    IsAsciiLetter(c) || IsAsciiDigit(c) || c == '.' || c == '-'
  }

  /** `s` matches the email pattern with its `@` at index `at` and the dot
      before the final label at index `dot`: a non-empty local part, the
      `@`, a non-empty domain, the dot, and at least two letters up to the
      end of the string. */
  predicate EmailShapeAt(s: string, at: nat, dot: nat) {
    && 0 < at && at + 1 < dot && dot + 2 < |s|
    && s[at] == '@' && s[dot] == '.'
    && (forall k :: 0 <= k < at ==> IsLocalChar(s[k]))
    && (forall k :: at < k < dot ==> IsDomainChar(s[k]))
    && (forall k :: dot < k < |s| ==> IsAsciiLetter(s[k]))
  }

  /** `is_valid_email`: the whole string matches the pattern, that is,
      some placement of the `@` and of the dot before the final label fits. */
  predicate IsValidEmail(email: string) {
    exists at: nat, dot: nat | at < |email| && dot < |email| :: EmailShapeAt(email, at, dot)
  }

  /** Any placement that fits puts the `@` at the first `@` (neither class
      admits `@`) and the dot at the last dot (the final label admits no
      dot): the final label is the text after the last dot. */
  lemma {:induction false} EmailShapeUnique(s: string, at: nat, dot: nat)
    requires EmailShapeAt(s, at, dot)
    ensures at == FirstIndex(s, '@') && dot == LastIndex(s, '.')
  {
    var i := FirstIndex(s, '@');
    assert i <= at;
    var j := LastIndex(s, '.');
    assert '.' in s;
    assert dot <= j;
  }

  /** Checking the one placement given by the first `@` and the last dot
      decides `is_valid_email`. */
  lemma IsValidEmailDecided(s: string)
    ensures IsValidEmail(s) <==> EmailShapeAt(s, FirstIndex(s, '@'), LastIndex(s, '.'))
  {
    if IsValidEmail(s) {
      var at: nat, dot: nat :| at < |s| && dot < |s| && EmailShapeAt(s, at, dot);
      EmailShapeUnique(s, at, dot);
    }
  }

  /** A valid email consists of local-part characters and exactly one
      `@`; in particular it holds no `;`, no whitespace and no line break. */
  lemma EmailCharset(e: string)
    requires IsValidEmail(e)
    ensures forall k :: 0 <= k < |e| ==> e[k] == '@' || IsLocalChar(e[k])
    ensures ';' !in e && NoSpace(e)
    ensures Count(e, '@') == 1
  {
    var at: nat, dot: nat :| at < |e| && dot < |e| && EmailShapeAt(e, at, dot);
    forall k | 0 <= k < |e| ensures e[k] == '@' || IsLocalChar(e[k]) {
      if at < k < dot {
        assert IsDomainChar(e[k]);
      }
    }
    forall k | 0 <= k < |e| ensures e[k] != ';' && !IsSpace(e[k]) {
      EmailCharNotSeparator(e[k]);
    }
    EmailHasOneAt(e, at, dot);
  }

  lemma EmailCharNotSeparator(c: char)
    requires c == '@' || IsLocalChar(c)
    ensures c != ';' && !IsSpace(c)
  {
  }

  lemma EmailHasOneAt(e: string, at: nat, dot: nat)
    requires EmailShapeAt(e, at, dot)
    ensures Count(e, '@') == 1
  {
    var before, after := e[..at], e[at + 1..];
    assert e == before + [e[at]] + after;
    assert '@' !in before;
    assert '@' !in after by {
      forall k | 0 <= k < |after| ensures after[k] != '@' {
        assert after[k] == e[at + 1 + k];
      }
    }
    CountAppend(before + [e[at]], after, '@');
    CountAppend(before, [e[at]], '@');
  }

  lemma EmailExampleJohn()
    ensures IsValidEmail("john.doe@example.com")
  {
    var s := "john.doe@example.com";
    assert forall k :: 0 <= k < 8 ==> IsLocalChar(s[k]);
    assert forall k :: 8 < k < 16 ==> IsDomainChar(s[k]);
    assert forall k :: 16 < k < |s| ==> IsAsciiLetter(s[k]);
    assert EmailShapeAt(s, 8, 16);
  }

  lemma EmailExampleTagged()
    ensures IsValidEmail("user.name+tag@domain.co")
  {
    var s := "user.name+tag@domain.co";
    assert forall k :: 0 <= k < 13 ==> IsLocalChar(s[k]);
    assert forall k :: 13 < k < 20 ==> IsDomainChar(s[k]);
    assert forall k :: 20 < k < |s| ==> IsAsciiLetter(s[k]);
    assert EmailShapeAt(s, 13, 20);
  }

  lemma EmailExamplesInvalid()
    ensures !IsValidEmail("invalid@domain")
    ensures !IsValidEmail("missing_at_symbol.com")
  {
    var noDot := "invalid@domain";
    assert '.' !in noDot;
    var noAt := "missing_at_symbol.com";
    assert '@' !in noAt;
  }

  // ---------------------------------------------------------------------
  // First-name extraction
  // ---------------------------------------------------------------------

  /** `_first_token`: the run of non-whitespace characters that starts at
      the first non-whitespace character of `text`, empty when there is
      none. */
  function FirstToken(text: string): string {
    TakeWord(LStrip(text))
  }

  /** `FirstToken` is what `_first_token` computes, the head of
      `text.strip().split()` or the empty string when that list is empty;
      it holds no whitespace and is empty exactly when the text is blank. */
  lemma FirstTokenSplit(text: string)
    ensures var tokens := Words(Strip(text));
            FirstToken(text) == if tokens != [] then tokens[0] else []
    ensures NoSpace(FirstToken(text))
    ensures FirstToken(text) == [] <==> IsBlank(text)
  {
    StripThenWords(text);
  }

  /** `_capitalize`: lower-case the whole name, then upper-case its first
      character. The result agrees with `name` up to case, begins with no
      lower-case letter and continues with no upper-case letter. */
  function Capitalize(name: string): (r: string)
    ensures |r| == |name|
    ensures forall i :: 0 <= i < |r| ==> Lower(r[i]) == Lower(name[i])
    ensures r != [] ==> !IsAsciiLower(r[0])
    ensures forall i :: 0 < i < |r| ==> !IsAsciiUpper(r[i])
  {
    if name == [] then []
    else
      var lowered := LowerStr(name);
      [Upper(lowered[0])] + lowered[1..]
  }

  /** Two characters equal up to case and of the same case are equal. */
  lemma SameCaseSameChar(a: char, b: char)
    requires Lower(a) == Lower(b)
    requires (!IsAsciiLower(a) && !IsAsciiLower(b)) || (!IsAsciiUpper(a) && !IsAsciiUpper(b))
    ensures a == b
  {
  }

  /** The properties in `Capitalize`'s contract determine its result. */
  lemma CapitalizeUnique(name: string, r: string)
    requires |r| == |name|
    requires forall i :: 0 <= i < |r| ==> Lower(r[i]) == Lower(name[i])
    requires r != [] ==> !IsAsciiLower(r[0])
    requires forall i :: 0 < i < |r| ==> !IsAsciiUpper(r[i])
    ensures r == Capitalize(name)
  {
    var c := Capitalize(name);
    forall i | 0 <= i < |r| ensures r[i] == c[i] {
      SameCaseSameChar(r[i], c[i]);
    }
  }

  /** Capitalisation of the names in the contact tests. */
  lemma CapitalizeExamples()
    ensures Capitalize("MARIA") == "Maria"
    ensures Capitalize("John") == "John"
    ensures Capitalize("b,c") == "B,c"
    ensures Capitalize("c") == "C"
  {
    CapitalizeUnique("MARIA", "Maria");
    CapitalizeUnique("John", "John");
    CapitalizeUnique("b,c", "B,c");
    CapitalizeUnique("c", "C");
  }

  /** Capitalising twice is capitalising once. */
  lemma CapitalizeIdempotent(name: string)
    ensures Capitalize(Capitalize(name)) == Capitalize(name)
  {
    CapitalizeUnique(Capitalize(name), Capitalize(name));
  }

  /** The text `extract_first_name` takes its token from: the part after the
      first comma when there is a comma and that part is not blank, the
      whole name otherwise. */
  function NameSource(fullName: string): string {
    var i := FirstIndex(fullName, ',');
    if i < |fullName| && !IsBlank(fullName[i + 1..]) then fullName[i + 1..] else fullName
  }

  /** `NameSource` is the candidate `extract_first_name` picks with
      `full_name.split(",", 1)`: the second part when there are two parts
      and the second does not strip to nothing, the whole name otherwise. */
  lemma NameSourceSplit(fullName: string)
    ensures var parts := SplitN(fullName, ',', 1);
            NameSource(fullName) == if |parts| == 2 && Strip(parts[1]) != [] then parts[1] else fullName
  {
    var parts := SplitN(fullName, ',', 1);
    var i := FirstIndex(fullName, ',');
    SplitOnce(fullName, ',');
    if |parts| == 2 {
      assert i < |fullName| && parts[1] == fullName[i + 1..];
      StripEmptyIffBlank(parts[1]);
    } else {
      assert i == |fullName|;
    }
  }

  /** The token source is blank exactly when the whole name is. */
  lemma NameSourceBlank(fullName: string)
    ensures IsBlank(NameSource(fullName)) <==> IsBlank(fullName)
  {
    var i := FirstIndex(fullName, ',');
    if i < |fullName| && !IsBlank(fullName[i + 1..]) {
      var after := fullName[i + 1..];
      var k :| 0 <= k < |after| && !IsSpace(after[k]);
      assert after[k] == fullName[i + 1 + k];
    }
  }

  /** `extract_first_name`: the capitalised first token of `NameSource`. */
  function ExtractFirstName(fullName: string): string {
    Capitalize(FirstToken(NameSource(fullName)))
  }

  /** The first name holds no whitespace, is empty exactly when the whole
      name is blank, and otherwise is the first token of `NameSource` with
      an upper-case head and a lower-case rest. */
  lemma ExtractFirstNameShape(fullName: string)
    ensures var r := ExtractFirstName(fullName);
            var token := FirstToken(NameSource(fullName));
            && NoSpace(r)
            && (r == [] <==> IsBlank(fullName))
            && |r| == |token| && (forall i :: 0 <= i < |r| ==> Lower(r[i]) == Lower(token[i]))
            && (r != [] ==> !IsAsciiLower(r[0]))
            && (forall i :: 0 < i < |r| ==> !IsAsciiUpper(r[i]))
  {
    var token := FirstToken(NameSource(fullName));
    var r := Capitalize(token);
    FirstTokenSplit(NameSource(fullName));
    NameSourceBlank(fullName);
    forall i | 0 <= i < |r| ensures !IsSpace(r[i]) {
      assert Lower(r[i]) == Lower(token[i]);
    }
  }

  /** Every character of the first name that is not a letter occurs in the
      full name: extraction only selects characters and changes case. */
  lemma {:induction false} ExtractFirstNameChars(fullName: string, i: nat)
    requires i < |ExtractFirstName(fullName)|
    requires !IsAsciiLetter(ExtractFirstName(fullName)[i])
    ensures ExtractFirstName(fullName)[i] in fullName
  {
    var r := ExtractFirstName(fullName);
    var source := NameSource(fullName);
    var stripped := LStrip(source);
    var token := FirstToken(source);
    ExtractFirstNameShape(fullName);
    assert Lower(r[i]) == Lower(token[i]);
    assert token[i] == r[i];
    assert token[i] == stripped[i];
    assert stripped[i] == source[|source| - |stripped| + i];
    var comma := FirstIndex(fullName, ',');
    if comma < |fullName| && !IsBlank(fullName[comma + 1..]) {
      assert source[|source| - |stripped| + i] == fullName[comma + 1 + |source| - |stripped| + i];
    }
  }

  /** A whitespace-free word is its own first token. */
  lemma FirstTokenOfWord(w: string)
    requires NoSpace(w)
    ensures FirstToken(w) == w
  {
    AppendNil(w);
    LStripConcat([], w);
    TakeWordConcat(w, []);
  }

  /** Extraction is idempotent on its own results that hold no comma. */
  lemma ExtractFirstNameIdempotent(fullName: string)
    requires ',' !in ExtractFirstName(fullName)
    ensures ExtractFirstName(ExtractFirstName(fullName)) == ExtractFirstName(fullName)
  {
    var r := ExtractFirstName(fullName);
    ExtractFirstNameShape(fullName);
    assert NameSource(r) == r;
    FirstTokenOfWord(r);
    CapitalizeUnique(r, r);
  }

  /** After leading whitespace `ws`, `_first_token` is the word that runs up
      to the next whitespace character or the end. */
  lemma FirstTokenOfParts(ws: string, word: string, rest: string)
    requires IsBlank(ws) && word != [] && NoSpace(word)
    requires rest != [] ==> IsSpace(rest[0])
    ensures FirstToken(ws + word + rest) == word
  {
    AppendAssoc(ws, word, rest);
    LStripConcat(ws, word + rest);
    TakeWordConcat(word, rest);
  }

  /** When the text after the first comma is not blank, it is the token
      source. */
  lemma NameSourceOfParts(before: string, after: string)
    requires ',' !in before && !IsBlank(after)
    ensures NameSource(before + [','] + after) == after
  {
    var s := before + [','] + after;
    assert s[..|before|] == before;
    assert s[|before|] == ',';
    assert FirstIndex(s, ',') == |before|;
    assert s[|before| + 1..] == after;
  }

  /** The first name of `before, after`, where `after` is blank space, a
      word and then nothing or text starting with whitespace, is the
      capitalised word. */
  lemma ExtractFirstNameOfParts(before: string, after: string, ws: string, word: string, rest: string)
    requires ',' !in before && after == ws + word + rest
    requires IsBlank(ws) && word != [] && NoSpace(word)
    requires rest != [] ==> IsSpace(rest[0])
    ensures ExtractFirstName(before + [','] + after) == Capitalize(word)
  {
    assert !IsBlank(after) by {
      assert after[|ws|] == word[0];
    }
    NameSourceOfParts(before, after);
    FirstTokenOfParts(ws, word, rest);
  }

  /** A whitespace-free word right after the first comma is the token. */
  lemma ExtractFirstNameAfterComma(before: string, word: string)
    requires ',' !in before && word != [] && NoSpace(word)
    ensures ExtractFirstName(before + [','] + word) == Capitalize(word)
  {
    assert word == [] + word + [];
    ExtractFirstNameOfParts(before, word, [], word, []);
  }

  /** A comma that survives into the result makes extraction not
      idempotent. */
  lemma ExtractFirstNameCommaExample()
    ensures ExtractFirstName("a,b,c") == "B,c"
  {
    assert "a,b,c" == "a" + [','] + "b,c";
    CapitalizeExamples();
    ExtractFirstNameAfterComma("a", "b,c");
  }

  /** Extracting again from that result takes the text after its comma. */
  lemma ExtractFirstNameCommaAgain()
    ensures ExtractFirstName("B,c") == "C"
  {
    assert "B,c" == "B" + [','] + "c";
    CapitalizeExamples();
    ExtractFirstNameAfterComma("B", "c");
  }

  /** The surname-first row of the extraction tests. */
  lemma ExtractFirstNameExampleMaria()
    ensures ExtractFirstName("Diaz, MARIA Fernanda") == "Maria"
  {
    MariaParts();
    CapitalizeExamples();
    ExtractFirstNameOfParts("Diaz", " MARIA Fernanda", " ", "MARIA", " Fernanda");
  }

  lemma MariaParts()
    ensures "Diaz, MARIA Fernanda" == "Diaz" + [','] + " MARIA Fernanda"
    ensures " MARIA Fernanda" == " " + "MARIA" + " Fernanda"
    ensures ',' !in "Diaz" && IsBlank(" ") && NoSpace("MARIA") && IsSpace(" Fernanda"[0])
  {
  }

  /** A blank name gives the empty first name. */
  lemma ExtractFirstNameExampleBlank()
    ensures ExtractFirstName("   ") == ""
  {
    assert IsBlank("   ");
    ExtractFirstNameShape("   ");
  }

  /** The name of the accepted row of the contact tests. */
  lemma ExtractFirstNameExampleJohn()
    ensures ExtractFirstName("Doe, John") == "John"
  {
    assert "Doe, John" == "Doe" + [','] + " John";
    assert " John" == " " + "John" + "";
    CapitalizeExamples();
    ExtractFirstNameOfParts("Doe", " John", " ", "John", "");
  }

  // ---------------------------------------------------------------------
  // Parsing a line
  // ---------------------------------------------------------------------

  /** `try_parse_contact`: split the line at its first two delimiters; keep
      it when there are three fields, the first is not empty and the third
      is a valid email. The middle field is never looked at. */
  function TryParseContact(line: string, delimiter: char): (r: Option<Contact>)
    ensures Count(line, delimiter) < 2 ==> r == None
    ensures r.Some? ==> IsValidEmail(r.value.email) && NoSpace(r.value.name)
  {
    var fields := SplitN(line, delimiter, 2);
    if |fields| != 3 then None
    else
      var nameRaw, email := fields[0], fields[2];
      if nameRaw == [] then None
      else if !IsValidEmail(email) then None
      else
        ExtractFirstNameShape(nameRaw);
        Some(Contact(ExtractFirstName(nameRaw), email))
  }

  /** The outcome for every line with at least two delimiters, written as
      its first field, its middle field and everything after the second
      delimiter: a contact exactly when the first field is non-empty and the
      rest is a valid email, with the first name of the first field and that
      email verbatim. */
  lemma {:induction false} TryParseContactFields(name: string, middle: string, email: string, d: char)
    requires d !in name && d !in middle
    ensures TryParseContact(name + [d] + middle + [d] + email, d)
         == if name != [] && IsValidEmail(email) then Some(Contact(ExtractFirstName(name), email)) else None
  {
    var line := name + [d] + middle + [d] + email;
    assert line == name + [d] + (middle + [d] + email);
    SplitNAfterField(name, d, middle + [d] + email, 2);
    SplitNAfterField(middle, d, email, 1);
    assert SplitN(email, d, 0) == [email];
    assert SplitN(line, d, 2) == [name, middle, email];
  }

  /** Every line with at least two delimiters is such a decomposition. */
  lemma {:induction false} LineFields(line: string, d: char)
    requires Count(line, d) >= 2
    ensures var f := SplitN(line, d, 2);
            |f| == 3 && d !in f[0] && d !in f[1] && line == f[0] + [d] + f[1] + [d] + f[2]
  {
    var f := SplitN(line, d, 2);
    JoinSplitN(line, d, 2);
    assert f == [f[0], f[1], f[2]];
    JoinThree(d, f[0], f[1], f[2]);
  }

  /** A line with a third `;` is always rejected: the third field then
      holds a `;`, which no valid email does. */
  lemma ExtraDelimiterRejected(line: string)
    requires Count(line, ';') > 2
    ensures TryParseContact(line, ';') == None
  {
    LineFields(line, ';');
    var f := SplitN(line, ';', 2);
    CountAppend(f[0] + [';'] + f[1] + [';'], f[2], ';');
    CountAppend(f[0] + [';'] + f[1], [';'], ';');
    CountAppend(f[0] + [';'], f[1], ';');
    CountAppend(f[0], [';'], ';');
    if IsValidEmail(f[2]) {
      EmailCharset(f[2]);
    }
  }

  /** The first name of a parsed contact never holds the delimiter when the
      delimiter is not a letter, so `name;email` has exactly one `;`. */
  lemma ParsedNameHasNoDelimiter(line: string, d: char)
    requires TryParseContact(line, d).Some? && !IsAsciiLetter(d)
    ensures d !in TryParseContact(line, d).value.name
  {
    var f := SplitN(line, d, 2);
    var name := ExtractFirstName(f[0]);
    if d in name {
      var i :| 0 <= i < |name| && name[i] == d;
      ExtractFirstNameChars(f[0], i);
    }
  }

  /** The accepted row of the contact tests. */
  lemma TryParseContactExampleValid()
    ensures TryParseContact("Doe, John;;john.doe@example.com", ';') == Some(Contact("John", "john.doe@example.com"))
  {
    assert ';' !in "Doe, John";
    assert "Doe, John;;john.doe@example.com" == "Doe, John" + [';'] + "" + [';'] + "john.doe@example.com";
    EmailExampleJohn();
    ExtractFirstNameExampleJohn();
    TryParseContactFields("Doe, John", "", "john.doe@example.com", ';');
  }

  /** An empty line is rejected. */
  lemma TryParseContactExampleEmpty()
    ensures TryParseContact("", ';') == None
  {
  }

  /** A row whose third field is not an email is rejected. */
  lemma TryParseContactExampleBadEmail()
    ensures TryParseContact("Doe;;not-an-email", ';') == None
  {
    assert "Doe;;not-an-email" == "Doe" + [';'] + "" + [';'] + "not-an-email";
    assert '@' !in "not-an-email";
    TryParseContactFields("Doe", "", "not-an-email", ';');
  }

  /** A row with only two fields is rejected. */
  lemma TryParseContactExampleTwoFields()
    ensures TryParseContact("OnlyTwoFields;john.doe@example.com", ';') == None
  {
    var name, email := "OnlyTwoFields", "john.doe@example.com";
    TwoFieldsParts();
    SplitNAfterField(name, ';', email, 2);
    SplitNNoSep(email, ';', 1);
  }

  lemma TwoFieldsParts()
    ensures "OnlyTwoFields" + [';'] + "john.doe@example.com" == "OnlyTwoFields;john.doe@example.com"
    ensures ';' !in "OnlyTwoFields" && ';' !in "john.doe@example.com"
  {
  }

  /** A first field made only of blanks passes the non-empty check and
      yields a contact whose name is empty. */
  lemma BlankNameAccepted()
    ensures TryParseContact("   ;;a@b.co", ';') == Some(Contact("", "a@b.co"))
  {
    assert ';' !in "   ";
    assert "   ;;a@b.co" == "   " + [';'] + "" + [';'] + "a@b.co";
    EmailExampleShort();
    ExtractFirstNameExampleBlank();
    TryParseContactFields("   ", "", "a@b.co", ';');
  }

  lemma EmailExampleShort()
    ensures IsValidEmail("a@b.co")
  {
    assert EmailShapeAt("a@b.co", 1, 3);
  }
}
