/** The Python `str` operations the contact transformation relies on
    (`isspace`, `strip`, `split`, `join`, `lower`, `upper`, `rstrip`),
    restricted to ASCII: characters outside ASCII are never whitespace and
    have no case here. */
module Text {
  import opened Seqs

  /** `str.isspace` on ASCII: tab, line feed, vertical tab, form feed,
      carriage return, the four information separators and space. */
  predicate IsSpace(c: char) {
    9 <= c as int <= 13 || 28 <= c as int <= 32
  }

  /** True when `strip()` leaves nothing: every character is whitespace. */
  predicate IsBlank(s: string) {
    forall i :: 0 <= i < |s| ==> IsSpace(s[i])
  }

  predicate NoSpace(s: string) {
    forall i :: 0 <= i < |s| ==> !IsSpace(s[i])
  }

  predicate IsAsciiUpper(c: char) { 'A' <= c <= 'Z' }

  predicate IsAsciiLower(c: char) { 'a' <= c <= 'z' }

  predicate IsAsciiLetter(c: char) { IsAsciiUpper(c) || IsAsciiLower(c) }

  predicate IsAsciiDigit(c: char) { '0' <= c <= '9' }

  /** `str.lower` on one character. */
  function Lower(c: char): (r: char)
    ensures !IsAsciiUpper(r)
    ensures IsAsciiLetter(c) <==> IsAsciiLetter(r)
    ensures !IsAsciiLetter(c) ==> r == c
  {
    if IsAsciiUpper(c) then (c as int + 32) as char else c
  }

  /** `str.upper` on one character. */
  function Upper(c: char): (r: char)
    ensures !IsAsciiLower(r)
    ensures Lower(r) == Lower(c)
    ensures !IsAsciiLetter(c) ==> r == c
  {
    if IsAsciiLower(c) then (c as int - 32) as char else c
  }

  function LowerStr(s: string): (r: string)
    ensures |r| == |s|
    ensures forall i :: 0 <= i < |s| ==> r[i] == Lower(s[i])
  {
    seq(|s|, i requires 0 <= i < |s| => Lower(s[i]))
  }

  /** Number of occurrences of `c` in `s`. */
  function Count(s: string, c: char): (n: nat)
    ensures n <= |s|
    ensures n == 0 <==> c !in s
  {
    if s == [] then 0 else (if s[0] == c then 1 else 0) + Count(s[1..], c)
  }

  lemma {:induction false} CountAppend(a: string, b: string, c: char)
    ensures Count(a + b, c) == Count(a, c) + Count(b, c)
  {
    if a == [] {
      assert a + b == b;
    } else {
      assert (a + b)[1..] == a[1..] + b;
      CountAppend(a[1..], b, c);
    }
  }

  /** Index of the first `c` in `s`, or `|s|` when there is none
      (`str.find` with "not found" read as the length). */
  function FirstIndex(s: string, c: char): (r: nat)
    ensures r <= |s|
    ensures r < |s| ==> s[r] == c
    ensures forall k :: 0 <= k < r ==> s[k] != c
  {
    if s == [] then 0
    else if s[0] == c then 0
    else 1 + FirstIndex(s[1..], c)
  }

  /** Index of the last `c` in `s`, or `|s|` when there is none
      (`str.rfind` with "not found" read as the length). */
  function LastIndex(s: string, c: char): (r: nat)
    ensures r <= |s|
    ensures r == |s| <==> c !in s
    ensures r < |s| ==> s[r] == c && forall k :: r < k < |s| ==> s[k] != c
    decreases |s|
  {
    if s == [] then 0
    else if s[|s| - 1] == c then |s| - 1
    else
      var k := LastIndex(s[..|s| - 1], c);
      if k == |s| - 1 then |s| else k
  }

  /** The properties in `LastIndex`'s contract determine it. */
  lemma LastIndexUnique(s: string, c: char, r: nat)
    requires r < |s| && s[r] == c
    requires forall k :: r < k < |s| ==> s[k] != c
    ensures LastIndex(s, c) == r
  {
    var i := LastIndex(s, c);
    assert i < |s|;
    assert r <= i;
  }

  /** `str.lstrip()`: drop leading whitespace. */
  function LStrip(s: string): (r: string)
    ensures |r| <= |s| && r == s[|s| - |r|..]
    ensures IsBlank(s[..|s| - |r|])
    ensures r != [] ==> !IsSpace(r[0])
  {
    if s != [] && IsSpace(s[0]) then LStrip(s[1..]) else s
  }

  /** `str.rstrip()`: drop trailing whitespace. */
  function RStrip(s: string): (r: string)
    ensures |r| <= |s| && r == s[..|r|]
    ensures IsBlank(s[|r|..])
    ensures r != [] ==> !IsSpace(r[|r| - 1])
  {
    if s != [] && IsSpace(s[|s| - 1]) then
      var init := s[..|s| - 1];
      var r := RStrip(init);
      assert IsBlank(s[|r|..]) by {
        forall k | |r| <= k < |s| ensures IsSpace(s[k]) {
          if k < |s| - 1 {
            assert s[k] == init[|r|..][k - |r|];
          }
        }
      }
      r
    else s
  }

  /** `str.strip()`. */
  function Strip(s: string): string {
    RStrip(LStrip(s))
  }

  /** Python treats `s.strip()` as false exactly when `s` is blank. */
  lemma StripEmptyIffBlank(s: string)
    ensures Strip(s) == [] <==> IsBlank(s)
  {
    var l := LStrip(s);
    assert s == s[..|s| - |l|] + l;
    if Strip(s) == [] {
      assert IsBlank(l[|Strip(s)|..]);
      assert l[0..] == l;
    } else {
      var i := |s| - |l|;
      assert !IsSpace(s[i]);
    }
  }

  /** `LStrip` drops exactly a blank prefix that stands before a
      non-whitespace character or the end. */
  lemma {:induction false} LStripConcat(ws: string, u: string)
    requires IsBlank(ws)
    requires u != [] ==> !IsSpace(u[0])
    ensures LStrip(ws + u) == u
  {
    if ws == [] {
      assert ws + u == u;
    } else {
      assert (ws + u)[1..] == ws[1..] + u;
      LStripConcat(ws[1..], u);
    }
  }

  /** The longest prefix of `s` without whitespace. */
  function TakeWord(s: string): (r: string)
    ensures |r| <= |s| && r == s[..|r|]
    ensures NoSpace(r)
    ensures |r| < |s| ==> IsSpace(s[|r|])
  {
    if s != [] && !IsSpace(s[0]) then [s[0]] + TakeWord(s[1..]) else []
  }

  /** `TakeWord` takes exactly a whitespace-free prefix that stands before a
      whitespace character or the end. */
  lemma {:induction false} TakeWordConcat(w: string, rest: string)
    requires NoSpace(w)
    requires rest != [] ==> IsSpace(rest[0])
    ensures TakeWord(w + rest) == w
  {
    if w == [] {
      assert w + rest == rest;
    } else {
      assert (w + rest)[1..] == w[1..] + rest;
      TakeWordConcat(w[1..], rest);
    }
  }

  /** `str.split()` with no separator: the maximal runs of non-whitespace,
      in order. */
  function Words(s: string): (r: seq<string>)
    ensures forall k :: 0 <= k < |r| ==> r[k] != [] && NoSpace(r[k])
    decreases |s|
  {
    var t := LStrip(s);
    if t == [] then []
    else
      var w := TakeWord(t);
      assert w != [] by {
        assert !IsSpace(t[0]);
      }
      var rest := Words(t[|w|..]);
      var r := [w] + rest;
      assert forall k :: 0 <= k < |r| ==> r[k] != [] && NoSpace(r[k]) by {
        forall k | 0 <= k < |r| ensures r[k] != [] && NoSpace(r[k]) {
          if k == 0 {
            assert r[k] == w;
          } else {
            assert r[k] == rest[k - 1];
            assert rest[k - 1] != [] && NoSpace(rest[k - 1]);
          }
        }
      }
      r
  }

  /** Dropping trailing whitespace after a word does not change the word. */
  lemma {:induction false} TakeWordOfPrefix(t: string, u: string)
    requires |t| <= |u| && t == u[..|t|]
    requires IsBlank(u[|t|..])
    requires t != [] ==> !IsSpace(t[|t| - 1])
    ensures TakeWord(t) == TakeWord(u)
  {
    if t == [] {
      if u != [] {
        assert IsSpace(u[|t|..][0]);
      }
    } else if IsSpace(t[0]) {
    } else {
      assert u[1..][|t| - 1..] == u[|t|..];
      TakeWordOfPrefix(t[1..], u[1..]);
    }
  }

  lemma LStripEmptyIffBlank(s: string)
    ensures LStrip(s) == [] <==> IsBlank(s)
  {
    var u := LStrip(s);
    assert s == s[..|s| - |u|] + u;
    if u != [] {
      assert !IsSpace(s[|s| - |u|]);
    }
  }

  /** A string that starts with a non-whitespace character has that
      character's word as its first `str.split()` word. */
  lemma WordsHead(t: string)
    requires t != [] && !IsSpace(t[0])
    ensures Words(t) != [] && Words(t)[0] == TakeWord(t)
  {
    assert LStrip(t) == t;
  }

  /** The first word `str.split()` finds after `str.strip()` is the word that
      starts at the first non-whitespace character; there is none exactly
      when the string is blank. */
  lemma StripThenWords(s: string)
    ensures Words(Strip(s)) == [] <==> IsBlank(s)
    ensures TakeWord(LStrip(s)) == [] <==> IsBlank(s)
    ensures TakeWord(LStrip(s)) == if Words(Strip(s)) != [] then Words(Strip(s))[0] else []
  {
    StripEmptyIffBlank(s);
    LStripEmptyIffBlank(s);
    var u := LStrip(s);
    var t := Strip(s);
    if t != [] {
      WordsHead(t);
      TakeWordOfPrefix(t, u);
    } else {
      assert Words(t) == [];
    }
  }

  /** `str.split(sep, maxsplit)` for a one-character separator; a negative
      `maxsplit` splits at every separator, as Python's default `-1` does. */
  function SplitN(s: string, sep: char, maxsplit: int): (r: seq<string>)
    ensures |r| >= 1
    ensures |r| == 1 + (if 0 <= maxsplit < Count(s, sep) then maxsplit else Count(s, sep))
    ensures forall k :: 0 <= k < |r| - 1 ==> sep !in r[k]
    ensures (maxsplit < 0 || Count(s, sep) <= maxsplit) ==> sep !in r[|r| - 1]
    decreases |s|
  {
    if s == [] || maxsplit == 0 then [s]
    else if s[0] == sep then [[]] + SplitN(s[1..], sep, maxsplit - 1)
    else
      var rest := SplitN(s[1..], sep, maxsplit);
      [[s[0]] + rest[0]] + rest[1..]
  }

  /** `str.split(sep)`. */
  function Split(s: string, sep: char): seq<string> {
    SplitN(s, sep, -1)
  }

  /** `sep.join(parts)`. */
  function Join(sep: char, parts: seq<string>): string
  {
    if parts == [] then []
    else if |parts| == 1 then parts[0]
    else parts[0] + [sep] + Join(sep, parts[1..])
  }

  /** Joining three fields puts one separator between each two. */
  lemma JoinThree(sep: char, a: string, b: string, c: string)
    ensures Join(sep, [a, b, c]) == a + [sep] + b + [sep] + c
  {
    assert [a, b, c][1..] == [b, c];
    assert [b, c][1..] == [c];
    assert Join(sep, [b, c]) == b + [sep] + c;
    assert Join(sep, [a, b, c]) == a + [sep] + (b + [sep] + c);
  }

  lemma JoinEmptyFirst(sep: char, parts: seq<string>)
    requires parts != []
    ensures Join(sep, [[]] + parts) == [sep] + Join(sep, parts)
  {
    assert ([[]] + parts)[1..] == parts;
  }

  lemma JoinPrepend(sep: char, c: char, parts: seq<string>)
    requires parts != []
    ensures Join(sep, [[c] + parts[0]] + parts[1..]) == [c] + Join(sep, parts)
  {
    var r := [[c] + parts[0]] + parts[1..];
    if |parts| > 1 {
      assert r[1..] == parts[1..];
      assert Join(sep, r) == ([c] + parts[0]) + [sep] + Join(sep, parts[1..]);
    }
  }

  /** Joining the fields of a split gives back the string that was split. */
  lemma {:induction false} JoinSplitN(s: string, sep: char, maxsplit: int)
    ensures Join(sep, SplitN(s, sep, maxsplit)) == s
    decreases |s|
  {
    if s == [] || maxsplit == 0 {
    } else if s[0] == sep {
      JoinSplitN(s[1..], sep, maxsplit - 1);
      JoinEmptyFirst(sep, SplitN(s[1..], sep, maxsplit - 1));
      HeadTail(s);
    } else {
      JoinSplitN(s[1..], sep, maxsplit);
      JoinPrepend(sep, s[0], SplitN(s[1..], sep, maxsplit));
      HeadTail(s);
    }
  }

  /** Splitting at a separator preceded by a separator-free field yields that
      field first, and the split of the rest after it. */
  lemma {:induction false} SplitNAfterField(p: string, sep: char, t: string, maxsplit: int)
    requires sep !in p && maxsplit != 0
    ensures SplitN(p + [sep] + t, sep, maxsplit) == [p] + SplitN(t, sep, maxsplit - 1)
    decreases |p|
  {
    var s := p + [sep] + t;
    AppendAssoc(p, [sep], t);
    if p == [] {
      AppendNil([sep] + t);
      ConsTail(sep, t);
    } else {
      TailOfAppend(p, [sep] + t);
      AppendAssoc(p[1..], [sep], t);
      SplitNAfterField(p[1..], sep, t, maxsplit);
      var rest := SplitN(s[1..], sep, maxsplit);
      ConsTail(p[1..], SplitN(t, sep, maxsplit - 1));
      HeadTail(p);
    }
  }

  /** A string without the separator splits into itself alone. */
  lemma {:induction false} SplitNNoSep(p: string, sep: char, maxsplit: int)
    requires sep !in p
    ensures SplitN(p, sep, maxsplit) == [p]
    decreases |p|
  {
    if p != [] && maxsplit != 0 {
      SplitNNoSep(p[1..], sep, maxsplit);
      assert [p[0]] + p[1..] == p;
    }
  }

  /** Splitting a join of separator-free parts, with no limit on the number
      of splits, gives back the parts. */
  lemma {:induction false} SplitNJoin(sep: char, parts: seq<string>, maxsplit: int)
    requires parts != [] && maxsplit < 0
    requires forall k :: 0 <= k < |parts| ==> sep !in parts[k]
    ensures SplitN(Join(sep, parts), sep, maxsplit) == parts
  {
    if |parts| == 1 {
      SplitNNoSep(parts[0], sep, maxsplit);
    } else {
      SplitNJoin(sep, parts[1..], maxsplit - 1);
      SplitNAfterField(parts[0], sep, Join(sep, parts[1..]), maxsplit);
      assert [parts[0]] + parts[1..] == parts;
    }
  }

  /** A join of separator-free parts holds one separator fewer than there
      are parts. */
  lemma {:induction false} CountJoin(sep: char, parts: seq<string>)
    requires parts != []
    requires forall k :: 0 <= k < |parts| ==> sep !in parts[k]
    ensures Count(Join(sep, parts), sep) == |parts| - 1
  {
    if |parts| > 1 {
      CountJoin(sep, parts[1..]);
      CountAppend(parts[0] + [sep], Join(sep, parts[1..]), sep);
      CountAppend(parts[0], [sep], sep);
    }
  }

  /** Splitting a join of separator-free parts gives back the parts, and the
      joined string holds exactly one separator fewer than there are parts. */
  lemma SplitJoin(sep: char, parts: seq<string>)
    requires parts != []
    requires forall k :: 0 <= k < |parts| ==> sep !in parts[k]
    ensures Split(Join(sep, parts), sep) == parts
    ensures Count(Join(sep, parts), sep) == |parts| - 1
  {
    SplitNJoin(sep, parts, -1);
    CountJoin(sep, parts);
  }

  /** `s.split(sep, 1)`: the text before the first separator and the text
      after it, or `s` alone when there is no separator. */
  lemma SplitOnce(s: string, sep: char)
    ensures var i := FirstIndex(s, sep);
            SplitN(s, sep, 1) == if i < |s| then [s[..i], s[i + 1..]] else [s]
  {
    var i := FirstIndex(s, sep);
    if i < |s| {
      assert sep !in s[..i];
      SplitAround(s, i);
      SplitNAfterField(s[..i], sep, s[i + 1..], 1);
    } else {
      SplitNNoSep(s, sep, 1);
    }
  }

  /** `s.rstrip(chars)`: drop trailing characters that belong to `chars`. */
  function RStripChars(s: string, chars: set<char>): (r: string)
    ensures |r| <= |s| && r == s[..|r|]
    ensures forall k :: |r| <= k < |s| ==> s[k] in chars
    ensures r != [] ==> r[|r| - 1] !in chars
  {
    if s != [] && s[|s| - 1] in chars then RStripChars(s[..|s| - 1], chars) else s
  }
}
