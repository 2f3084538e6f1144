/** The part of `pathlib` the pipeline relies on: the final suffix of a
    path (`PurePath.suffix`), its lower-cased form, and `with_suffix`, which
    gives the output path of `process_file` (src/bday/pipeline.py). */
module Paths {
  import opened Wrappers
  import opened Seqs
  import opened Text

  /** A path as `pathlib` sees it: the directories in front, carried along
      unchanged, and the final component `name` (`PurePath.name`). */
  datatype Path = Path(parent: string, name: string)

  /** `PurePath.suffix`: the final component from its last dot on, when
      that dot is neither its first nor its last character; empty
      otherwise. A non-empty suffix is a dot followed by at least one
      character and no further dot, and something stands before it. */
  function Suffix(name: string): (r: string)
    ensures |r| <= |name| && r == name[|name| - |r|..]
    ensures r != [] ==> |r| >= 2 && r[0] == '.' && '.' !in r[1..] && |r| < |name|
  {
    var i := LastIndex(name, '.');
    if 0 < i < |name| - 1 then name[i..] else []
  }

  /** A dot with text on both sides and none after it starts the suffix. */
  lemma SuffixOfParts(stem: string, ext: string)
    requires stem != [] && ext != [] && '.' !in ext
    ensures Suffix(stem + ['.'] + ext) == ['.'] + ext
  {
    var name := stem + ['.'] + ext;
    forall k | |stem| < k < |name| ensures name[k] != '.' {
      assert name[k] == ext[k - |stem| - 1];
    }
    LastIndexUnique(name, '.', |stem|);
    assert name[|stem|..] == ['.'] + ext;
  }

  /** `PurePath.stem`: the final component without its suffix. */
  function Stem(name: string): (r: string)
    ensures r + Suffix(name) == name
    ensures name != [] ==> r != []
  {
    name[..|name| - |Suffix(name)|]
  }

  /** `path.suffix.lower()`. */
  function LowerSuffix(p: Path): string {
    LowerStr(Suffix(p.name))
  }

  /** Lower-casing keeps every dot where it is, so the suffix of the
      lower-cased name is the lower-cased suffix. */
  lemma SuffixLower(name: string)
    ensures Suffix(LowerStr(name)) == LowerStr(Suffix(name))
  {
    var low := LowerStr(name);
    var i := LastIndex(name, '.');
    forall k | 0 <= k < |name| ensures low[k] == '.' <==> name[k] == '.' {
      assert low[k] == Lower(name[k]);
    }
    if i < |name| {
      LastIndexUnique(low, '.', i);
      assert low[i..] == LowerStr(name[i..]);
    } else {
      assert '.' !in low;
      assert LastIndex(low, '.') == |low|;
    }
  }

  /** `PurePath.with_suffix(suffix)`: a suffix holding a `/`, or one that
      does not start with a dot, or a lone dot, is invalid; a path with an
      empty name has no suffix to replace; otherwise the suffix of the name
      is replaced by (or, when there is none, extended with) `suffix`. */
  function WithSuffix(p: Path, suffix: string): (r: Result<Path, Error>)
    ensures r.Failure? <==> '/' in suffix || (suffix != [] && suffix[0] != '.') || suffix == "." || p.name == []
    ensures r.Success? ==> r.value.parent == p.parent && r.value.name == Stem(p.name) + suffix
  {
    if '/' in suffix || (suffix != [] && suffix[0] != '.') || suffix == "." then
      Failure(ValueError("Invalid suffix"))
    else if p.name == [] then
      Failure(ValueError("path has an empty name"))
    else
      var oldSuffix := Suffix(p.name);
      var name := if oldSuffix == [] then p.name + suffix else p.name[..|p.name| - |oldSuffix|] + suffix;
      Success(Path(p.parent, name))
  }

  const OUTPUT_SUFFIX: string := ".parsed.csv"

  /** `path.with_suffix(".parsed.csv")`, the file `process_file` writes. */
  function OutputPath(p: Path): Result<Path, Error> {
    WithSuffix(p, OUTPUT_SUFFIX)
  }

  /** The output path exists exactly for a non-empty name; it sits in the
      same directory, keeps the stem, ends in `.parsed.csv` and has the
      suffix `.csv` whatever the input's suffix was. */
  lemma OutputPathSuffix(p: Path)
    ensures OutputPath(p).Success? <==> p.name != []
    ensures OutputPath(p).Success? ==>
              var out := OutputPath(p).value;
              && out.parent == p.parent
              && out.name == Stem(p.name) + ".parsed.csv"
              && Suffix(out.name) == ".csv"
              && LowerSuffix(out) == ".csv"
  {
    OutputSuffixValid();
    if p.name != [] {
      var out := OutputPath(p).value;
      assert out.name == Stem(p.name) + OUTPUT_SUFFIX;
      OutputSuffixAfter(Stem(p.name));
      LowerCsv();
    }
  }

  lemma OutputSuffixValid()
    ensures '/' !in OUTPUT_SUFFIX && OUTPUT_SUFFIX != [] && OUTPUT_SUFFIX[0] == '.' && OUTPUT_SUFFIX != "."
    ensures OUTPUT_SUFFIX == ".parsed.csv"
  {
  }

  /** The output path is never the input path: the input's suffix holds
      one dot, `.parsed.csv` two. */
  lemma OutputPathDiffers(p: Path)
    requires OutputPath(p).Success?
    ensures OutputPath(p).value != p
  {
    var out := OutputPath(p).value;
    var stem := Stem(p.name);
    assert '.' in OUTPUT_SUFFIX[1..] by {
      assert OUTPUT_SUFFIX[1..][6] == '.';
    }
    assert Suffix(p.name) != OUTPUT_SUFFIX;
    assert out.name[|stem|..] == OUTPUT_SUFFIX;
    assert p.name[|stem|..] == Suffix(p.name);
  }

  lemma OutputSuffixAfter(stem: string)
    requires stem != []
    ensures Suffix(stem + OUTPUT_SUFFIX) == ".csv"
  {
    OutputSuffixParts();
    AppendAssoc(stem, ".parsed", ['.'] + "csv");
    AppendAssoc(stem + ".parsed", ['.'], "csv");
    SuffixOfParts(stem + ".parsed", "csv");
  }

  lemma OutputSuffixParts()
    ensures OUTPUT_SUFFIX == ".parsed" + (['.'] + "csv")
    ensures ['.'] + "csv" == ".csv"
  {
  }

  lemma LowerCsv()
    ensures LowerStr(".csv") == ".csv"
  {
    var s := ".csv";
    assert forall k :: 0 <= k < |s| ==> Lower(s[k]) == s[k];
  }

  /** A name `stem.ext` gives `stem.parsed.csv`. */
  lemma OutputPathOfParts(parent: string, stem: string, ext: string)
    requires stem != [] && ext != [] && '.' !in ext
    ensures OutputPath(Path(parent, stem + ['.'] + ext)) == Success(Path(parent, stem + OUTPUT_SUFFIX))
  {
    OutputSuffixValid();
    SuffixOfParts(stem, ext);
    var name := stem + ['.'] + ext;
    assert Stem(name) == stem by {
      assert |name| - |['.'] + ext| == |stem|;
      assert name[..|stem|] == stem;
    }
  }

  /** `input.csv` becomes `input.parsed.csv`, as the command-line tests
      expect. */
  lemma OutputPathExampleCsv()
    ensures OutputPath(Path("", "input.csv")) == Success(Path("", "input.parsed.csv"))
  {
    assert "input.csv" == "input" + ['.'] + "csv";
    assert "input.parsed.csv" == "input" + OUTPUT_SUFFIX;
    OutputPathOfParts("", "input", "csv");
  }

  /** A spreadsheet's output is a CSV file beside it. */
  lemma OutputPathExampleXlsx()
    ensures OutputPath(Path("data/", "contacts.xlsx")) == Success(Path("data/", "contacts.parsed.csv"))
  {
    assert "contacts.xlsx" == "contacts" + ['.'] + "xlsx";
    assert "contacts.parsed.csv" == "contacts" + OUTPUT_SUFFIX;
    OutputPathOfParts("data/", "contacts", "xlsx");
  }

  /** A name without a suffix is extended. */
  lemma OutputPathExampleNoSuffix()
    ensures OutputPath(Path("", "contacts")) == Success(Path("", "contacts.parsed.csv"))
  {
    assert '.' !in "contacts";
    assert LastIndex("contacts", '.') == |"contacts"|;
    assert Suffix("contacts") == [];
    assert "contacts.parsed.csv" == "contacts" + OUTPUT_SUFFIX;
  }
}
