/** The two line parsers of the package's setup.py: the version scan of
    `get_version` and the requirement list of `parse_requirements_file`,
    both over the lines of a file whose reading is left out; and the
    optional dependency groups `EXTRAS`. */
module Setup {
  import opened Base
  import opened Text

  const VersionPrefix: string := "__version__"
  const VersionNotFound: string := "Unable to find version string."

  /** `'"' if '"' in line else "'"` */
  function VersionDelimiter(line: string): (c: char)
    ensures c == '"' <==> '"' in line
    ensures c != '"' ==> c == '\''
  {
    if '"' in line then '"' else '\''
  }

  /** `line.split(delim)[1]`: `IndexError` when the line holds no quote of
      either kind. */
  function VersionFromLine(line: string): (r: Result<string>)
    ensures r.Failure? <==> '"' !in line && '\'' !in line
    ensures r.Failure? ==> r.error == IndexError
    ensures r.Success? ==> VersionDelimiter(line) !in r.value
  {
    match SecondField(line, VersionDelimiter(line))
    case None => Failure(IndexError)
    case Some(v) => Success(v)
  }

  /** The version the first line starting with `__version__` gives;
      `RuntimeError` when there is none. */
  function VersionOf(lines: seq<string>): Result<string>
  {
    if lines == [] then Failure(RuntimeError(VersionNotFound))
    else if StartsWith(lines[0], VersionPrefix) then VersionFromLine(lines[0])
    else VersionOf(lines[1..])
  }

  /** The `for`/`else` scan with its early return. */
  method GetVersion(lines: seq<string>) returns (r: Result<string>)
    ensures r == VersionOf(lines)
  {
    for i := 0 to |lines|
      invariant VersionOf(lines[i..]) == VersionOf(lines)
    {
      if StartsWith(lines[i], VersionPrefix) {
        return VersionFromLine(lines[i]);
      }
      assert lines[i..][1..] == lines[i + 1..];
    }
    assert lines[|lines|..] == [];
    return Failure(RuntimeError(VersionNotFound));
  }

  /** Only the first matching line counts. */
  lemma {:induction false} FirstVersionLineDecides(lines: seq<string>, i: nat)
    requires i < |lines| && StartsWith(lines[i], VersionPrefix)
    requires forall j :: 0 <= j < i ==> !StartsWith(lines[j], VersionPrefix)
    ensures VersionOf(lines) == VersionFromLine(lines[i])
  {
    if i > 0 {
      FirstVersionLineDecides(lines[1..], i - 1);
    }
  }

  /** The scan fails with `RuntimeError` exactly when no line starts with
      `__version__`. */
  lemma {:induction false} VersionNotFoundIff(lines: seq<string>)
    ensures VersionOf(lines) == Failure(RuntimeError(VersionNotFound))
        <==> forall i :: 0 <= i < |lines| ==> !StartsWith(lines[i], VersionPrefix)
  {
    if lines != [] {
      VersionNotFoundIff(lines[1..]);
      assert forall i :: 1 <= i < |lines| ==> lines[i] == lines[1..][i - 1];
    }
  }

  /** Lines after a matching line are never looked at. */
  lemma {:induction false} LaterLinesIgnored(lines: seq<string>, more: seq<string>, i: nat)
    requires i < |lines| && StartsWith(lines[i], VersionPrefix)
    ensures VersionOf(lines + more) == VersionOf(lines)
  {
    if !StartsWith(lines[0], VersionPrefix) {
      assert (lines + more)[1..] == lines[1..] + more;
      LaterLinesIgnored(lines[1..], more, i - 1);
    }
  }

  lemma {:induction false} IndexOfAt(s: string, c: char, k: nat)
    requires k < |s| && s[k] == c && c !in s[..k]
    ensures IndexOf(s, c) == k
  {
    if k > 0 {
      assert s[1..][..k - 1] == s[..k][1..];
      IndexOfAt(s[1..], c, k - 1);
    }
  }

  /** The text between the first two occurrences of a quote that the prefix
      does not hold and that the version does not hold. */
  lemma QuotedField(prefix: string, v: string, q: char)
    requires q !in prefix && q !in v
    ensures SecondField(prefix + [q] + v + [q], q) == Some(v)
  {
    var s := prefix + [q] + v + [q];
    assert s[|prefix|] == q && s[..|prefix|] == prefix;
    IndexOfAt(s, q, |prefix|);
    var rest := s[|prefix| + 1..];
    assert rest == v + [q];
    assert rest[|v|] == q && rest[..|v|] == v;
    IndexOfAt(rest, q, |v|);
  }

  /** `__version__ = "v"` gives `v`. */
  lemma DoubleQuotedVersion(v: string)
    requires '"' !in v
    ensures VersionOf([VersionPrefix + " = \"" + v + "\""]) == Success(v)
  {
    var line := VersionPrefix + " = \"" + v + "\"";
    assert line == (VersionPrefix + " = ") + ['"'] + v + ['"'];
    assert line[..|VersionPrefix|] == VersionPrefix;
    assert '"' in line by { assert line[|VersionPrefix| + 3] == '"'; }
    QuotedField(VersionPrefix + " = ", v, '"');
  }

  /** `__version__ = 'v'` gives `v` when the version holds no quote. */
  lemma SingleQuotedVersion(v: string)
    requires '"' !in v && '\'' !in v
    ensures VersionOf([VersionPrefix + " = '" + v + "'"]) == Success(v)
  {
    var line := VersionPrefix + " = '" + v + "'";
    assert line == (VersionPrefix + " = ") + ['\''] + v + ['\''];
    assert line[..|VersionPrefix|] == VersionPrefix;
    assert '"' !in (VersionPrefix + " = ");
    assert '"' !in line;
    QuotedField(VersionPrefix + " = ", v, '\'');
  }

  /** `[f(l) for l in lines if l]`: the emptiness test comes before `f`. */
  function MapNonEmpty(f: string -> string, lines: seq<string>): seq<string>
  {
    if lines == [] then []
    else (if lines[0] != "" then [f(lines[0])] else []) + MapNonEmpty(f, lines[1..])
  }

  /** `[l.strip() for l in lines if l]`: the emptiness test comes before
      stripping, so a line of blanks gives an empty requirement. */
  function ParseRequirements(lines: seq<string>): seq<string>
  {
    MapNonEmpty(Strip, lines)
  }

  lemma {:induction false} MapNonEmptyConcat(f: string -> string, a: seq<string>, b: seq<string>)
    ensures MapNonEmpty(f, a + b) == MapNonEmpty(f, a) + MapNonEmpty(f, b)
  {
    if a == [] {
      assert a + b == b;
    } else {
      var head := if a[0] != "" then [f(a[0])] else [];
      assert (a + b)[0] == a[0] && (a + b)[1..] == a[1..] + b;
      assert MapNonEmpty(f, a + b) == head + MapNonEmpty(f, a[1..] + b);
      MapNonEmptyConcat(f, a[1..], b);
      AppendAssoc(head, MapNonEmpty(f, a[1..]), MapNonEmpty(f, b));
    }
  }

  lemma {:induction false} MapNonEmptyPerLine(f: string -> string, lines: seq<string>)
    requires forall i :: 0 <= i < |lines| ==> lines[i] != ""
    ensures |MapNonEmpty(f, lines)| == |lines|
    ensures forall i :: 0 <= i < |lines| ==> MapNonEmpty(f, lines)[i] == f(lines[i])
  {
    if lines != [] {
      MapNonEmptyPerLine(f, lines[1..]);
    }
  }

  lemma {:induction false} MapNonEmptyLength(f: string -> string, lines: seq<string>)
    ensures |MapNonEmpty(f, lines)| == |lines| - Count(lines, "")
  {
    if lines != [] {
      MapNonEmptyLength(f, lines[1..]);
    }
  }

  /** Every element of the result is an image under `f`, so it has every
      property all images have. */
  lemma {:induction false} MapNonEmptyImages(f: string -> string, p: string -> bool, lines: seq<string>)
    requires forall l :: p(f(l))
    ensures forall i :: 0 <= i < |MapNonEmpty(f, lines)| ==> p(MapNonEmpty(f, lines)[i])
  {
    if lines != [] {
      MapNonEmptyImages(f, p, lines[1..]);
    }
  }

  /** The file's lines can be parsed in pieces. */
  lemma ParseRequirementsConcat(a: seq<string>, b: seq<string>)
    ensures ParseRequirements(a + b) == ParseRequirements(a) + ParseRequirements(b)
  {
    MapNonEmptyConcat(Strip, a, b);
  }

  /** When no line is empty (as `readlines` never yields an empty line),
      there is one requirement per line, in order, each the stripped line. */
  lemma ParseRequirementsPerLine(lines: seq<string>)
    requires forall i :: 0 <= i < |lines| ==> lines[i] != ""
    ensures |ParseRequirements(lines)| == |lines|
    ensures forall i :: 0 <= i < |lines| ==> ParseRequirements(lines)[i] == Strip(lines[i])
  {
    MapNonEmptyPerLine(Strip, lines);
  }

  /** As many entries are dropped as there are empty lines. */
  lemma ParseRequirementsDropsEmpty(lines: seq<string>)
    ensures |ParseRequirements(lines)| == |lines| - Count(lines, "")
  {
    MapNonEmptyLength(Strip, lines);
  }

  function Count(lines: seq<string>, x: string): (n: nat)
    ensures n <= |lines|
  {
    if lines == [] then 0 else (if lines[0] == x then 1 else 0) + Count(lines[1..], x)
  }

  /** A line holding only blanks and a line break gives "". */
  lemma BlankLineGivesEmpty(line: string)
    requires line != "" && AllSpace(line)
    ensures ParseRequirements([line]) == [""]
  {
    StripSpaces(line);
    assert [line][0] == line && [line][1..] == [];
    assert ParseRequirements([line]) == [Strip(line)] + MapNonEmpty(Strip, []);
  }

  /** No requirement starts or ends with white space. */
  lemma RequirementsAreStripped(lines: seq<string>)
    ensures forall i :: 0 <= i < |ParseRequirements(lines)| ==> Stripped(ParseRequirements(lines)[i])
  {
    assert forall l :: Stripped(Strip(l));
    MapNonEmptyImages(Strip, Stripped, lines);
  }

  const RequirementsExtra: seq<string> := ["scikit-image", "fsspec"]
  const RequirementsGoogle: seq<string> := ["fsspec", "google-cloud-storage", "earthengine-api"]
  const RequirementsTorch: seq<string> := ["torch", "torchvision"]
  const RequirementsPlanetaryComputer: seq<string> := ["fsspec", "pystac-client", "planetary-computer"]
  const RequirementsProbav: seq<string> := ["h5py", "requests", "tqdm", "lxml"]
  const RequirementsScihub: seq<string> := ["sentinelsat"]

  /** `EXTRAS["all"]`: the six lists one after the other. */
  const AllRequirements: seq<string> :=
    RequirementsExtra + RequirementsGoogle + RequirementsTorch
    + RequirementsPlanetaryComputer + RequirementsProbav + RequirementsScihub

  /** The optional dependency groups. */
  function Extras(): (m: map<string, seq<string>>)
    ensures "all" in m && m["all"] == AllRequirements
  {
    map[
      "all" := AllRequirements,
      "google" := RequirementsGoogle,
      "torch" := RequirementsTorch,
      "planetary_computer" := RequirementsPlanetaryComputer,
      "probav" := RequirementsProbav,
      "scihub" := RequirementsScihub,
      "tests" := ["pytest"],
      "docs" := []
    ]
  }

  /** "all" holds every requirement of every optional group, in the order
      of the groups, and not the test-only one. */
  lemma AllCoversGroups()
    ensures forall p :: p in RequirementsExtra ==> p in AllRequirements
    ensures forall p :: p in RequirementsGoogle ==> p in AllRequirements
    ensures forall p :: p in RequirementsTorch ==> p in AllRequirements
    ensures forall p :: p in RequirementsPlanetaryComputer ==> p in AllRequirements
    ensures forall p :: p in RequirementsProbav ==> p in AllRequirements
    ensures forall p :: p in RequirementsScihub ==> p in AllRequirements
    ensures AllRequirements[2..5] == RequirementsGoogle
    ensures |AllRequirements| == 15
  {
  }

  /** Duplicates are kept: "fsspec" is listed three times. */
  lemma AllKeepsDuplicates()
    ensures AllRequirements[1] == AllRequirements[2] == AllRequirements[7] == "fsspec"
  {
  }
}
