/** CRS identifiers are compared as strings after a syntactic
    normalisation: the legacy `+init=` marker is removed, then the text is
    lower-cased (`_normalize_crs` and `compare_crs` in georeader/read.py). */
module Crs {
  import opened Text

  const LegacyMarker: string := "+init="

  /** `_normalize_crs`: drop every legacy marker, if there is one, then
      lower-case. The result is shorter exactly when a marker was dropped,
      and holds no upper-case letter. */
  function NormalizeCrs(crs: string): (r: string)
    ensures |r| <= |crs| && (|r| < |crs| <==> Contains(crs, LegacyMarker))
    ensures forall i :: 0 <= i < |r| ==> !IsUpper(r[i])
  {
    var stripped := if Contains(crs, LegacyMarker) then ReplaceAll(crs, LegacyMarker, "") else crs;
    RemoveShrinks(crs, LegacyMarker);
    LowerIdempotent(stripped);
    Lower(stripped)
  }

  /** `compare_crs`: equality of the normalised identifiers. */
  predicate CompareCrs(a: string, b: string)
  {
    NormalizeCrs(a) == NormalizeCrs(b)
  }

  /** The `in` guard in front of `replace` is redundant: normalisation is
      "remove every marker, then lower-case" for every identifier. */
  lemma NormalizeRemovesThenLowers(crs: string)
    ensures NormalizeCrs(crs) == Lower(ReplaceAll(crs, LegacyMarker, ""))
  {
    if !Contains(crs, LegacyMarker) {
      ReplaceAbsent(crs, LegacyMarker, "");
    }
  }

  /** Two identifiers compare equal exactly when their marker-free,
      lower-cased forms are equal. */
  lemma CompareCrsIff(a: string, b: string)
    ensures CompareCrs(a, b) <==>
      Lower(ReplaceAll(a, LegacyMarker, "")) == Lower(ReplaceAll(b, LegacyMarker, ""))
  {
    NormalizeRemovesThenLowers(a);
    NormalizeRemovesThenLowers(b);
  }

  /** The comparison is an equivalence relation. */
  lemma CompareCrsIsEquivalence(a: string, b: string, c: string)
    ensures CompareCrs(a, a)
    ensures CompareCrs(a, b) ==> CompareCrs(b, a)
    ensures CompareCrs(a, b) && CompareCrs(b, c) ==> CompareCrs(a, c)
  {
  }

  /** A leading legacy marker is ignored. */
  lemma LegacyPrefixIgnored(crs: string)
    ensures CompareCrs(LegacyMarker + crs, crs)
  {
    var s := LegacyMarker + crs;
    assert s[..|LegacyMarker|] == LegacyMarker;
    assert s[|LegacyMarker|..] == crs;
    assert ReplaceAll(s, LegacyMarker, "") == ReplaceAll(crs, LegacyMarker, "");
    NormalizeRemovesThenLowers(s);
    NormalizeRemovesThenLowers(crs);
  }

  /** For identifiers that hold no legacy marker in any letter case, the
      comparison is exactly case-insensitive equality. */
  lemma CaseInsensitiveWithoutMarker(a: string, b: string)
    requires !Contains(Lower(a), LegacyMarker) && !Contains(Lower(b), LegacyMarker)
    ensures CompareCrs(a, b) <==> Lower(a) == Lower(b)
  {
    assert Lower(LegacyMarker) == LegacyMarker;
    if Contains(a, LegacyMarker) {
      ContainsLower(a, LegacyMarker);
    }
    if Contains(b, LegacyMarker) {
      ContainsLower(b, LegacyMarker);
    }
  }

  const UpperMarker: string := "+INIT="

  /** The marker is matched case-sensitively before lower-casing: an
      upper-case marker survives normalisation as a lower-case one, so the
      identifier no longer compares equal to the same name without it. */
  lemma UpperCaseMarkerIsKept(name: string)
    requires '+' !in name
    ensures NormalizeCrs(UpperMarker + name) == LegacyMarker + Lower(name)
    ensures !CompareCrs(UpperMarker + name, name)
  {
    var s := UpperMarker + name;
    assert !StartsWith(s, LegacyMarker) by { assert s[1] != LegacyMarker[1]; }
    assert s[1..] == UpperMarker[1..] + name;
    assert '+' !in s[1..];
    NoPlus(s[1..]);
    NoPlus(name);
    assert Lower(s) == Lower(UpperMarker) + Lower(name);
    assert Lower(UpperMarker) == LegacyMarker;
  }

  /** Normalisation is not idempotent: the marker that survives the first
      pass in lower case is removed by a second one. */
  lemma NormalizeNotIdempotent(name: string)
    requires '+' !in name
    ensures NormalizeCrs(NormalizeCrs(UpperMarker + name)) == Lower(name)
    ensures NormalizeCrs(NormalizeCrs(UpperMarker + name)) != NormalizeCrs(UpperMarker + name)
  {
    var once := NormalizeCrs(UpperMarker + name);
    UpperCaseMarkerIsKept(name);
    assert once == LegacyMarker + Lower(name);
    LegacyPrefixIgnored(Lower(name));
    assert forall i :: 0 <= i < |name| ==> Lower(name)[i] != '+';
    assert '+' !in Lower(name);
    NoPlus(Lower(name));
    LowerIdempotent(name);
    assert NormalizeCrs(once) == Lower(name);
    assert |once| != |Lower(name)|;
  }

  lemma {:induction false} NoPlus(s: string)
    requires '+' !in s
    ensures !Contains(s, LegacyMarker)
    decreases |s|
  {
    if s != [] {
      NoPlus(s[1..]);
      assert s[0] != LegacyMarker[0];
    }
  }
}
