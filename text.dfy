/** The Python `str` operations the core relies on, restricted to ASCII:
    `startswith`, `in`, `replace`, `lower`, `strip` and `split(sep)[1]`. */
module Text {
  import opened Base

  predicate StartsWith(s: string, prefix: string)
  {
    |prefix| <= |s| && s[..|prefix|] == prefix
  }

  /** Python's `pattern in s` for strings. */
  predicate Contains(s: string, pattern: string)
    decreases |s|
  {
    StartsWith(s, pattern) || (s != [] && Contains(s[1..], pattern))
  }

  lemma {:induction false} ContainsAt(s: string, pattern: string, i: nat)
    requires i + |pattern| <= |s| && s[i..i + |pattern|] == pattern
    ensures Contains(s, pattern)
    decreases i
  {
    if i > 0 {
      assert s[1..][i - 1..i - 1 + |pattern|] == pattern;
      ContainsAt(s[1..], pattern, i - 1);
    }
  }

  /** Python's `s.replace(pattern, replacement)`: a single left-to-right pass that
      replaces non-overlapping occurrences; replaced text is not rescanned. */
  function ReplaceAll(s: string, pattern: string, replacement: string): string
    requires pattern != []
    decreases |s|
  {
    if |s| < |pattern| then s
    else if s[..|pattern|] == pattern then replacement + ReplaceAll(s[|pattern|..], pattern, replacement)
    else [s[0]] + ReplaceAll(s[1..], pattern, replacement)
  }

  /** Replacing a pattern that does not occur leaves the string unchanged. */
  lemma {:induction false} ReplaceAbsent(s: string, pattern: string, replacement: string)
    requires pattern != [] && !Contains(s, pattern)
    ensures ReplaceAll(s, pattern, replacement) == s
    decreases |s|
  {
    if |s| >= |pattern| {
      ReplaceAbsent(s[1..], pattern, replacement);
      assert [s[0]] + s[1..] == s;
    }
  }

  lemma {:induction false} ContainsFits(s: string, pattern: string)
    requires Contains(s, pattern)
    ensures |pattern| <= |s|
    decreases |s|
  {
    if !StartsWith(s, pattern) {
      ContainsFits(s[1..], pattern);
    }
  }

  /** Removing every occurrence never lengthens the string, and shortens it
      exactly when the pattern occurs. */
  lemma {:induction false} RemoveShrinks(s: string, pattern: string)
    requires pattern != []
    ensures |ReplaceAll(s, pattern, "")| <= |s|
    ensures |ReplaceAll(s, pattern, "")| < |s| <==> Contains(s, pattern)
    decreases |s|
  {
    if |s| >= |pattern| {
      if s[..|pattern|] == pattern {
        RemoveShrinks(s[|pattern|..], pattern);
      } else {
        RemoveShrinks(s[1..], pattern);
      }
    } else if Contains(s, pattern) {
      ContainsFits(s, pattern);
    }
  }

  predicate IsUpper(c: char) { 'A' <= c <= 'Z' }

  function LowerChar(c: char): char
  {
    if IsUpper(c) then (c as int + 32) as char else c
  }

  /** Python's `s.lower()` on ASCII text. */
  function Lower(s: string): (r: string)
    ensures |r| == |s|
  {
    seq(|s|, i requires 0 <= i < |s| => LowerChar(s[i]))
  }

  lemma LowerIdempotent(s: string)
    ensures Lower(Lower(s)) == Lower(s)
    ensures forall i :: 0 <= i < |s| ==> !IsUpper(Lower(s)[i])
  {
  }

  lemma LowerSlice(s: string, i: nat, j: nat)
    requires i <= j <= |s|
    ensures Lower(s)[i..j] == Lower(s[i..j])
  {
  }

  /** An occurrence survives lower-casing. */
  lemma ContainsLower(s: string, pattern: string)
    requires Contains(s, pattern)
    ensures Contains(Lower(s), Lower(pattern))
    decreases |s|
  {
    if StartsWith(s, pattern) {
      LowerSlice(s, 0, |pattern|);
      assert StartsWith(Lower(s), Lower(pattern));
    } else {
      ContainsLower(s[1..], pattern);
      assert Lower(s)[1..] == Lower(s[1..]);
    }
  }

  /** Python's `str.isspace()` on one ASCII character. */
  predicate IsSpace(c: char)
  {
    (9 <= c as int <= 13) || (28 <= c as int <= 32)
  }

  predicate AllSpace(s: string)
  {
    forall i :: 0 <= i < |s| ==> IsSpace(s[i])
  }

  function StripLeft(s: string): (r: string)
    ensures |r| <= |s| && r == s[|s| - |r|..]
    ensures AllSpace(s[..|s| - |r|])
    ensures r != [] ==> !IsSpace(r[0])
    decreases |s|
  {
    if s != [] && IsSpace(s[0]) then StripLeft(s[1..]) else s
  }

  function StripRight(s: string): (r: string)
    ensures |r| <= |s| && r == s[..|r|]
    ensures AllSpace(s[|r|..])
    ensures r != [] ==> !IsSpace(r[|r| - 1])
    decreases |s|
  {
    if s != [] && IsSpace(s[|s| - 1]) then
      var r := StripRight(s[..|s| - 1]);
      DropLast(s, |r|);
      AllSpaceSnoc(s[..|s| - 1][|r|..], s[|s| - 1]);
      r
    else s
  }

  lemma DropLast(s: string, n: nat)
    requires n < |s|
    ensures s[..|s| - 1][..n] == s[..n]
    ensures s[n..] == s[..|s| - 1][n..] + [s[|s| - 1]]
  {
  }

  lemma AllSpaceSnoc(s: string, c: char)
    requires AllSpace(s) && IsSpace(c)
    ensures AllSpace(s + [c])
  {
    assert forall i :: 0 <= i < |s| ==> (s + [c])[i] == s[i];
  }

  /** Python's `s.strip()`: the text between the leading and the trailing
      whitespace. */
  function Strip(s: string): (r: string)
    ensures exists i, j :: 0 <= i <= j <= |s| && r == s[i..j] && AllSpace(s[..i]) && AllSpace(s[j..])
    ensures Stripped(r)
  {
    var l := StripLeft(s);
    var r := StripRight(l);
    StripFrame(s, l, r);
    r
  }

  /** Where the two halves of `strip` leave the text inside `s`. */
  lemma StripFrame(s: string, l: string, r: string)
    requires |l| <= |s| && l == s[|s| - |l|..] && AllSpace(s[..|s| - |l|])
    requires |r| <= |l| && r == l[..|r|] && AllSpace(l[|r|..])
    ensures var i := |s| - |l|;
            r == s[i..i + |r|] && AllSpace(s[..i]) && AllSpace(s[i + |r|..])
  {
    var i := |s| - |l|;
    assert s[i + |r|..] == l[|r|..];
  }

  /** Neither end is white space. */
  predicate Stripped(r: string)
  {
    r != [] ==> !IsSpace(r[0]) && !IsSpace(r[|r| - 1])
  }

  /** A stripped string has nothing left to strip. */
  lemma StripIdempotent(s: string)
    ensures Strip(Strip(s)) == Strip(s)
  {
    var r := Strip(s);
    if r != [] {
      assert StripLeft(r) == r;
      assert StripRight(r) == r;
    }
  }

  /** A line of whitespace only strips to the empty string. */
  lemma StripSpaces(s: string)
    requires AllSpace(s)
    ensures Strip(s) == ""
  {
  }

  /** Index of the first occurrence of `c` in `s`. */
  function IndexOf(s: string, c: char): (r: nat)
    requires c in s
    ensures r < |s| && s[r] == c && c !in s[..r]
  {
    if s[0] == c then 0 else 1 + IndexOf(s[1..], c)
  }

  /** Python's `s.split(sep)[1]` for a one-character separator: the text
      between the first and the second occurrence of `sep` (or the end);
      `IndexError` when `sep` does not occur at all. */
  function SecondField(s: string, sep: char): (r: Option<string>)
    ensures r.None? <==> sep !in s
    ensures r.Some? ==> sep !in r.value
    ensures r.Some? ==>
      var i := IndexOf(s, sep);
      var end := i + 1 + |r.value|;
      end <= |s| && s[i + 1 .. end] == r.value && (end == |s| || s[end] == sep)
  {
    if sep !in s then None
    else
      var i := IndexOf(s, sep);
      var rest := s[i + 1..];
      var field := if sep in rest then rest[..IndexOf(rest, sep)] else rest;
      assert s[i + 1 .. i + 1 + |field|] == field;
      Some(field)
  }
}
