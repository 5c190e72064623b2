/**
 * Recognition of section headers. A header is a line whose whitespace-stripped
 * form begins with `===== `, then a non-empty run of name characters
 * (`a`-`z`, `A`-`Z`, `0`-`9`, `.`, `_`), then ` =====`. Only the beginning is
 * anchored, so anything may follow the closing `=====`.
 */
module Header {
  import opened Wrappers

  const Open: string := "===== "
  const Close: string := " ====="

  /** The ASCII characters that `str.strip()` removes. */
  predicate IsSpace(c: char) {
    c == ' ' || c == '\t' || c == '\n' || c == '\r' || c == '\U{0B}' || c == '\U{0C}'
    || ('\U{1C}' <= c <= '\U{1F}')
  }

  predicate AllSpace(s: string) {
    forall i :: 0 <= i < |s| ==> IsSpace(s[i])
  }

  /** Length of the whitespace run at the start of `s`. */
  function LeadingSpace(s: string): (n: nat)
    ensures n <= |s| && AllSpace(s[..n])
    ensures n < |s| ==> !IsSpace(s[n])
  {
    if |s| > 0 && IsSpace(s[0]) then 1 + LeadingSpace(s[1..]) else 0
  }

  /** Length of the whitespace run at the end of `s`. */
  function TrailingSpace(s: string): (n: nat)
    ensures n <= |s| && AllSpace(s[|s| - n..])
    ensures n < |s| ==> !IsSpace(s[|s| - n - 1])
  {
    if |s| > 0 && IsSpace(s[|s| - 1]) then 1 + TrailingSpace(s[..|s| - 1]) else 0
  }

  /**
   * `str.strip()`: the result is the part of `s` left once whitespace is cut
   * from both ends; what is cut is whitespace only, and what is left neither
   * starts nor ends with whitespace.
   */
  function Strip(s: string): (r: string)
    ensures LeadingSpace(s) + |r| <= |s|
    ensures r == s[LeadingSpace(s)..LeadingSpace(s) + |r|]
    ensures AllSpace(s[..LeadingSpace(s)]) && AllSpace(s[LeadingSpace(s) + |r|..])
    ensures r == [] || (!IsSpace(r[0]) && !IsSpace(r[|r| - 1]))
  {
    var t := s[LeadingSpace(s)..];
    t[..|t| - TrailingSpace(t)]
  }

  predicate IsNameChar(c: char) {
    'a' <= c <= 'z' || 'A' <= c <= 'Z' || '0' <= c <= '9' || c == '.' || c == '_'
  }

  /** A file name as the header's capture group admits it: one or more name characters. */
  predicate IsName(s: string) {
    |s| > 0 && forall i :: 0 <= i < |s| ==> IsNameChar(s[i])
  }

  /** Length of the longest prefix of `s` made of name characters (the greedy `+`). */
  function NameRun(s: string): (n: nat)
    ensures n <= |s|
    ensures forall i :: 0 <= i < n ==> IsNameChar(s[i])
    ensures n < |s| ==> !IsNameChar(s[n])
  {
    if |s| > 0 && IsNameChar(s[0]) then 1 + NameRun(s[1..]) else 0
  }

  /** `s` begins with a header naming `name`; whatever follows is ignored. */
  predicate HeaderShape(s: string, name: string) {
    IsName(name) && Open + name + Close <= s
  }

  /**
   * The compiled pattern's `match` at the start of `s`: `Some(name)` with the
   * captured name, or `None` when `s` does not begin with a header.
   */
  function MatchPattern(s: string): (r: Option<string>)
    ensures r.Some? ==> HeaderShape(s, r.value)
  {
    if |s| < |Open| || s[..|Open|] != Open then None
    else
      var rest := s[|Open|..];
      var n := NameRun(rest);
      if 0 < n && n + |Close| <= |rest| && rest[n..n + |Close|] == Close then
        assert s == Open + rest;
        assert rest[..n + |Close|] == rest[..n] + Close;
        Some(rest[..n])
      else None
  }

  /** The pattern applied to the stripped line. */
  function MatchHeader(line: string): (r: Option<string>)
    ensures r.Some? ==> HeaderShape(Strip(line), r.value)
  {
    MatchPattern(Strip(line))
  }

  /**
   * The pattern matches naming `name` exactly when `s` has the header shape
   * for `name`; in particular the captured name is unique.
   */
  lemma MatchPatternIff(s: string, name: string)
    ensures MatchPattern(s) == Some(name) <==> HeaderShape(s, name)
  {
    if HeaderShape(s, name) {
      ShapeMatches(s, name);
    }
  }

  /** The direction of `MatchPatternIff` that the pattern's own contract does not give. */
  lemma ShapeMatches(s: string, name: string)
    requires HeaderShape(s, name)
    ensures MatchPattern(s) == Some(name)
  {
    var k := |name|;
    assert s[..|Open|] == Open;
    var rest := s[|Open|..];
    assert name + Close <= rest;
    assert rest[..k] == name;
    assert rest[k] == ' ' && !IsNameChar(rest[k]);
    assert forall i :: 0 <= i < k ==> IsNameChar(rest[i]);
    var n := NameRun(rest);
    assert n == k;
    assert rest[n..n + |Close|] == Close;
  }

  /** A line is a header naming `name` exactly when its stripped form has the header shape for `name`. */
  lemma MatchHeaderIff(line: string, name: string)
    ensures MatchHeader(line) == Some(name) <==> HeaderShape(Strip(line), name)
  {
    MatchPatternIff(Strip(line), name);
  }

  /**
   * `Strip` is determined by its contract: whenever `s` is whitespace, then
   * `r`, then whitespace, and `r` neither starts nor ends with whitespace,
   * stripping `s` gives `r`.
   */
  lemma StripUnique(s: string, a: string, r: string, b: string)
    requires s == a + r + b && AllSpace(a) && AllSpace(b)
    requires r == [] || (!IsSpace(r[0]) && !IsSpace(r[|r| - 1]))
    ensures Strip(s) == r
  {
    if r == [] {
      assert s[..|s|] == a + b;
      AllSpaceAppend(a, b);
      LeadingSpaceAt(s, |s|);
    } else {
      StripUniqueNonEmpty(s, a, r, b);
    }
  }

  /** The case of `StripUnique` where something is left after stripping. */
  lemma StripUniqueNonEmpty(s: string, a: string, r: string, b: string)
    requires s == a + r + b && AllSpace(a) && AllSpace(b)
    requires r != [] && !IsSpace(r[0]) && !IsSpace(r[|r| - 1])
    ensures Strip(s) == r
  {
    assert s[..|a|] == a;
    assert s[|a|] == r[0];
    LeadingSpaceAt(s, |a|);
    var t := s[|a|..];
    assert t == r + b;
    assert t[|t| - |b|..] == b;
    assert t[|t| - |b| - 1] == r[|r| - 1];
    TrailingSpaceAt(t, |b|);
    assert t[..|t| - |b|] == r;
  }

  lemma AllSpaceAppend(a: string, b: string)
    requires AllSpace(a) && AllSpace(b)
    ensures AllSpace(a + b)
  {
  }

  /** The leading whitespace run ends at the first character that is not whitespace. */
  lemma LeadingSpaceAt(s: string, k: nat)
    requires k <= |s| && AllSpace(s[..k])
    requires k < |s| ==> !IsSpace(s[k])
    ensures LeadingSpace(s) == k
  {
    var n := LeadingSpace(s);
    assert forall i :: 0 <= i < k ==> IsSpace(s[i]) by {
      forall i | 0 <= i < k ensures IsSpace(s[i]) { assert s[i] == s[..k][i]; }
    }
    assert forall i :: 0 <= i < n ==> IsSpace(s[i]) by {
      forall i | 0 <= i < n ensures IsSpace(s[i]) { assert s[i] == s[..n][i]; }
    }
  }

  /** The trailing whitespace run starts after the last character that is not whitespace. */
  lemma TrailingSpaceAt(s: string, k: nat)
    requires k <= |s| && AllSpace(s[|s| - k..])
    requires k < |s| ==> !IsSpace(s[|s| - k - 1])
    ensures TrailingSpace(s) == k
  {
  }

  /** Whitespace around a line never changes whether, or how, it matches. */
  lemma MatchIgnoresSurroundingSpace(w1: string, line: string, w2: string)
    requires AllSpace(w1) && AllSpace(w2)
    ensures MatchHeader(w1 + line + w2) == MatchHeader(line)
  {
    StripIgnoresSurroundingSpace(w1, line, w2);
  }

  /** Whitespace around a line never changes its stripped form. */
  lemma StripIgnoresSurroundingSpace(w1: string, line: string, w2: string)
    requires AllSpace(w1) && AllSpace(w2)
    ensures Strip(w1 + line + w2) == Strip(line)
  {
    var n := LeadingSpace(line);
    var r := Strip(line);
    var a, b := line[..n], line[n + |r|..];
    assert line == a + r + b;
    var a', b' := w1 + a, b + w2;
    assert AllSpace(a') by {
      forall i | 0 <= i < |a'| ensures IsSpace(a'[i]) {
        if i < |w1| { assert a'[i] == w1[i]; } else { assert a'[i] == a[i - |w1|]; }
      }
    }
    assert AllSpace(b') by {
      forall i | 0 <= i < |b'| ensures IsSpace(b'[i]) {
        if i < |b| { assert b'[i] == b[i]; } else { assert b'[i] == w2[i - |b|]; }
      }
    }
    Regroup(w1, a, r, b, w2);
    StripUnique(w1 + line + w2, a', r, b');
  }

  /** Regrouping of joined strings, kept apart so that the proof above stays small. */
  lemma Regroup(w1: string, a: string, r: string, b: string, w2: string)
    ensures w1 + (a + r + b) + w2 == (w1 + a) + r + (b + w2)
  {
  }
}
