/** Whitespace trimming as Python's `str.strip()` performs it when called
    without an argument: leading and trailing characters for which
    `str.isspace()` holds are removed, inner ones are kept. */
module Text {

  /** The characters Python's `str.isspace()` accepts: TAB, LF, VT, FF, CR,
      the separators 0x1C-0x1F, SPACE, NEL, NO-BREAK SPACE, OGHAM SPACE
      MARK, the spaces U+2000-U+200A, LINE and PARAGRAPH SEPARATOR, NARROW
      NO-BREAK SPACE, MEDIUM MATHEMATICAL SPACE and IDEOGRAPHIC SPACE. */
  predicate IsSpace(c: char) {
    ('\U{0009}' <= c <= '\U{000D}') || ('\U{001C}' <= c <= '\U{0020}') || c == '\U{0085}' || c == '\U{00A0}'
    || c == '\U{1680}' || ('\U{2000}' <= c <= '\U{200A}') || c == '\U{2028}' || c == '\U{2029}'
    || c == '\U{202F}' || c == '\U{205F}' || c == '\U{3000}'
  }

  /** Drops the leading characters satisfying `ws`: the result is the
      suffix of `s` that starts at the first character failing `ws`. */
  function TrimStart(s: string, ws: char -> bool): (r: string)
    ensures |r| <= |s| && r == s[|s| - |r|..]
    ensures forall k :: 0 <= k < |s| - |r| ==> ws(s[k])
    ensures r == [] || !ws(r[0])
    decreases |s|
  {
    if s != [] && ws(s[0]) then
      var r := TrimStart(s[1..], ws);
      assert forall k :: 1 <= k < |s| ==> s[k] == s[1..][k - 1];
      r
    else
      s
  }

  /** Drops the trailing characters satisfying `ws`: the result is the
      prefix of `s` that ends at the last character failing `ws`. */
  function TrimEnd(s: string, ws: char -> bool): (r: string)
    ensures |r| <= |s| && r == s[..|r|]
    ensures forall k :: |r| <= k < |s| ==> ws(s[k])
    ensures r == [] || !ws(r[|r| - 1])
    decreases |s|
  {
    if s != [] && ws(s[|s| - 1]) then
      var r := TrimEnd(s[..|s| - 1], ws);
      assert forall k :: 0 <= k < |s| - 1 ==> s[k] == s[..|s| - 1][k];
      r
    else
      s
  }

  /** Python's `s.strip(chars)`, with `ws` telling which characters are in
      `chars`: the runs of such characters at both ends are removed, and
      what is left neither starts nor ends with one. */
  function Trim(s: string, ws: char -> bool): (r: string)
    ensures |r| <= |s|
    ensures r == [] || (!ws(r[0]) && !ws(r[|r| - 1]))
  {
    TrimEnd(TrimStart(s, ws), ws)
  }

  /** How many characters `Trim` removes at the front. */
  function Leading(s: string, ws: char -> bool): (n: nat)
    ensures n <= |s|
  {
    |s| - |TrimStart(s, ws)|
  }

  /** Python's `s.strip()` with no argument: `Trim` with the whitespace of
      `str.isspace()`. */
  function Strip(s: string): (r: string)
    ensures |r| <= |s|
    ensures r == [] || (!IsSpace(r[0]) && !IsSpace(r[|r| - 1]))
  {
    Trim(s, IsSpace)
  }

  /** `Trim(s, ws)` is the slice of `s` that starts after the leading run of
      `ws` characters. */
  lemma TrimSlice(s: string, ws: char -> bool)
    ensures Leading(s, ws) + |Trim(s, ws)| <= |s|
    ensures Trim(s, ws) == s[Leading(s, ws)..Leading(s, ws) + |Trim(s, ws)|]
  {
    var t, n := TrimStart(s, ws), Leading(s, ws);
    var r := TrimEnd(t, ws);
    assert t == s[n..];
    assert r == t[..|r|];
  }

  /** Everything `Trim` removes satisfies `ws`: the characters before the
      slice and the characters after it. */
  lemma TrimRemoves(s: string, ws: char -> bool)
    ensures forall k :: 0 <= k < Leading(s, ws) ==> ws(s[k])
    ensures forall k :: Leading(s, ws) + |Trim(s, ws)| <= k < |s| ==> ws(s[k])
  {
    var t, n := TrimStart(s, ws), Leading(s, ws);
    var r := TrimEnd(t, ws);
    forall k | n + |r| <= k < |s| ensures ws(s[k]) {
      assert s[k] == t[k - n];
    }
  }

  /** `Trim` yields the empty string exactly when every character of `s`
      satisfies `ws`; for `Strip` this is the `not s.strip()` test. */
  lemma TrimEmpty(s: string, ws: char -> bool)
    ensures Trim(s, ws) == [] <==> forall k :: 0 <= k < |s| ==> ws(s[k])
  {
    var t := TrimStart(s, ws);
    if Trim(s, ws) == [] {
      assert t == [];
    } else {
      var k := Leading(s, ws);
      assert s[k] == t[0];
    }
  }

  /** A string that neither starts nor ends with a `ws` character is left
      as it is by `Trim`. */
  lemma TrimUnchanged(s: string, ws: char -> bool)
    requires s == [] || (!ws(s[0]) && !ws(s[|s| - 1]))
    ensures Trim(s, ws) == s
  {
    if s != [] {
      assert TrimStart(s, ws) == s;
      assert TrimEnd(s, ws) == s;
    }
  }

  /** Trimming twice is trimming once: a description that came out of
      `Strip` is left as it is by a further `Strip`. */
  lemma TrimIdempotent(s: string, ws: char -> bool)
    ensures Trim(Trim(s, ws), ws) == Trim(s, ws)
  {
    TrimUnchanged(Trim(s, ws), ws);
  }
}
