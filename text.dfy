/**
 * The two Python string operations the lookups rely on: `str.replace(old, new)`
 * (every non-overlapping occurrence, scanning left to right) and `str.strip()`
 * (drop whitespace at both ends).
 */
module Text {

  /** `p` occurs in `s` starting at position `i`. */
  predicate OccursAt(p: string, s: string, i: nat) {
    i + |p| <= |s| && s[i..i + |p|] == p
  }

  predicate Occurs(p: string, s: string) {
    exists i: nat :: i <= |s| && OccursAt(p, s, i)
  }

  /**
   * `s.replace(pattern, replacement)` for a non-empty pattern. A replacement
   * no longer than the pattern never lengthens the text, and one no shorter
   * never shortens it.
   */
  function Replace(s: string, pattern: string, replacement: string): (r: string)
    requires |pattern| > 0
    ensures |replacement| <= |pattern| ==> |r| <= |s|
    ensures |replacement| >= |pattern| ==> |r| >= |s|
    decreases |s|
  {
    if |s| < |pattern| then s
    else if s[..|pattern|] == pattern then replacement + Replace(s[|pattern|..], pattern, replacement)
    else [s[0]] + Replace(s[1..], pattern, replacement)
  }

  /** Where the pattern does not occur, `replace` changes nothing. */
  lemma {:induction false} ReplaceAbsent(s: string, pattern: string, replacement: string)
    requires |pattern| > 0 && !Occurs(pattern, s)
    ensures Replace(s, pattern, replacement) == s
    decreases |s|
  {
    if |s| >= |pattern| {
      assert !OccursAt(pattern, s, 0);
      assert s[..|pattern|] != pattern;
      forall i: nat
        ensures !OccursAt(pattern, s[1..], i)
      {
        assert !OccursAt(pattern, s, i + 1);
        if i + |pattern| <= |s[1..]| {
          assert s[1..][i..i + |pattern|] == s[i + 1..i + 1 + |pattern|];
        }
      }
      ReplaceAbsent(s[1..], pattern, replacement);
      assert s == [s[0]] + s[1..];
    }
  }

  /**
   * A head in which the pattern's first character never appears cannot hold
   * the start of a match, so `replace` only works on the tail.
   */
  lemma {:induction false} ReplaceSkipsHead(h: string, t: string, pattern: string, replacement: string)
    requires |pattern| > 0
    requires forall i :: 0 <= i < |h| ==> h[i] != pattern[0]
    ensures Replace(h + t, pattern, replacement) == h + Replace(t, pattern, replacement)
    decreases |h|
  {
    if h != [] {
      var s := h + t;
      if |s| >= |pattern| {
        assert Replace(s, pattern, replacement) == [h[0]] + Replace(h[1..] + t, pattern, replacement) by {
          assert s[..|pattern|] != pattern by {
            assert s[..|pattern|][0] == h[0];
          }
          assert s[1..] == h[1..] + t;
        }
        ReplaceSkipsHead(h[1..], t, pattern, replacement);
        assert h == [h[0]] + h[1..];
      } else {
        assert Replace(t, pattern, replacement) == t;
      }
    } else {
      assert h + t == t;
    }
  }

  /** A text that starts with the pattern loses that occurrence first. */
  lemma ReplaceLeading(t: string, pattern: string, replacement: string)
    requires |pattern| > 0
    ensures Replace(pattern + t, pattern, replacement) == replacement + Replace(t, pattern, replacement)
  {
    var s := pattern + t;
    assert s[..|pattern|] == pattern;
    assert s[|pattern|..] == t;
  }

  /** The characters Python's `str.isspace` accepts. */
  predicate IsSpace(c: char) {
    c == ' ' || ('\t' <= c <= '\r') || ('\U{1C}' <= c <= '\U{1F}')
    || c == '\U{85}' || c == '\U{A0}' || c == '\U{1680}'
    || ('\U{2000}' <= c <= '\U{200A}') || c == '\U{2028}' || c == '\U{2029}'
    || c == '\U{202F}' || c == '\U{205F}' || c == '\U{3000}'
  }

  predicate AllSpaces(s: string) {
    forall i :: 0 <= i < |s| ==> IsSpace(s[i])
  }

  /** Neither end of `s` is whitespace. */
  predicate Trimmed(s: string) {
    s == [] || (!IsSpace(s[0]) && !IsSpace(s[|s| - 1]))
  }

  /**
   * A suffix `r` of `s[1..]` behind whitespace only, where `s` starts with
   * whitespace, is a suffix of `s` behind whitespace only.
   */
  lemma SpacesThenSuffix(s: string, r: string)
    requires s != [] && IsSpace(s[0]) && |r| < |s|
    requires r == s[1..][|s| - 1 - |r|..] && AllSpaces(s[1..][..|s| - 1 - |r|])
    ensures r == s[|s| - |r|..] && AllSpaces(s[..|s| - |r|])
  {
    assert s[..|s| - |r|] == [s[0]] + s[1..][..|s| - 1 - |r|];
  }

  /** `s.lstrip()`: a suffix of `s` reached by dropping only whitespace. */
  function TrimStart(s: string): (r: string)
    ensures |r| <= |s| && r == s[|s| - |r|..]
    ensures AllSpaces(s[..|s| - |r|])
    ensures r == [] || !IsSpace(r[0])
  {
    if s != [] && IsSpace(s[0]) then
      var t := s[1..];
      var r := TrimStart(t);
      SpacesThenSuffix(s, r);
      r
    else
      s
  }

  /** `s.rstrip()`: a prefix of `s` reached by dropping only whitespace. */
  function TrimEnd(s: string): (r: string)
    ensures |r| <= |s| && r == s[..|r|]
    ensures AllSpaces(s[|r|..])
    ensures r == [] || !IsSpace(r[|r| - 1])
  {
    if s != [] && IsSpace(s[|s| - 1]) then
      var t := s[..|s| - 1];
      var r := TrimEnd(t);
      assert r == s[..|r|] by {
        assert t[..|r|] == s[..|r|];
      }
      assert AllSpaces(s[|r|..]) by {
        assert s[|r|..] == t[|r|..] + [s[|s| - 1]];
      }
      r
    else
      s
  }

  /** `s.strip()`. */
  function Strip(s: string): (r: string)
    ensures |r| <= |s| && Trimmed(r)
  {
    TrimEnd(TrimStart(s))
  }

  /**
   * What `strip` returns: the factor `s[i..j]` that is trimmed and is
   * surrounded by whitespace only.
   */
  lemma StripIsTrimmedFactor(s: string)
    ensures Trimmed(Strip(s))
    ensures exists i, j :: 0 <= i <= j <= |s| && Strip(s) == s[i..j]
                           && AllSpaces(s[..i]) && AllSpaces(s[j..])
  {
    var a := TrimStart(s);
    var r := TrimEnd(a);
    var i := |s| - |a|;
    var j := i + |r|;
    assert Strip(s) == s[i..j] by {
      assert a == s[i..];
      assert s[i..j] == a[..|r|];
    }
    assert AllSpaces(s[j..]) by {
      assert a == s[i..];
      assert s[j..] == a[|r|..];
    }
    assert AllSpaces(s[..i]);
  }

  /** Text that is already trimmed is left alone by `strip`. */
  lemma StripTrimmed(s: string)
    requires Trimmed(s)
    ensures Strip(s) == s
  {
  }

  /** Stripping twice is stripping once. */
  lemma StripIdempotent(s: string)
    ensures Strip(Strip(s)) == Strip(s)
  {
    StripIsTrimmedFactor(s);
    StripTrimmed(Strip(s));
  }
}
