/**
 * The string operations the view applies to addresses: `str.lower()` restricted to
 * ASCII, `str.strip()` with Python's own whitespace set, and the normalisation
 * `email.lower().strip()` that turns an address into the sheet's uniqueness key.
 */
module Text {

  predicate IsUpper(c: char) { 'A' <= c <= 'Z' }
  predicate IsLower(c: char) { 'a' <= c <= 'z' }
  predicate IsAsciiLetter(c: char) { IsUpper(c) || IsLower(c) }
  predicate IsDigit(c: char) { '0' <= c <= '9' }

  /** The 29 code points for which Python's `str.isspace()` holds; `str.strip()` removes exactly these. */
  predicate IsWhitespace(c: char) {
    || c == '\t' || c == '\n' || c == '\U{B}' || c == '\U{C}' || c == '\r'
    || ('\U{1C}' <= c <= '\U{1F}') || c == ' ' || c == '\U{85}' || c == '\U{A0}'
    || c == '\U{1680}' || ('\U{2000}' <= c <= '\U{200A}') || c == '\U{2028}'
    || c == '\U{2029}' || c == '\U{202F}' || c == '\U{205F}' || c == '\U{3000}'
  }

  predicate AllWhitespace(s: string) { forall i :: 0 <= i < |s| ==> IsWhitespace(s[i]) }
  predicate NoUpper(s: string) { forall i :: 0 <= i < |s| ==> !IsUpper(s[i]) }

  function LowerChar(c: char): (d: char)
    ensures !IsUpper(d)
    ensures IsUpper(c) ==> IsLower(d) && d as int == c as int + 32
    ensures !IsUpper(c) ==> d == c
  {
    if IsUpper(c) then (c as int + 32) as char else c
  }

  /** `s.lower()` on ASCII: each upper-case letter becomes its lower-case twin, every other character stays. */
  function Lower(s: string): (r: string)
    ensures |r| == |s|
  {
    seq(|s|, i requires 0 <= i < |s| => LowerChar(s[i]))
  }

  /** `s.lstrip()`: what is left after dropping the leading whitespace. */
  function TrimStart(s: string): (r: string)
    ensures |r| <= |s|
  {
    if |s| > 0 && IsWhitespace(s[0]) then TrimStart(s[1..]) else s
  }

  /** `s.rstrip()`: what is left after dropping the trailing whitespace. */
  function TrimEnd(s: string): (r: string)
    ensures |r| <= |s|
  {
    if |s| > 0 && IsWhitespace(s[|s| - 1]) then TrimEnd(s[..|s| - 1]) else s
  }

  /** `s.strip()`. */
  function Strip(s: string): string
  {
    TrimEnd(TrimStart(s))
  }

  /** The stored key: `email.lower().strip()`. */
  function Normalize(s: string): string
  {
    Strip(Lower(s))
  }

  /** Lowering works character by character: upper-case letters become lower-case, nothing else changes. */
  lemma LowerAt(s: string, i: int)
    requires 0 <= i < |s|
    ensures Lower(s)[i] == LowerChar(s[i])
  {
  }

  /** The lowered string has no upper-case letter, and lowering commutes with taking a prefix. */
  lemma LowerFacts(s: string)
    ensures NoUpper(Lower(s))
    ensures forall n :: 0 <= n <= |s| ==> Lower(s[..n]) == Lower(s)[..n]
  {
    forall i | 0 <= i < |s| ensures !IsUpper(Lower(s)[i]) {
      LowerAt(s, i);
    }
    forall n | 0 <= n <= |s| ensures Lower(s[..n]) == Lower(s)[..n] {
      forall i | 0 <= i < n ensures Lower(s[..n])[i] == Lower(s)[..n][i] {
        LowerAt(s[..n], i);
        LowerAt(s, i);
      }
    }
  }

  /** `lstrip` removes the longest all-whitespace prefix: the result is a suffix of the input,
      what was cut is whitespace, and the result does not start with whitespace. */
  lemma {:induction false} TrimStartSpec(s: string)
    ensures var r := TrimStart(s);
      && r == s[|s| - |r|..] && AllWhitespace(s[..|s| - |r|])
      && (r == [] || !IsWhitespace(r[0]))
  {
    if |s| > 0 && IsWhitespace(s[0]) {
      TrimStartSpec(s[1..]);
      var r := TrimStart(s);
      assert s[1..][..|s| - 1 - |r|] == s[1..|s| - |r|];
      assert forall i :: 1 <= i < |s| - |r| ==> s[i] == s[1..|s| - |r|][i - 1];
    }
  }

  /** `rstrip` removes the longest all-whitespace suffix: the result is a prefix of the input,
      what was cut is whitespace, and the result does not end with whitespace. */
  lemma {:induction false} TrimEndSpec(s: string)
    ensures var r := TrimEnd(s);
      && r == s[..|r|] && AllWhitespace(s[|r|..])
      && (r == [] || !IsWhitespace(r[|r| - 1]))
  {
    if |s| > 0 && IsWhitespace(s[|s| - 1]) {
      var init := s[..|s| - 1];
      TrimEndSpec(init);
      var r := TrimEnd(s);
      assert init[..|r|] == s[..|r|];
      assert forall i :: |r| <= i < |s| - 1 ==> s[i] == init[|r|..][i - |r|];
    }
  }

  /** The result of `strip` is a slice of its input, and everything cut off on either side is
      whitespace. */
  lemma StripSlice(s: string)
    ensures var r, i := Strip(s), |s| - |TrimStart(s)|;
      && 0 <= i <= i + |r| <= |s| && r == s[i..i + |r|]
      && AllWhitespace(s[..i]) && AllWhitespace(s[i + |r|..])
  {
    var t := TrimStart(s);
    TrimStartSpec(s);
    TrimEndSpec(t);
    var i := |s| - |t|;
    var r := TrimEnd(t);
    assert s[i..i + |r|] == t[..|r|];
    assert s[i + |r|..] == t[|r|..];
  }

  /** The result of `strip` neither starts nor ends with whitespace. */
  lemma StripEdges(s: string)
    ensures Strip(s) == [] || (!IsWhitespace(Strip(s)[0]) && !IsWhitespace(Strip(s)[|Strip(s)| - 1]))
  {
    var t := TrimStart(s);
    TrimStartSpec(s);
    TrimEndSpec(t);
    var r := TrimEnd(t);
    if r != [] {
      assert r[0] == t[0];
    }
  }

  /** A string strips to nothing exactly when it is blank (empty or whitespace only). */
  lemma StripEmptyIffBlank(s: string)
    ensures Strip(s) == [] <==> AllWhitespace(s)
  {
    var t := TrimStart(s);
    TrimStartSpec(s);
    TrimEndSpec(t);
    if Strip(s) == [] {
      assert AllWhitespace(t) by { assert t[0..] == t; }
      assert t == [];
      assert s == s[..|s| - |t|];
    }
    if AllWhitespace(s) {
      assert t == [];
    }
  }

  /** Stripping again changes nothing. */
  lemma StripIdempotent(s: string)
    ensures Strip(Strip(s)) == Strip(s)
  {
    StripEdges(s);
    StripUnchangedWhenTrimmed(Strip(s));
  }

  lemma StripUnchangedWhenTrimmed(r: string)
    requires r == [] || (!IsWhitespace(r[0]) && !IsWhitespace(r[|r| - 1]))
    ensures Strip(r) == r
  {
  }

  /** Lowering a string that has no upper-case letter leaves it as it is. */
  lemma LowerUnchangedWithoutUpper(s: string)
    requires NoUpper(s)
    ensures Lower(s) == s
  {
    forall i | 0 <= i < |s| ensures Lower(s)[i] == s[i] {
      LowerAt(s, i);
    }
  }

  /** Every character of a stripped string is a character of the input. */
  lemma StripKeepsCharacters(s: string, k: nat)
    requires k < |Strip(s)|
    ensures exists j :: 0 <= j < |s| && s[j] == Strip(s)[k]
  {
    StripSlice(s);
    var r := Strip(s);
    var i := |s| - |TrimStart(s)|;
    assert s[i + k] == r[k];
  }

  /** The key has no upper-case letter, whatever the input. */
  lemma NormalizeHasNoUpper(s: string)
    ensures NoUpper(Normalize(s))
  {
    LowerFacts(s);
    forall k | 0 <= k < |Normalize(s)| ensures !IsUpper(Normalize(s)[k]) {
      StripKeepsCharacters(Lower(s), k);
    }
  }

  /** Normalising twice gives the same key as normalising once. */
  lemma {:induction false} NormalizeIdempotent(s: string)
    ensures Normalize(Normalize(s)) == Normalize(s)
  {
    var n := Normalize(s);
    NormalizeHasNoUpper(s);
    LowerUnchangedWithoutUpper(n);
    StripIdempotent(Lower(s));
  }

  /** Two strings that differ only in the case of ASCII letters. */
  predicate SameUpToCase(x: string, y: string) {
    && |x| == |y|
    && forall i :: 0 <= i < |x| ==>
         || x[i] == y[i]
         || (IsUpper(x[i]) && y[i] as int == x[i] as int + 32)
         || (IsUpper(y[i]) && x[i] as int == y[i] as int + 32)
  }

  /** The key ignores letter case: two strings that differ only in the case of ASCII letters
      have the same key. */
  lemma NormalizeIgnoresCase(x: string, y: string)
    requires SameUpToCase(x, y)
    ensures Normalize(x) == Normalize(y)
  {
    forall i | 0 <= i < |x| ensures Lower(x)[i] == Lower(y)[i] {
      LowerAt(x, i);
      LowerAt(y, i);
    }
    assert Lower(x) == Lower(y);
  }

  /** Normalisation creates no `@`: an `@` in the key comes from the input. */
  lemma NormalizeKeepsAt(s: string)
    requires '@' in Normalize(s)
    ensures '@' in s
  {
    var n := Normalize(s);
    var k :| 0 <= k < |n| && n[k] == '@';
    StripKeepsCharacters(Lower(s), k);
    var j :| 0 <= j < |Lower(s)| && Lower(s)[j] == '@';
    LowerAt(s, j);
  }
}
