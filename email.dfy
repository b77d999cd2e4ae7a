/**
 * The address validator `is_valid_email`: `re.match` of the pattern
 * `^[a-zA-Z0-9._%+-]+@[a-zA-Z0-9.-]+\.[a-zA-Z]{2,}$`.
 *
 * `IsValidEmail` states what the regular expression accepts, as a split of the
 * string into the pattern's four parts. `WellFormedAddress` is an independent,
 * deterministic description (the one `@`, the last `.` of the domain), and
 * `ValidIffWellFormed` proves the two agree.
 */
module Email {
  import opened Text

  /** `[a-zA-Z0-9._%+-]` */
  predicate IsLocalChar(c: char) {
    IsAsciiLetter(c) || IsDigit(c) || c == '.' || c == '_' || c == '%' || c == '+' || c == '-'
  }

  /** `[a-zA-Z0-9.-]` */
  predicate IsDomainChar(c: char) {
    IsAsciiLetter(c) || IsDigit(c) || c == '.' || c == '-'
  }

  predicate AllLocal(s: string) { forall i :: 0 <= i < |s| ==> IsLocalChar(s[i]) }
  predicate AllDomain(s: string) { forall i :: 0 <= i < |s| ==> IsDomainChar(s[i]) }
  predicate AllLetters(s: string) { forall i :: 0 <= i < |s| ==> IsAsciiLetter(s[i]) }

  /** The pattern's four parts sit at `t[..at]`, `t[at]`, `t[at + 1..dot]`, `t[dot]` and `t[dot + 1..]`. */
  predicate SplitsAt(t: string, at: int, dot: int) {
    && 0 < at && at + 1 < dot && dot + 2 < |t|
    && AllLocal(t[..at]) && t[at] == '@'
    && AllDomain(t[at + 1..dot]) && t[dot] == '.'
    && AllLetters(t[dot + 1..])
  }

  /** The pattern without its anchors matches all of `t`: `t` splits into a local part of one
      or more local characters, `@`, one or more domain characters, `.`, and two or more letters. */
  predicate FullMatch(t: string) {
    exists at, dot | 0 < at < dot < |t| :: SplitsAt(t, at, dot)
  }

  /** The string with one final newline removed, if it has one: `$` also matches just before it. */
  function Body(s: string): (t: string)
    ensures t == s || t + "\n" == s
  {
    if |s| > 0 && s[|s| - 1] == '\n' then s[..|s| - 1] else s
  }

  /** `is_valid_email(email)`: `re.match` anchors at the start, and `$` matches at the end
      of the string or before a newline that ends it. */
  predicate IsValidEmail(s: string) {
    FullMatch(s) || (|s| > 0 && s[|s| - 1] == '\n' && FullMatch(s[..|s| - 1]))
  }

  /** The position of the first occurrence of `c`. */
  function IndexOf(s: string, c: char): (i: nat)
    requires c in s
    ensures i < |s| && s[i] == c && c !in s[..i]
  {
    if s[0] == c then 0 else 1 + IndexOf(s[1..], c)
  }

  /** The position of the last occurrence of `c`. */
  function LastIndexOf(s: string, c: char): (i: nat)
    requires c in s
    ensures i < |s| && s[i] == c && c !in s[i + 1..]
  {
    if s[|s| - 1] == c then |s| - 1 else LastIndexOf(s[..|s| - 1], c)
  }

  /** The domain after the `@`: domain characters only, and its last `.` has at least one
      character before it and two or more letters, and nothing else, after it. */
  predicate WellFormedDomain(d: string) {
    && AllDomain(d) && '.' in d
    && var dot := LastIndexOf(d, '.');
       dot >= 1 && |d| - dot - 1 >= 2 && AllLetters(d[dot + 1..])
  }

  /** An independent description of the accepted addresses: exactly one `@` (its first and its
      last occurrence coincide), a non-empty run of local characters before it, and a
      well-formed domain after it. */
  predicate WellFormedAddress(t: string) {
    && '@' in t && IndexOf(t, '@') == LastIndexOf(t, '@')
    && var at := IndexOf(t, '@');
       at > 0 && AllLocal(t[..at]) && WellFormedDomain(t[at + 1..])
  }

  /** The only `@` of a split is the one at `at`. */
  lemma SplitHasOneAt(t: string, at: int, dot: int)
    requires SplitsAt(t, at, dot)
    ensures forall i :: 0 <= i < |t| && i != at ==> t[i] != '@'
  {
    forall i | 0 <= i < |t| && i != at ensures t[i] != '@' {
      if i < at {
        assert t[..at][i] == t[i];
      } else if i < dot {
        assert t[at + 1..dot][i - at - 1] == t[i];
      } else if i > dot {
        assert t[dot + 1..][i - dot - 1] == t[i];
      }
    }
  }

  /** The `@` of a split is both the first and the last `@`. */
  lemma SplitAtIsOnlyAt(t: string, at: int, dot: int)
    requires SplitsAt(t, at, dot)
    ensures '@' in t && IndexOf(t, '@') == at && LastIndexOf(t, '@') == at
  {
    SplitHasOneAt(t, at, dot);
    assert t[at] == '@';
  }

  /** The domain part of a split is well formed, and its last `.` is the split's `dot`. */
  lemma SplitDomainWellFormed(t: string, at: int, dot: int)
    requires SplitsAt(t, at, dot)
    ensures WellFormedDomain(t[at + 1..])
    ensures LastIndexOf(t[at + 1..], '.') == dot - at - 1
  {
    var domain := t[at + 1..];
    var d := dot - at - 1;
    assert domain[..d] == t[at + 1..dot];
    assert domain[d + 1..] == t[dot + 1..];
    forall i | 0 <= i < |domain| ensures IsDomainChar(domain[i]) {
      if i < d {
        assert domain[i] == domain[..d][i];
      } else if i > d {
        assert domain[i] == domain[d + 1..][i - d - 1];
      }
    }
    forall i | d < i < |domain| ensures domain[i] != '.' {
      assert domain[i] == domain[d + 1..][i - d - 1];
    }
    assert domain[d] == '.';
    assert LastIndexOf(domain, '.') == d;
  }

  lemma FullMatchIsWellFormed(t: string, at: int, dot: int)
    requires SplitsAt(t, at, dot)
    ensures WellFormedAddress(t)
  {
    SplitAtIsOnlyAt(t, at, dot);
    SplitDomainWellFormed(t, at, dot);
  }

  lemma WellFormedIsFullMatch(t: string)
    requires WellFormedAddress(t)
    ensures FullMatch(t)
  {
    var at := IndexOf(t, '@');
    var domain := t[at + 1..];
    var k := LastIndexOf(domain, '.');
    var dot := at + 1 + k;
    assert t[at + 1..dot] == domain[..k];
    assert t[dot + 1..] == domain[k + 1..];
    assert SplitsAt(t, at, dot);
  }

  /** A string the pattern matches ends with a letter. */
  lemma SplitEndsWithLetter(t: string, at: int, dot: int)
    requires SplitsAt(t, at, dot)
    ensures IsAsciiLetter(t[|t| - 1])
  {
    assert t[dot + 1..][|t| - dot - 2] == t[|t| - 1];
  }

  /** The pattern accepts `s` exactly when it matches all of `s` less one optional final newline:
      a match of the whole string never ends in a newline. */
  lemma ValidMatchesBody(s: string)
    ensures IsValidEmail(s) <==> FullMatch(Body(s))
  {
    if FullMatch(s) {
      var at, dot :| 0 < at < dot < |s| && SplitsAt(s, at, dot);
      SplitEndsWithLetter(s, at, dot);
    }
  }

  /** `is_valid_email(s)` holds exactly when `s`, less one optional final newline, is a well-formed address. */
  lemma ValidIffWellFormed(s: string)
    ensures IsValidEmail(s) <==> WellFormedAddress(Body(s))
  {
    ValidMatchesBody(s);
    if FullMatch(Body(s)) {
      var at, dot :| 0 < at < dot < |Body(s)| && SplitsAt(Body(s), at, dot);
      FullMatchIsWellFormed(Body(s), at, dot);
    }
    if WellFormedAddress(Body(s)) {
      WellFormedIsFullMatch(Body(s));
    }
  }

  /** An address without `@` is rejected. */
  lemma RejectsWithoutAt(s: string)
    requires '@' !in s
    ensures !IsValidEmail(s)
  {
    ValidIffWellFormed(s);
    assert forall i :: 0 <= i < |Body(s)| ==> Body(s)[i] == s[i];
  }

  /** An address whose last character (before an optional newline) is not a letter is rejected:
      the pattern ends with a dotted label of letters. */
  lemma RejectsWithoutFinalLetter(s: string)
    requires |Body(s)| == 0 || !IsAsciiLetter(Body(s)[|Body(s)| - 1])
    ensures !IsValidEmail(s)
  {
    ValidMatchesBody(s);
  }

  /** Lowering keeps every part of a split inside its character class. */
  lemma LowerKeepsSplit(t: string, at: int, dot: int)
    requires SplitsAt(t, at, dot)
    ensures SplitsAt(Lower(t), at, dot)
  {
    var l := Lower(t);
    forall i | 0 <= i < at ensures IsLocalChar(l[..at][i]) {
      assert t[..at][i] == t[i];
      LowerAt(t, i);
    }
    var domain, tld := l[at + 1..dot], l[dot + 1..];
    forall i | 0 <= i < |domain| ensures IsDomainChar(domain[i]) {
      assert t[at + 1..dot][i] == t[at + 1 + i];
      LowerAt(t, at + 1 + i);
    }
    forall i | 0 <= i < |tld| ensures IsAsciiLetter(tld[i]) {
      assert t[dot + 1..][i] == t[dot + 1 + i];
      LowerAt(t, dot + 1 + i);
    }
    LowerAt(t, at);
    LowerAt(t, dot);
  }

  /** No character of a split is whitespace. */
  lemma SplitHasNoWhitespace(t: string, at: int, dot: int)
    requires SplitsAt(t, at, dot)
    ensures forall i :: 0 <= i < |t| ==> !IsWhitespace(t[i])
  {
    forall i | 0 <= i < |t| ensures !IsWhitespace(t[i]) {
      if i < at {
        assert t[..at][i] == t[i];
      } else if at < i < dot {
        assert t[at + 1..dot][i - at - 1] == t[i];
      } else if i > dot {
        assert t[dot + 1..][i - dot - 1] == t[i];
      }
    }
  }

  /** Stripping a string that, apart from one optional final whitespace character, has none
      keeps exactly that non-blank part. */
  lemma StripDropsFinalNewline(l: string, s: string)
    requires |l| > 0 && forall i :: 0 <= i < |l| ==> !IsWhitespace(l[i])
    requires s == l || s == l + "\n"
    ensures Strip(s) == l
  {
    assert TrimStart(s) == s by {
      assert s[0] == l[0];
    }
    var r := TrimEnd(s);
    TrimEndSpec(s);
    assert s[..|l|] == l;
    assert !IsWhitespace(s[|l| - 1]);
    assert |r| >= |l|;
    assert |r| <= |l|;
  }

  /** Lowering commutes with dropping the final newline. */
  lemma LowerOfBody(s: string)
    ensures Lower(s) == Lower(Body(s)) || Lower(s) == Lower(Body(s)) + "\n"
    ensures Lower(s) == Lower(Body(s)) <==> s == Body(s)
  {
    var t := Body(s);
    if s != t {
      LowerFacts(s);
      assert s[..|t|] == t;
      assert Lower(s)[..|t|] == Lower(t);
      LowerAt(s, |t|);
      assert Lower(s)[|t|] == '\n';
      assert Lower(s) == Lower(s)[..|t|] + [Lower(s)[|t|]];
    }
  }

  /** Lowering an address the pattern matches yields an address the pattern matches, ending in
      a letter, and still holding its `@`. */
  lemma LowerKeepsMatch(t: string)
    requires FullMatch(t)
    ensures FullMatch(Lower(t)) && IsValidEmail(Lower(t)) && Body(Lower(t)) == Lower(t)
    ensures '@' in Lower(t)
  {
    var at, dot :| 0 < at < dot < |t| && SplitsAt(t, at, dot);
    var l := Lower(t);
    LowerKeepsSplit(t, at, dot);
    SplitEndsWithLetter(l, at, dot);
    LowerAt(t, at);
  }

  /** What validation guarantees about the key `email.lower().strip()`: it is the address with
      the optional final newline dropped and letters lowered, it has no upper-case letter, it
      still contains `@`, and it is itself a valid address. */
  lemma NormalizeValid(s: string)
    requires IsValidEmail(s)
    ensures Normalize(s) == Lower(Body(s))
    ensures NoUpper(Normalize(s)) && '@' in Normalize(s)
    ensures IsValidEmail(Normalize(s)) && Body(Normalize(s)) == Normalize(s)
  {
    var t := Body(s);
    ValidMatchesBody(s);
    var at, dot :| 0 < at < dot < |t| && SplitsAt(t, at, dot);
    var l := Lower(t);
    LowerKeepsSplit(t, at, dot);
    SplitHasNoWhitespace(l, at, dot);
    LowerOfBody(s);
    StripDropsFinalNewline(l, Lower(s));
    LowerKeepsMatch(t);
    LowerFacts(t);
  }
}
