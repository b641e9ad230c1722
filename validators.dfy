/**
 * The three string helpers of the server: e-mail syntax check, college-domain
 * check and the trim-and-strip sanitiser.
 */
module Validators {

  /** JavaScript's `\s` class; `String.prototype.trim` removes exactly these characters. */
  predicate IsSpace(c: char) {
    || c == '\t' || c == '\n' || c == '\U{000B}' || c == '\U{000C}' || c == '\r' || c == ' '
    || c == '\U{00A0}' || c == '\U{1680}' || ('\U{2000}' <= c <= '\U{200A}')
    || c == '\U{2028}' || c == '\U{2029}' || c == '\U{202F}' || c == '\U{205F}'
    || c == '\U{3000}' || c == '\U{FEFF}'
  }

  predicate AllSpace(s: string) {
    forall k :: 0 <= k < |s| ==> IsSpace(s[k])
  }

  /** Drops the leading white space; what is left starts with a non-space. */
  function TrimStart(s: string): (r: string)
    ensures |r| <= |s|
    ensures r != [] ==> !IsSpace(r[0])
  {
    if s != [] && IsSpace(s[0]) then TrimStart(s[1..]) else s
  }

  /** What `TrimStart` keeps is a suffix of `s`, and what it drops is all white space. */
  lemma {:induction false} TrimStartShape(s: string)
    ensures TrimStart(s) == s[|s| - |TrimStart(s)|..]
    ensures AllSpace(s[..|s| - |TrimStart(s)|])
  {
    if s != [] && IsSpace(s[0]) {
      TrimStartShape(s[1..]);
      var n := |s| - |TrimStart(s)|;
      assert s[1..][n - 1..] == s[n..];
      forall k | 0 <= k < n ensures IsSpace(s[..n][k]) {
        if k > 0 {
          assert s[..n][k] == s[1..][..n - 1][k - 1];
        }
      }
    }
  }

  /** Drops the trailing white space; what is left ends with a non-space. */
  function TrimEnd(s: string): (r: string)
    ensures |r| <= |s|
    ensures r != [] ==> !IsSpace(r[|r| - 1])
  {
    if s != [] && IsSpace(s[|s| - 1]) then TrimEnd(s[..|s| - 1]) else s
  }

  /** What `TrimEnd` keeps is a prefix of `s`, and what it drops is all white space. */
  lemma {:induction false} TrimEndShape(s: string)
    ensures TrimEnd(s) == s[..|TrimEnd(s)|]
    ensures AllSpace(s[|TrimEnd(s)|..])
  {
    if s != [] && IsSpace(s[|s| - 1]) {
      var t := s[..|s| - 1];
      TrimEndShape(t);
      var m := |TrimEnd(s)|;
      assert t[..m] == s[..m];
      forall k | 0 <= k < |s| - m ensures IsSpace(s[m..][k]) {
        if k < |s| - 1 - m {
          assert s[m..][k] == t[m..][k];
        }
      }
    }
  }

  /** Neither end is white space: the shape of every trimmed string. */
  predicate NoEdgeSpace(t: string) {
    t != [] ==> !IsSpace(t[0]) && !IsSpace(t[|t| - 1])
  }

  /** `str.trim()`: the middle of `s` once white space is cut from both ends. */
  function Trim(s: string): (r: string)
    ensures |r| <= |s|
    ensures NoEdgeSpace(r)
  {
    TrimEndShape(TrimStart(s));
    TrimEnd(TrimStart(s))
  }

  /** Number of characters `Trim` cuts from the front. */
  function Leading(s: string): nat {
    |s| - |TrimStart(s)|
  }

  /** `Trim(s)` is the infix of `s` between a white-space prefix and a white-space suffix. */
  lemma TrimIsInfix(s: string)
    ensures Leading(s) + |Trim(s)| <= |s|
    ensures Trim(s) == s[Leading(s)..Leading(s) + |Trim(s)|]
    ensures AllSpace(s[..Leading(s)]) && AllSpace(s[Leading(s) + |Trim(s)|..])
  {
    TrimStartShape(s);
    TrimEndShape(TrimStart(s));
    var t := TrimStart(s);
    var i := Leading(s);
    var n := |Trim(s)|;
    assert t == s[i..];
    assert Trim(s) == t[..n];
    assert t[n..] == s[i + n..];
  }

  /** A white-space prefix followed by a non-space (or the end) is exactly what `TrimStart` drops. */
  lemma {:induction false} TrimStartUnique(s: string, i: nat)
    requires i <= |s| && AllSpace(s[..i])
    requires i < |s| ==> !IsSpace(s[i])
    ensures TrimStart(s) == s[i..]
  {
    if i > 0 {
      assert s[..i][0] == s[0];
      assert s[1..][..i - 1] == s[1..i];
      assert forall k :: 0 <= k < i - 1 ==> s[1..i][k] == s[..i][k + 1];
      TrimStartUnique(s[1..], i - 1);
      assert s[1..][i - 1..] == s[i..];
    }
  }

  /** A non-space (or the start) followed by a white-space suffix is exactly what `TrimEnd` keeps. */
  lemma {:induction false} TrimEndUnique(s: string, j: nat)
    requires j <= |s| && AllSpace(s[j..])
    requires 0 < j ==> !IsSpace(s[j - 1])
    ensures TrimEnd(s) == s[..j]
  {
    if j < |s| {
      var t := s[..|s| - 1];
      assert s[j..][|s| - 1 - j] == s[|s| - 1];
      assert t[j..] == s[j..|s| - 1];
      assert forall k :: 0 <= k < |t| - j ==> t[j..][k] == s[j..][k];
      TrimEndUnique(t, j);
      assert t[..j] == s[..j];
    }
  }

  /**
   * Any split of `s` into white space, a middle with non-space ends, and white
   * space determines `Trim(s)`: the trimmed string is exactly that middle.
   */
  lemma TrimUnique(s: string, i: nat, j: nat)
    requires i <= j <= |s|
    requires AllSpace(s[..i]) && AllSpace(s[j..])
    requires i < j ==> !IsSpace(s[i]) && !IsSpace(s[j - 1])
    ensures Trim(s) == s[i..j]
  {
    if i < j {
      TrimMiddle(s, i, j);
    } else {
      TrimAllSpace(s, i);
    }
  }

  lemma TrimMiddle(s: string, i: nat, j: nat)
    requires i < j <= |s|
    requires AllSpace(s[..i]) && AllSpace(s[j..])
    requires !IsSpace(s[i]) && !IsSpace(s[j - 1])
    ensures Trim(s) == s[i..j]
  {
    TrimStartUnique(s, i);
    TrimEndOfSuffix(s, i, j);
  }

  lemma TrimEndOfSuffix(s: string, i: nat, j: nat)
    requires i < j <= |s|
    requires AllSpace(s[j..]) && !IsSpace(s[j - 1])
    ensures TrimEnd(s[i..]) == s[i..j]
  {
    var t := s[i..];
    assert t[j - i..] == s[j..];
    assert t[j - i - 1] == s[j - 1];
    TrimEndUnique(t, j - i);
    assert t[..j - i] == s[i..j];
  }

  lemma TrimAllSpace(s: string, i: nat)
    requires i <= |s|
    requires AllSpace(s[..i]) && AllSpace(s[i..])
    ensures Trim(s) == []
  {
    assert AllSpace(s) by {
      forall k | 0 <= k < |s| ensures IsSpace(s[k]) {
        if k < i {
          assert s[..i][k] == s[k];
        } else {
          assert s[i..][k - i] == s[k];
        }
      }
    }
    TrimStartUnique(s, |s|);
  }

  /** Trimming leaves a string without edge white space unchanged. */
  lemma TrimKeeps(t: string)
    requires NoEdgeSpace(t)
    ensures Trim(t) == t
  {
    TrimUnique(t, 0, |t|);
    assert t[0..|t|] == t;
  }

  lemma TrimIdempotent(s: string)
    ensures Trim(Trim(s)) == Trim(s)
  {
    TrimKeeps(Trim(s));
  }

  predicate IsAngle(c: char) {
    c == '<' || c == '>'
  }

  /** `.replace(/[<>]/g, "")`: every `<` and `>` deleted, everything else kept in order. */
  function StripAngles(s: string): (r: string)
    ensures |r| <= |s|
    ensures forall k :: 0 <= k < |r| ==> !IsAngle(r[k])
  {
    if s == [] then [] else (if IsAngle(s[0]) then [] else [s[0]]) + StripAngles(s[1..])
  }

  /** Deletion is character by character, so it distributes over concatenation (order is kept). */
  lemma {:induction false} StripAnglesAppend(a: string, b: string)
    ensures StripAngles(a + b) == StripAngles(a) + StripAngles(b)
  {
    if a == [] {
      assert a + b == b;
    } else {
      assert (a + b)[0] == a[0];
      assert (a + b)[1..] == a[1..] + b;
      StripAnglesAppend(a[1..], b);
    }
  }

  /** Each non-angle character survives as often as it occurs; angle brackets never do. */
  lemma {:induction false} StripAnglesCounts(s: string, c: char)
    ensures multiset(StripAngles(s))[c] == if IsAngle(c) then 0 else multiset(s)[c]
  {
    if s != [] {
      StripAnglesCounts(s[1..], c);
      assert s == [s[0]] + s[1..];
    }
  }

  /** A string without angle brackets is left alone. */
  lemma {:induction false} StripAnglesKeeps(s: string)
    requires forall k :: 0 <= k < |s| ==> !IsAngle(s[k])
    ensures StripAngles(s) == s
  {
    if s != [] {
      StripAnglesKeeps(s[1..]);
    }
  }

  /** `sanitizeString`: trim first, then delete the angle brackets. */
  function SanitizeString(s: string): (r: string)
    ensures |r| <= |s|
    ensures forall k :: 0 <= k < |r| ==> !IsAngle(r[k])
  {
    StripAngles(Trim(s))
  }

  /** The output is the trimmed input with the brackets deleted, character counts included. */
  lemma SanitizeStringCounts(s: string, c: char)
    ensures multiset(SanitizeString(s))[c] == if IsAngle(c) then 0 else multiset(Trim(s))[c]
  {
    StripAnglesCounts(Trim(s), c);
  }

  /**
   * Trimming happens before the deletion, so a bracket can shield white space:
   * "< a" sanitises to " a", which sanitises again to "a".
   */
  lemma SanitizeStringMayKeepEdgeSpace()
    ensures SanitizeString("< a") == " a"
    ensures SanitizeString(" a") == "a"
  {
    SanitizeBracketed();
    SanitizeSpaced();
  }

  lemma SanitizeBracketed()
    ensures SanitizeString("< a") == " a"
  {
    TrimBracketed();
    StripAnglesBracketed();
  }

  lemma SanitizeSpaced()
    ensures SanitizeString(" a") == "a"
  {
    TrimSpaced();
    StripAnglesLetter();
  }

  lemma TrimBracketed()
    ensures Trim("< a") == "< a"
  {
    TrimUnique("< a", 0, 3);
    assert "< a"[0..3] == "< a";
  }

  lemma TrimSpaced()
    ensures Trim(" a") == "a"
  {
    TrimUnique(" a", 1, 2);
  }

  lemma StripAnglesLetter()
    ensures StripAngles("a") == "a"
  {
    assert "a"[1..] == [];
  }

  lemma StripAnglesBracketed()
    ensures StripAngles("< a") == " a"
  {
    StripAnglesLetter();
    assert " a"[1..] == "a";
    assert "< a"[1..] == " a";
    assert StripAngles(" a") == [' '] + StripAngles("a");
  }

  /** `validateCollegeDomain`: `email.endsWith(domain)`. */
  function ValidateCollegeDomain(email: string, domain: string): bool {
    |domain| <= |email| && email[|email| - |domain|..] == domain
  }

  /** Accepted exactly when the domain is a suffix; the empty domain is always a suffix. */
  lemma CollegeDomainIsSuffix(email: string, domain: string, prefix: string)
    ensures ValidateCollegeDomain(prefix + domain, domain)
    ensures ValidateCollegeDomain(email, domain) ==> email == email[..|email| - |domain|] + domain
    ensures ValidateCollegeDomain(email, [])
  {
    var e := prefix + domain;
    assert e[|e| - |domain|..] == domain;
    assert email[|email|..] == [];
  }

  /** `[^\s@]`: a character the e-mail pattern allows inside its three parts. */
  predicate IsPartChar(c: char) {
    !IsSpace(c) && c != '@'
  }

  predicate AllPartChars(s: string) {
    forall k :: 0 <= k < |s| ==> IsPartChar(s[k])
  }

  /** `[^\s@]+` */
  predicate IsPart(s: string) {
    |s| > 0 && AllPartChars(s)
  }

  /**
   * The language of `/^[^\s@]+@[^\s@]+\.[^\s@]+$/`: an `@` at i and a `.` at j
   * split the string into three non-empty parts free of white space and `@`.
   */
  ghost predicate MatchesEmailPattern(e: string) {
    exists i, j :: 0 < i < j < |e| && e[i] == '@' && e[j] == '.'
      && IsPart(e[..i]) && IsPart(e[i + 1..j]) && IsPart(e[j + 1..])
  }

  /** Position of the first `c` in `s`, or `|s|` when there is none. */
  function IndexOf(s: string, c: char): (i: nat)
    ensures i <= |s|
    ensures i < |s| ==> s[i] == c
    ensures forall k :: 0 <= k < i ==> s[k] != c
  {
    if s == [] then 0 else if s[0] == c then 0 else 1 + IndexOf(s[1..], c)
  }

  /** Some `.` in `d` has at least one character on each side. */
  predicate HasInnerDot(d: string) {
    exists k :: 0 < k < |d| - 1 && d[k] == '.'
  }

  /**
   * `validateEmail`: no white space, one `@` with a non-empty local part before
   * it, and a domain after it that holds a `.` with characters on both sides.
   */
  function ValidateEmail(e: string): bool {
    var at := IndexOf(e, '@');
    && 0 < at < |e|
    && IsPart(e[..at])
    && AllPartChars(e[at + 1..])
    && HasInnerDot(e[at + 1..])
  }

  lemma ValidateEmailIsMatch(e: string)
    requires ValidateEmail(e)
    ensures MatchesEmailPattern(e)
  {
    var at := IndexOf(e, '@');
    var d := e[at + 1..];
    var k :| 0 < k < |d| - 1 && d[k] == '.';
    var j := at + 1 + k;
    assert e[j] == '.';
    assert e[at + 1..j] == d[..k];
    assert e[j + 1..] == d[k + 1..];
    assert IsPart(e[at + 1..j]) && IsPart(e[j + 1..]);
  }

  lemma MatchIsValidEmail(e: string, i: nat, j: nat)
    requires 0 < i < j < |e| && e[i] == '@' && e[j] == '.'
    requires IsPart(e[..i]) && IsPart(e[i + 1..j]) && IsPart(e[j + 1..])
    ensures ValidateEmail(e)
  {
    var at := IndexOf(e, '@');
    assert forall k :: 0 <= k < i ==> e[k] == e[..i][k];
    assert at == i;
    var d := e[i + 1..];
    forall k | 0 <= k < |d| ensures IsPartChar(d[k]) {
      if k < j - i - 1 {
        assert d[k] == e[i + 1..j][k];
      } else if k > j - i - 1 {
        assert d[k] == e[j + 1..][k - (j - i)];
      }
    }
    assert d[j - i - 1] == '.';
  }

  /** The executable check accepts exactly the strings the regular expression matches. */
  lemma ValidateEmailMatchesPattern(e: string)
    ensures ValidateEmail(e) <==> MatchesEmailPattern(e)
  {
    if ValidateEmail(e) {
      ValidateEmailIsMatch(e);
    }
    if MatchesEmailPattern(e) {
      var i, j :| 0 < i < j < |e| && e[i] == '@' && e[j] == '.'
        && IsPart(e[..i]) && IsPart(e[i + 1..j]) && IsPart(e[j + 1..]);
      MatchIsValidEmail(e, i, j);
    }
  }

  /** In particular an accepted address holds exactly one `@` and no white space. */
  lemma ValidEmailShape(e: string, k: nat)
    requires ValidateEmail(e) && k < |e|
    ensures !IsSpace(e[k])
    ensures e[k] == '@' <==> k == IndexOf(e, '@')
  {
    if k != IndexOf(e, '@') {
      ValidEmailPartChar(e, k);
    }
  }

  /** Every character of an accepted address but its `@` is allowed inside a part. */
  lemma ValidEmailPartChar(e: string, k: nat)
    requires ValidateEmail(e) && k < |e| && k != IndexOf(e, '@')
    ensures IsPartChar(e[k])
  {
    var at := IndexOf(e, '@');
    if k < at {
      assert AllPartChars(e[..at]);
      assert e[..at][k] == e[k];
    } else {
      var d := e[at + 1..];
      assert AllPartChars(d);
      assert d[k - at - 1] == e[k];
    }
  }
}
