/**
 * The two ways the server measures a string. Mongoose's `maxlength` reads
 * JavaScript's `length`, which counts UTF-16 code units, so a character
 * outside the Basic Multilingual Plane counts twice. express-validator's
 * `isLength` counts such a character once and does not count the variation
 * selectors U+FE0E and U+FE0F at all.
 */
module Lengths {

  /** UTF-16 code units of one character: a surrogate pair above U+FFFF. */
  function Units(c: char): nat {
    if c >= '\U{10000}' then 2 else 1
  }

  /** JavaScript's `s.length`. */
  function Utf16Len(s: string): (n: nat)
    ensures |s| <= n <= 2 * |s|
  {
    if s == [] then 0 else Units(s[0]) + Utf16Len(s[1..])
  }

  predicate IsVariationSelector(c: char) {
    c == '\U{FE0E}' || c == '\U{FE0F}'
  }

  /** The length `isLength` compares: characters, less the variation selectors. */
  function CharLen(s: string): (n: nat)
    ensures n <= |s|
  {
    if s == [] then 0 else (if IsVariationSelector(s[0]) then 0 else 1) + CharLen(s[1..])
  }

  /** Only characters of the Basic Multilingual Plane, and no variation selector. */
  predicate Plain(s: string) {
    forall k :: 0 <= k < |s| ==> s[k] < '\U{10000}' && !IsVariationSelector(s[k])
  }

  /** On a plain string the two measures agree with the number of characters. */
  lemma {:induction false} PlainLengths(s: string)
    requires Plain(s)
    ensures Utf16Len(s) == |s| && CharLen(s) == |s|
  {
    if s != [] {
      assert s[0] < '\U{10000}' && !IsVariationSelector(s[0]);
      assert forall k :: 0 <= k < |s| - 1 ==> s[1..][k] == s[k + 1];
      PlainLengths(s[1..]);
    }
  }

  /** Code units add up over a concatenation. */
  lemma {:induction false} Utf16LenAppend(a: string, b: string)
    ensures Utf16Len(a + b) == Utf16Len(a) + Utf16Len(b)
  {
    if a != [] {
      assert (a + b)[0] == a[0];
      assert (a + b)[1..] == a[1..] + b;
      Utf16LenAppend(a[1..], b);
    } else {
      assert a + b == b;
    }
  }

  /** `n` copies of `c`. */
  function Repeat(c: char, n: nat): (s: string)
    ensures |s| == n
    ensures forall k :: 0 <= k < n ==> s[k] == c
  {
    if n == 0 then [] else [c] + Repeat(c, n - 1)
  }

  /** Both measures of a run of one character. */
  lemma {:induction false} RepeatLengths(c: char, n: nat)
    ensures Utf16Len(Repeat(c, n)) == n * Units(c)
    ensures CharLen(Repeat(c, n)) == if IsVariationSelector(c) then 0 else n
  {
    if n > 0 {
      var s := Repeat(c, n);
      assert s[0] == c && s[1..] == Repeat(c, n - 1);
      RepeatLengths(c, n - 1);
    }
  }
}
