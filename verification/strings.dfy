/** String helpers shared by the middleware and the controllers. Strings are
    sequences of characters; JavaScript's `toLowerCase` is modelled on the
    ASCII letters only. */
module Strings {
  import opened Wrappers

  predicate IsUpper(c: char)
  {
    'A' <= c <= 'Z'
  }

  /** JavaScript lower-casing of one character, restricted to ASCII. */
  function LowerChar(c: char): char
  {
    if IsUpper(c) then (c as int + 32) as char else c
  }

  /** `s.toLowerCase()`, character by character. */
  function Lower(s: string): string
  {
    seq(|s|, i requires 0 <= i < |s| => LowerChar(s[i]))
  }

  /** Lower-casing commutes with slicing. */
  lemma LowerSlice(s: string, a: nat, b: nat)
    requires a <= b <= |s|
    ensures Lower(s)[a..b] == Lower(s[a..b])
  {
  }

  /** Lower-casing leaves a string without upper-case letters unchanged. */
  lemma LowerOfLowerCase(s: string)
    requires forall i :: 0 <= i < |s| ==> !IsUpper(s[i])
    ensures Lower(s) == s
  {
  }

  /** `t` occurs in `s` starting at index `i`. */
  predicate OccursAt(s: string, t: string, i: nat)
  {
    i <= |s| && |t| <= |s| - i && s[i..i + |t|] == t
  }

  /** `t` is a substring of `s`. */
  predicate Contains(s: string, t: string)
  {
    exists i :: 0 <= i <= |s| && OccursAt(s, t, i)
  }

  /** Index of the last `c` in s[lo..hi], or None (JavaScript `lastIndexOf`
      restricted to a window). */
  function LastIndexOf(s: string, c: char, lo: nat, hi: nat): (r: Option<nat>)
    requires lo <= hi <= |s|
    ensures r.Some? ==> lo <= r.value < hi && s[r.value] == c
    ensures r.Some? ==> forall j :: r.value < j < hi ==> s[j] != c
    ensures r.None? <==> forall j :: lo <= j < hi ==> s[j] != c
    decreases hi - lo
  {
    if hi == lo then None
    else if s[hi - 1] == c then Some(hi - 1)
    else LastIndexOf(s, c, lo, hi - 1)
  }

  /** Index of the first `c` in s[lo..], or None (JavaScript `indexOf`). */
  function IndexOf(s: string, c: char, lo: nat): (r: Option<nat>)
    requires lo <= |s|
    ensures r.Some? ==> lo <= r.value < |s| && s[r.value] == c
    ensures r.Some? ==> forall j :: lo <= j < r.value ==> s[j] != c
    ensures r.None? <==> forall j :: lo <= j < |s| ==> s[j] != c
    decreases |s| - lo
  {
    if lo == |s| then None
    else if s[lo] == c then Some(lo)
    else IndexOf(s, c, lo + 1)
  }

  /** A search for a character that lower-casing neither creates nor destroys
      gives the same answer on the lower-cased string. */
  lemma LastIndexOfLower(s: string, c: char, lo: nat, hi: nat)
    requires lo <= hi <= |s|
    requires !IsUpper(c) && !('a' <= c <= 'z')
    ensures LastIndexOf(Lower(s), c, lo, hi) == LastIndexOf(s, c, lo, hi)
  {
    assert forall j :: 0 <= j < |s| ==> (Lower(s)[j] == c <==> s[j] == c);
  }

  // ---------------------------------------------------------------------
  // Decimal rendering of non-negative integers, as `${n}` for a JavaScript
  // number below 10^21.

  predicate IsDigit(c: char)
  {
    '0' <= c <= '9'
  }

  predicate IsDigits(s: string)
  {
    forall i :: 0 <= i < |s| ==> IsDigit(s[i])
  }

  function DigitChar(d: nat): (c: char)
    requires d < 10
    ensures IsDigit(c)
  {
    ('0' as int + d) as char
  }

  function DigitValue(c: char): (d: nat)
    requires IsDigit(c)
    ensures d < 10
  {
    c as int - '0' as int
  }

  /** The shortest decimal rendering of `n`, most significant digit first. */
  function NatToDecimal(n: nat): (s: string)
    ensures 1 <= |s| && IsDigits(s)
    ensures |s| > 1 ==> s[0] != '0'
  {
    if n < 10 then [DigitChar(n)]
    else NatToDecimal(n / 10) + [DigitChar(n % 10)]
  }

  /** The number a string of decimal digits denotes. */
  function DecimalValue(s: string): nat
    requires IsDigits(s)
  {
    if |s| == 0 then 0
    else DecimalValue(s[..|s| - 1]) * 10 + DigitValue(s[|s| - 1])
  }

  /** Reading back a rendered number gives the number. */
  lemma {:induction false} DecimalRoundTrip(n: nat)
    ensures DecimalValue(NatToDecimal(n)) == n
  {
    if n >= 10 {
      var s := NatToDecimal(n);
      assert s[..|s| - 1] == NatToDecimal(n / 10);
      DecimalRoundTrip(n / 10);
    }
  }
}
