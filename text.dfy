/** String primitives the search code relies on: lower-casing, substring
    containment, whitespace trimming and decimal rendering of numbers. */
module Text {

  /** ASCII lower-casing of one character. It stands for both
      `String.prototype.toLowerCase` and the case folding of Postgres ILIKE;
      letters outside A-Z are left as they are. */
  function LowerChar(c: char): char {
    if 'A' <= c <= 'Z' then (c as int + 32) as char else c
  }

  function Lower(s: string): (r: string)
    ensures |r| == |s|
    ensures forall i :: 0 <= i < |s| ==> r[i] == LowerChar(s[i])
  {
    seq(|s|, i requires 0 <= i < |s| => LowerChar(s[i]))
  }

  /** Lower-casing distributes over concatenation. */
  lemma LowerConcat(a: string, b: string)
    ensures Lower(a + b) == Lower(a) + Lower(b)
  {
    assert forall i :: 0 <= i < |a + b| ==> Lower(a + b)[i] == (Lower(a) + Lower(b))[i];
  }

  /** `t` occurs in `s` starting at index `k`. */
  ghost predicate OccursAt(t: string, s: string, k: int) {
    0 <= k && k + |t| <= |s| && s[k..k + |t|] == t
  }

  ghost predicate IsSubstring(t: string, s: string) {
    exists k :: OccursAt(t, s, k)
  }

  /** `s.includes(t)`: true exactly when `t` occurs somewhere in `s`. */
  function Includes(s: string, t: string): (b: bool)
    ensures b <==> IsSubstring(t, s)
    decreases |s|
  {
    if |t| > |s| then false
    else if s[..|t|] == t then (assert OccursAt(t, s, 0); true)
    else
      var rest := Includes(s[1..], t);
      assert rest ==> IsSubstring(t, s) by {
        if rest {
          var k :| OccursAt(t, s[1..], k);
          assert s[k + 1..k + 1 + |t|] == s[1..][k..k + |t|];
          assert OccursAt(t, s, k + 1);
        }
      }
      assert IsSubstring(t, s) ==> rest by {
        if IsSubstring(t, s) {
          var k :| OccursAt(t, s, k);
          assert k != 0;
          assert s[1..][k - 1..k - 1 + |t|] == s[k..k + |t|];
          assert OccursAt(t, s[1..], k - 1);
        }
      }
      rest
  }

  /** An occurrence inside a middle piece is an occurrence in the whole. */
  lemma OccursInConcat(t: string, a: string, b: string, c: string, k: int)
    requires OccursAt(t, b, k)
    ensures OccursAt(t, a + b + c, |a| + k)
  {
    assert (a + b + c)[|a| + k..|a| + k + |t|] == b[k..k + |t|];
  }

  /** An occurrence survives lower-casing of both sides. */
  lemma OccursLower(t: string, s: string, k: int)
    requires OccursAt(t, s, k)
    ensures OccursAt(Lower(t), Lower(s), k)
  {
    assert Lower(s)[k..k + |t|] == Lower(t) by {
      forall i | 0 <= i < |t|
        ensures Lower(s)[k..k + |t|][i] == Lower(t)[i]
      {
        assert s[k + i] == t[i];
      }
    }
  }

  /** The characters `String.prototype.trim` removes: ECMAScript WhiteSpace
      (tab, vertical tab, form feed, zero-width no-break space and the
      space separators) and LineTerminator (LF, CR, U+2028, U+2029). */
  predicate IsSpace(c: char) {
    c == ' ' || c == '\t' || c == '\n' || c == '\r'
    || c == '\U{000B}' || c == '\U{000C}' || c == '\U{00A0}' || c == '\U{FEFF}'
    || c == '\U{1680}' || ('\U{2000}' <= c <= '\U{200A}') || c == '\U{2028}'
    || c == '\U{2029}' || c == '\U{202F}' || c == '\U{205F}' || c == '\U{3000}'
  }

  predicate AllSpace(s: string) {
    forall i :: 0 <= i < |s| ==> IsSpace(s[i])
  }

  /** The index of the first non-space character at or after `k`, or `|s|`. */
  function SkipSpaces(s: string, k: nat): (r: nat)
    requires k <= |s|
    ensures k <= r <= |s|
    ensures forall j :: k <= j < r ==> IsSpace(s[j])
    ensures r < |s| ==> !IsSpace(s[r])
    decreases |s| - k
  {
    if k < |s| && IsSpace(s[k]) then SkipSpaces(s, k + 1) else k
  }

  /** The index just after the last non-space character before `e`, or 0. */
  function SkipSpacesBack(s: string, e: nat): (r: nat)
    requires e <= |s|
    ensures r <= e
    ensures forall j :: r <= j < e ==> IsSpace(s[j])
    ensures r > 0 ==> !IsSpace(s[r - 1])
  {
    if e > 0 && IsSpace(s[e - 1]) then SkipSpacesBack(s, e - 1) else e
  }

  /** `r` is the slice of `s` at `i`, and everything around it is space. */
  ghost predicate TrimmedAt(s: string, r: string, i: int) {
    0 <= i && i + |r| <= |s| && r == s[i..i + |r|]
    && (forall j :: 0 <= j < i ==> IsSpace(s[j]))
    && (forall j :: i + |r| <= j < |s| ==> IsSpace(s[j]))
  }

  /** `s.trim()`: `s` without its leading and trailing whitespace, that is
      the slice of `s` between the first and the last non-space character. */
  function Trim(s: string): (r: string)
    ensures exists i :: TrimmedAt(s, r, i)
    ensures r != [] ==> !IsSpace(r[0]) && !IsSpace(r[|r| - 1])
    ensures r == [] <==> AllSpace(s)
  {
    var a := SkipSpaces(s, 0);
    if a == |s| then
      var r: string := [];
      assert TrimmedAt(s, r, 0);
      r
    else
      var b := SkipSpacesBack(s, |s|);
      assert a < b by { assert !IsSpace(s[a]); }
      assert !AllSpace(s) by { assert !IsSpace(s[a]); }
      var r := s[a..b];
      assert TrimmedAt(s, r, a);
      r
  }

  /** Trimming twice is trimming once. */
  lemma TrimIdempotent(s: string)
    ensures Trim(Trim(s)) == Trim(s)
  {
    var r := Trim(s);
    if r != [] {
      assert SkipSpaces(r, 0) == 0;
      assert SkipSpacesBack(r, |r|) == |r|;
    }
  }

  function DigitChar(d: nat): (c: char)
    requires d < 10
    ensures '0' <= c <= '9'
  {
    ('0' as int + d) as char
  }

  function DigitValue(c: char): nat
    requires '0' <= c <= '9'
  {
    c as int - '0' as int
  }

  predicate IsDigits(s: string) {
    forall i :: 0 <= i < |s| ==> '0' <= s[i] <= '9'
  }

  /** `n.toString()` for a non-negative integer: its decimal digits, most
      significant first, with no leading zero. */
  function NatToDecimal(n: nat): (r: string)
    ensures r != [] && IsDigits(r)
    ensures |r| > 1 ==> r[0] != '0'
    decreases n
  {
    if n < 10 then [DigitChar(n)] else NatToDecimal(n / 10) + [DigitChar(n % 10)]
  }

  /** The value of a string of decimal digits. */
  function DecimalValue(s: string): nat
    requires IsDigits(s)
  {
    if s == [] then 0 else 10 * DecimalValue(s[..|s| - 1]) + DigitValue(s[|s| - 1])
  }

  /** Rendering a number in decimal and reading it back gives the number. */
  lemma {:induction false} DecimalRoundTrip(n: nat)
    ensures DecimalValue(NatToDecimal(n)) == n
    decreases n
  {
    var r := NatToDecimal(n);
    if n >= 10 {
      DecimalRoundTrip(n / 10);
      assert r[..|r| - 1] == NatToDecimal(n / 10);
    }
  }
}
