/**
 * The handful of string operations the response-sheet engine relies on, written
 * out by hand: JavaScript's `trim`, `includes`/`indexOf`, ASCII lower-casing,
 * leading digit runs (`\d+`) and `parseInt` with the default radix.
 */
module Strings {
  import opened Wrappers

  /** The characters JavaScript's `String.prototype.trim` removes (WhiteSpace and LineTerminator). */
  predicate IsSpace(c: char) {
    || c == '\t' || c == '\n' || c == '\U{000B}' || c == '\U{000C}' || c == '\r' || c == ' '
    || c == '\U{00A0}' || c == '\U{1680}' || ('\U{2000}' <= c <= '\U{200A}')
    || c == '\U{2028}' || c == '\U{2029}' || c == '\U{202F}' || c == '\U{205F}'
    || c == '\U{3000}' || c == '\U{FEFF}'
  }

  predicate AllSpace(s: string) {
    forall k :: 0 <= k < |s| ==> IsSpace(s[k])
  }

  /** Index of the first non-space character (or |s|). */
  function SpanStart(s: string): (a: nat)
    ensures a <= |s|
    ensures a == |s| || !IsSpace(s[a])
  {
    if |s| == 0 || !IsSpace(s[0]) then 0
    else 1 + SpanStart(s[1..])
  }

  /** Everything before the first non-space character is white space. */
  lemma {:induction false} SpanStartSpaces(s: string)
    ensures AllSpace(s[..SpanStart(s)])
  {
    if |s| > 0 && IsSpace(s[0]) {
      SpanStartSpaces(s[1..]);
      assert s[..SpanStart(s)] == [s[0]] + s[1..][..SpanStart(s[1..])];
    }
  }

  /** Index one past the last non-space character of `s` at or after `a` (or `a`). */
  function SpanEnd(s: string, a: nat): (b: nat)
    requires a <= |s|
    ensures a <= b <= |s|
    ensures b == a || !IsSpace(s[b - 1])
    decreases |s|
  {
    if |s| == a || !IsSpace(s[|s| - 1]) then |s|
    else SpanEnd(s[..|s| - 1], a)
  }

  /** Everything after the last non-space character is white space. */
  lemma {:induction false} SpanEndSpaces(s: string, a: nat)
    requires a <= |s|
    ensures AllSpace(s[SpanEnd(s, a)..])
    decreases |s|
  {
    if |s| > a && IsSpace(s[|s| - 1]) {
      var b := SpanEnd(s[..|s| - 1], a);
      SpanEndSpaces(s[..|s| - 1], a);
      assert s[b..] == s[..|s| - 1][b..] + [s[|s| - 1]];
    }
  }

  /** JavaScript `s.trim()`: the text between the leading and trailing white space. */
  function Trim(s: string): (r: string)
    ensures |r| <= |s|
    ensures |r| > 0 ==> !IsSpace(r[0]) && !IsSpace(r[|r| - 1])
  {
    var a := SpanStart(s);
    s[a..SpanEnd(s, a)]
  }

  /** What trimming drops is white space on either side: the result sits inside `s` unchanged. */
  lemma TrimDropsOnlySpace(s: string)
    ensures exists a: nat :: a + |Trim(s)| <= |s| && s[a..a + |Trim(s)|] == Trim(s)
                             && AllSpace(s[..a]) && AllSpace(s[a + |Trim(s)|..])
  {
    var a := SpanStart(s);
    SpanStartSpaces(s);
    SpanEndSpaces(s, a);
    assert s[a..a + |Trim(s)|] == Trim(s);
  }

  /** Trimming text that neither starts nor ends with white space changes nothing. */
  lemma TrimUnpadded(s: string)
    requires |s| > 0 ==> !IsSpace(s[0]) && !IsSpace(s[|s| - 1])
    ensures Trim(s) == s
  {
    assert SpanStart(s) == 0;
    assert s[0..] == s;
  }

  /** Trimming removes surrounding white space. */
  lemma TrimPadded(s: string, left: string, right: string)
    requires |s| > 0 && !IsSpace(s[0]) && !IsSpace(s[|s| - 1])
    requires AllSpace(left) && AllSpace(right)
    ensures Trim(left + s + right) == s
  {
    var t := left + s + right;
    var a := SpanStart(t);
    SpanStartSpaces(t);
    assert t[|left|] == s[0];
    assert AllSpace(t[..|left|]) by { assert t[..|left|] == left; }
    assert a == |left|;
    var b := SpanEnd(t, a);
    SpanEndSpaces(t, a);
    assert t[|left| + |s| - 1] == s[|s| - 1];
    assert AllSpace(t[|left| + |s|..]) by { assert t[|left| + |s|..] == right; }
    assert b == |left| + |s|;
    assert t[a..b] == s;
  }

  /** `t` occurs in `s` starting at index `i`. */
  predicate OccursAt(s: string, t: string, i: nat) {
    i + |t| <= |s| && s[i..i + |t|] == t
  }

  predicate StartsWith(s: string, prefix: string) {
    |prefix| <= |s| && s[..|prefix|] == prefix
  }

  /** A string starts with `x + y` iff it starts with `x` and continues with `y`. */
  lemma StartsWithAppend(s: string, x: string, y: string)
    ensures StartsWith(s, x + y) <==> StartsWith(s, x) && StartsWith(s[|x|..], y)
  {
    if StartsWith(s, x) && StartsWith(s[|x|..], y) {
      assert s[..|x + y|] == s[..|x|] + s[|x|..][..|y|];
    }
    if StartsWith(s, x + y) {
      assert s[..|x|] == (x + y)[..|x|];
      assert s[|x|..][..|y|] == (x + y)[|x|..];
    }
  }

  /** The first index at or after `from` where `t` occurs in `s` (JavaScript `indexOf`). */
  function IndexOfFrom(s: string, t: string, from: nat): (r: Option<nat>)
    ensures r.Some? ==> from <= r.value && OccursAt(s, t, r.value)
    ensures r.Some? ==> forall j :: from <= j < r.value ==> !OccursAt(s, t, j)
    ensures r.None? ==> forall j :: from <= j ==> !OccursAt(s, t, j)
    decreases |s| - from
  {
    if from + |t| > |s| then None
    else if OccursAt(s, t, from) then Some(from)
    else IndexOfFrom(s, t, from + 1)
  }

  /** JavaScript `s.includes(t)`. */
  predicate Contains(s: string, t: string) {
    IndexOfFrom(s, t, 0).Some?
  }

  lemma ContainsIff(s: string, t: string)
    ensures Contains(s, t) <==> exists i :: OccursAt(s, t, i)
  {
    var r := IndexOfFrom(s, t, 0);
    if r.Some? {
      assert OccursAt(s, t, r.value);
    }
  }

  /** ASCII lower-casing of one character. */
  function LowerChar(c: char): char {
    if 'A' <= c <= 'Z' then (c as int + 32) as char else c
  }

  /** `s.toLowerCase()` restricted to ASCII letters; every other character is kept. */
  function Lower(s: string): (r: string)
    ensures |r| == |s|
    ensures forall k :: 0 <= k < |s| ==> r[k] == LowerChar(s[k])
  {
    seq(|s|, k requires 0 <= k < |s| => LowerChar(s[k]))
  }

  /** Lower-casing is idempotent: lowered text has no upper-case letter left. */
  lemma LowerIdempotent(s: string)
    ensures Lower(Lower(s)) == Lower(s)
    ensures forall k :: 0 <= k < |s| ==> !('A' <= Lower(s)[k] <= 'Z')
  {
  }

  /** Lower-casing commutes with slicing. */
  lemma LowerSlice(s: string, i: nat, j: nat)
    requires i <= j <= |s|
    ensures Lower(s[i..j]) == Lower(s)[i..j]
  {
  }

  predicate IsDigit(c: char) {
    '0' <= c <= '9'
  }

  predicate AllDigits(s: string) {
    forall k :: 0 <= k < |s| ==> IsDigit(s[k])
  }

  /** Length of the run of decimal digits in `s` starting at `i` (what a greedy `\d+` consumes). */
  function DigitRun(s: string, i: nat): (n: nat)
    requires i <= |s|
    ensures i + n <= |s|
    ensures AllDigits(s[i..i + n])
    ensures i + n == |s| || !IsDigit(s[i + n])
    decreases |s| - i
  {
    if i == |s| || !IsDigit(s[i]) then 0
    else
      var n := 1 + DigitRun(s, i + 1);
      assert s[i..i + n] == [s[i]] + s[i + 1..i + n];
      n
  }

  /** A digit run is determined by where it stops: a run of `n` digits followed by a non-digit is the greedy one. */
  lemma {:induction false} DigitRunExact(s: string, i: nat, n: nat)
    requires i + n <= |s|
    requires AllDigits(s[i..i + n])
    requires i + n == |s| || !IsDigit(s[i + n])
    ensures DigitRun(s, i) == n
    decreases n
  {
    if n > 0 {
      assert IsDigit(s[i..i + n][0]);
      assert s[i + 1..i + n] == s[i..i + n][1..];
      DigitRunExact(s, i + 1, n - 1);
    }
  }

  /** The greedy digit run at the front of `d + rest` is exactly `d` when `rest` does not start with a digit. */
  lemma DigitRunOfPrefix(d: string, rest: string)
    requires AllDigits(d)
    requires |rest| == 0 || !IsDigit(rest[0])
    ensures DigitRun(d + rest, 0) == |d|
  {
    var s := d + rest;
    assert s[0..|d|] == d;
    DigitRunExact(s, 0, |d|);
  }

  /** Decimal value of a digit string. */
  function DigitsValue(d: string): (v: nat)
    requires AllDigits(d)
  {
    if |d| == 0 then 0
    else DigitsValue(d[..|d| - 1]) * 10 + (d[|d| - 1] as int - '0' as int)
  }

  /** An optional sign, then the longest run of decimal digits; None when no digit follows the sign. */
  function ParseSigned(t: string): (r: Option<int>)
    ensures r.Some? ==> |t| > 0 && (IsDigit(t[0]) || t[0] in "+-")
  {
    var signLen := if |t| > 0 && (t[0] == '+' || t[0] == '-') then 1 else 0;
    var n := DigitRun(t, signLen);
    if n == 0 then None
    else
      var v: int := DigitsValue(t[signLen..signLen + n]);
      Some(if signLen == 1 && t[0] == '-' then 0 - v else v)
  }

  /**
   * JavaScript `parseInt(s)` with no radix: leading white space, an optional sign, then the
   * longest run of decimal digits. None stands for NaN (no digit after the sign).
   */
  function ParseInt(s: string): (r: Option<int>)
    ensures r.Some? ==> SpanStart(s) < |s| && (IsDigit(s[SpanStart(s)]) || s[SpanStart(s)] in "+-")
  {
    ParseSigned(s[SpanStart(s)..])
  }

  /** Text that does not start with white space has nothing to skip. */
  lemma SpanStartUnpadded(s: string)
    requires |s| > 0 && !IsSpace(s[0])
    ensures SpanStart(s) == 0 && s[SpanStart(s)..] == s
  {
  }

  /** An unsigned digit run followed by a non-digit reads as its decimal value. */
  lemma ParseSignedOfDigits(d: string, rest: string)
    requires |d| > 0 && AllDigits(d)
    requires |rest| == 0 || !IsDigit(rest[0])
    ensures ParseSigned(d + rest) == Some(DigitsValue(d))
  {
    var t := d + rest;
    assert t[0] == d[0] && IsDigit(t[0]) && t[0] != '+' && t[0] != '-';
    DigitRunOfPrefix(d, rest);
    assert t[0..|d|] == d;
  }

  /** `parseInt` reads back a digit string that is not followed by another digit. */
  lemma ParseIntOfDigits(d: string, rest: string)
    requires |d| > 0 && AllDigits(d)
    requires |rest| == 0 || !IsDigit(rest[0])
    ensures ParseInt(d + rest) == Some(DigitsValue(d))
  {
    var s := d + rest;
    assert s[0] == d[0] && IsDigit(s[0]) && !IsSpace(s[0]);
    SpanStartUnpadded(s);
    ParseSignedOfDigits(d, rest);
  }

}
