/** ASCII models of the JavaScript string operations that the validation engine
    relies on: `String.prototype.trim`, `String.prototype.toLowerCase`, and the
    `Number(...)` coercion of an age cell, restricted to decimal integers. */
module Text {
  import opened Wrappers

  // ─── trim ──────────────────────────────────────────────────────────────────

  /** The white-space characters `trim` removes (ASCII only). */
  predicate IsSpace(c: char) {
    c == ' ' || c == '\t' || c == '\n' || c == '\r' || c == '\U{000B}' || c == '\U{000C}'
  }

  /** Every character of `s` is white space. */
  predicate AllSpace(s: string) {
    s == [] || (IsSpace(s[0]) && AllSpace(s[1..]))
  }

  lemma {:induction false} AllSpaceDropLast(s: string)
    requires s != [] && IsSpace(s[|s| - 1])
    ensures AllSpace(s) <==> AllSpace(s[..|s| - 1])
  {
    if |s| > 1 {
      AllSpaceDropLast(s[1..]);
      assert s[1..][..|s| - 2] == s[..|s| - 1][1..];
    }
  }

  /** `s.trim()`: the part of `s` between its leading and its trailing white
      space; empty exactly when `s` is all white space, and otherwise beginning
      and ending with a non-space. */
  function Trim(s: string): (r: string)
    ensures |r| <= |s|
    ensures r == [] <==> AllSpace(s)
    ensures r != [] ==> !IsSpace(r[0]) && !IsSpace(r[|r| - 1])
  {
    if s != [] && IsSpace(s[0]) then
      Trim(s[1..])
    else if s != [] && IsSpace(s[|s| - 1]) then
      AllSpaceDropLast(s);
      Trim(s[..|s| - 1])
    else
      s
  }

  /** The trim is a slice of the input between an all-space prefix and an
      all-space suffix; with `Trim`'s own contract this fixes the result: the
      input with its leading and its trailing white space removed. */
  lemma TrimSlice(s: string)
    ensures exists i, j :: 0 <= i <= j <= |s| && Trim(s) == s[i..j] && AllSpace(s[..i]) && AllSpace(s[j..])
  {
    var i, j := TrimBounds(s);
  }

  /** Where the trim starts and ends in `s`. */
  lemma {:induction false} TrimBounds(s: string) returns (i: nat, j: nat)
    ensures i <= j <= |s| && Trim(s) == s[i..j] && AllSpace(s[..i]) && AllSpace(s[j..])
    decreases |s|
  {
    if s != [] && IsSpace(s[0]) {
      var i0, j0 := TrimBounds(s[1..]);
      i, j := i0 + 1, j0 + 1;
      LeadingSpace(s, i0, j0);
    } else if s != [] && IsSpace(s[|s| - 1]) {
      i, j := TrimBounds(s[..|s| - 1]);
      TrailingSpace(s, i, j);
    } else {
      i, j := 0, |s|;
      assert s[..0] == [] && s[|s|..] == [] && s[0..|s|] == s;
    }
  }

  /** A leading space shifts the trim's bounds by one. */
  lemma LeadingSpace(s: string, i: nat, j: nat)
    requires s != [] && IsSpace(s[0])
    requires var t := s[1..]; i <= j <= |t| && Trim(t) == t[i..j] && AllSpace(t[..i]) && AllSpace(t[j..])
    ensures Trim(s) == s[i + 1..j + 1] && AllSpace(s[..i + 1]) && AllSpace(s[j + 1..])
  {
    var t := s[1..];
    assert t[i..j] == s[i + 1..j + 1];
    assert s[..i + 1][1..] == t[..i];
    assert t[j..] == s[j + 1..];
  }

  /** A trailing space leaves the trim's bounds as they are. */
  lemma TrailingSpace(s: string, i: nat, j: nat)
    requires s != [] && !IsSpace(s[0]) && IsSpace(s[|s| - 1])
    requires var t := s[..|s| - 1]; i <= j <= |t| && Trim(t) == t[i..j] && AllSpace(t[..i]) && AllSpace(t[j..])
    ensures Trim(s) == s[i..j] && AllSpace(s[..i]) && AllSpace(s[j..])
  {
    var t := s[..|s| - 1];
    assert t[i..j] == s[i..j] && t[..i] == s[..i];
    AllSpaceDropLast(s[j..]);
    assert s[j..][..|s| - j - 1] == t[j..];
  }

  /** Trimming twice is trimming once. */
  lemma TrimIdempotent(s: string)
    ensures Trim(Trim(s)) == Trim(s)
  {
    var r := Trim(s);
    if r != [] {
      assert !IsSpace(r[0]) && !IsSpace(r[|r| - 1]);
    }
  }

  /** A string that starts and ends with a non-space is its own trim. */
  lemma TrimNoSpace(s: string)
    requires s != [] && !IsSpace(s[0]) && !IsSpace(s[|s| - 1])
    ensures Trim(s) == s
  {
  }

  // ─── toLowerCase ──────────────────────────────────────────────────────────

  function LowerChar(c: char): (d: char)
    ensures 'A' <= c <= 'Z' ==> d as int == c as int + 32
    ensures !('A' <= c <= 'Z') ==> d == c
  {
    if 'A' <= c <= 'Z' then (c as int + 32) as char else c
  }

  /** `s.toLowerCase()` on ASCII: the same length, each capital letter replaced by
      its small letter and every other character kept. */
  function Lower(s: string): (r: string)
    ensures |r| == |s|
  {
    if s == [] then [] else [LowerChar(s[0])] + Lower(s[1..])
  }

  /** Lower-casing works character by character. */
  lemma {:induction false} LowerAt(s: string, k: int)
    requires 0 <= k < |s|
    ensures Lower(s)[k] == LowerChar(s[k])
  {
    if k > 0 {
      LowerAt(s[1..], k - 1);
    }
  }

  // ─── Number(...) restricted to decimal integers ───────────────────────────

  predicate IsDigit(c: char) {
    '0' <= c <= '9'
  }

  /** Every character of `s` is a decimal digit. */
  predicate AllDigits(s: string) {
    s == [] || (AllDigits(s[..|s| - 1]) && IsDigit(s[|s| - 1]))
  }

  lemma {:induction false} AllDigitsAt(s: string, k: int)
    requires AllDigits(s) && 0 <= k < |s|
    ensures IsDigit(s[k])
  {
    if k < |s| - 1 {
      AllDigitsAt(s[..|s| - 1], k);
    }
  }

  function DigitValue(c: char): (v: nat)
    requires IsDigit(c)
    ensures v < 10
  {
    c as int - '0' as int
  }

  function Digit(v: nat): (c: char)
    requires v < 10
    ensures IsDigit(c) && DigitValue(c) == v
  {
    ('0' as int + v) as char
  }

  /** The value of a string of decimal digits, most significant first. */
  function DigitsValue(ds: string): nat
    requires AllDigits(ds)
  {
    if ds == [] then 0 else DigitsValue(ds[..|ds| - 1]) * 10 + DigitValue(ds[|ds| - 1])
  }

  /** The integer a string of the form [+|-]digits denotes; `None` (NaN) for any
      other string, the empty string included. */
  function ParseInteger(s: string): Option<int> {
    if |s| > 1 && (s[0] == '+' || s[0] == '-') && AllDigits(s[1..]) then
      var v: int := DigitsValue(s[1..]);
      Some(if s[0] == '-' then -v else v)
    else if s != [] && AllDigits(s) then
      Some(DigitsValue(s))
    else
      None
  }

  /** `Number(s)` for an age cell: white space around the number is ignored. */
  function NumberValue(s: string): Option<int> {
    ParseInteger(Trim(s))
  }

  /** The decimal rendering of a natural number, without leading zeros. */
  function DecimalString(n: nat): (r: string)
    ensures r != [] && AllDigits(r)
    decreases n
  {
    if n < 10 then [Digit(n)]
    else
      var r := DecimalString(n / 10) + [Digit(n % 10)];
      assert r[..|r| - 1] == DecimalString(n / 10);
      r
  }

  /** Reading back a rendered number gives the number. */
  lemma {:induction false} DigitsValueOfDecimal(n: nat)
    ensures DigitsValue(DecimalString(n)) == n
    decreases n
  {
    var r := DecimalString(n);
    if n >= 10 {
      DigitsValueOfDecimal(n / 10);
      assert r[..|r| - 1] == DecimalString(n / 10);
    }
  }

  /** The parser and the renderer are inverses, for both signs. */
  lemma ParseDecimalRoundTrip(n: nat)
    ensures ParseInteger(DecimalString(n)) == Some(n)
    ensures ParseInteger(['+'] + DecimalString(n)) == Some(n)
    ensures ParseInteger(['-'] + DecimalString(n)) == Some(-(n as int))
  {
    DigitsValueOfDecimal(n);
    var d := DecimalString(n);
    AllDigitsAt(d, 0);
    assert (['+'] + d)[1..] == d;
    assert (['-'] + d)[1..] == d;
    assert !IsDigit('+') && !IsDigit('-');
  }

  /** A rendered number has no white space to trim. */
  lemma TrimDecimal(n: nat)
    ensures Trim(DecimalString(n)) == DecimalString(n)
  {
    var d := DecimalString(n);
    assert !IsSpace(d[0]) && !IsSpace(d[|d| - 1]);
  }
}
