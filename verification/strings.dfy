/** String helpers that stand in for the JavaScript built-ins the handlers call:
    `String.prototype.trim`, the `\s` regex class, default string ordering,
    number-to-text conversion and `parseInt(text, 10)`. */
module Strings {
  import opened Wrappers

  /** A string field of a request body is truthy in JavaScript when it is present and
      not empty: the test behind `!body.slug`, `x || null` and the like. */
  predicate Truthy(field: Option<string>) {
    field.Some? && field.value != ""
  }

  /** The characters JavaScript treats as white space (WhiteSpace and LineTerminator):
      the set behind both `\s` in a regular expression and `trim`. */
  predicate IsSpace(c: char) {
    c == '\t' || c == '\n' || c == '\U{000B}' || c == '\U{000C}' || c == '\r' || c == ' '
    || c == '\U{00A0}' || c == '\U{1680}' || ('\U{2000}' <= c <= '\U{200A}')
    || c == '\U{2028}' || c == '\U{2029}' || c == '\U{202F}' || c == '\U{205F}'
    || c == '\U{3000}' || c == '\U{FEFF}'
  }

  /** Every character of `s` is white space (the empty string included). */
  predicate IsBlank(s: string) {
    forall i | 0 <= i < |s| :: IsSpace(s[i])
  }

  /** `s` with its leading white space removed. */
  function TrimStart(s: string): (r: string)
    ensures |r| <= |s| && r == s[|s| - |r|..]
    ensures IsBlank(s[..|s| - |r|])
    ensures r == [] || !IsSpace(r[0])
  {
    if s == [] || !IsSpace(s[0]) then s else TrimStart(s[1..])
  }

  /** `s` with its trailing white space removed. */
  function TrimEnd(s: string): (r: string)
    ensures |r| <= |s| && r == s[..|r|]
    ensures IsBlank(s[|r|..])
    ensures r == [] || !IsSpace(r[|r| - 1])
  {
    if s == [] || !IsSpace(s[|s| - 1]) then s else TrimEnd(s[..|s| - 1])
  }

  /** `String.prototype.trim`: white space removed from both ends. */
  function Trim(s: string): string {
    TrimEnd(TrimStart(s))
  }

  lemma {:induction false} TrimStartEmptyIffBlank(s: string)
    ensures TrimStart(s) == [] <==> IsBlank(s)
  {
    if s != [] && IsSpace(s[0]) {
      TrimStartEmptyIffBlank(s[1..]);
      assert IsBlank(s) <==> IsBlank(s[1..]);
    }
  }

  lemma {:induction false} TrimEndEmptyIffBlank(s: string)
    ensures TrimEnd(s) == [] <==> IsBlank(s)
  {
    if s != [] && IsSpace(s[|s| - 1]) {
      TrimEndEmptyIffBlank(s[..|s| - 1]);
      assert IsBlank(s) <==> IsBlank(s[..|s| - 1]);
    }
  }

  /** `s.trim()` is falsy (the empty string) exactly when `s` is blank. */
  lemma TrimEmptyIffBlank(s: string)
    ensures Trim(s) == [] <==> IsBlank(s)
  {
    TrimStartEmptyIffBlank(s);
    TrimEndEmptyIffBlank(TrimStart(s));
    if TrimStart(s) != [] {
      assert !IsSpace(TrimStart(s)[0]);
    }
  }

  /** `Trim` removes only white space: the kept text is a contiguous piece of the input
      that starts and ends with a non-space character. */
  lemma TrimKeepsMiddle(s: string)
    ensures exists i, j | 0 <= i <= j <= |s| :: Trim(s) == s[i..j]
    ensures Trim(s) == [] || (!IsSpace(Trim(s)[0]) && !IsSpace(Trim(s)[|Trim(s)| - 1]))
  {
    var t := TrimStart(s);
    var k := |s| - |t|;
    var r := TrimEnd(t);
    assert r == t[..|r|];
    assert r == s[k..k + |r|];
    if r != [] {
      assert r[0] == t[0];
    }
  }

  // ---------------------------------------------------------------------------
  // Lexicographic order (JavaScript's default `sort`, SQLite's BINARY collation)

  /** `a` sorts before or equal to `b` when compared character by character,
      a proper prefix sorting first. */
  predicate LexLe(a: string, b: string) {
    a == [] || (b != [] && (a[0] < b[0] || (a[0] == b[0] && LexLe(a[1..], b[1..]))))
  }

  lemma {:induction false} LexLeRefl(a: string)
    ensures LexLe(a, a)
  {
    if a != [] {
      LexLeRefl(a[1..]);
    }
  }

  lemma {:induction false} LexLeTotal(a: string, b: string)
    ensures LexLe(a, b) || LexLe(b, a)
  {
    if a != [] && b != [] && a[0] == b[0] {
      LexLeTotal(a[1..], b[1..]);
    }
  }

  lemma {:induction false} LexLeTrans(a: string, b: string, c: string)
    requires LexLe(a, b) && LexLe(b, c)
    ensures LexLe(a, c)
  {
    if a != [] && a[0] == b[0] && b[0] == c[0] {
      LexLeTrans(a[1..], b[1..], c[1..]);
    }
  }

  lemma {:induction false} LexLeAntisym(a: string, b: string)
    requires LexLe(a, b) && LexLe(b, a)
    ensures a == b
  {
    if a != [] && b != [] {
      LexLeAntisym(a[1..], b[1..]);
      assert a == [a[0]] + a[1..];
      assert b == [b[0]] + b[1..];
    }
  }

  /** Comparing two texts that start with pieces of the same width: the first pieces decide
      unless they are equal, and then the rest decides. */
  lemma {:induction false} LexLeAppend(a: string, b: string, x: string, y: string)
    requires |a| == |b|
    ensures LexLe(a + x, b + y) <==> (a != b && LexLe(a, b)) || (a == b && LexLe(x, y))
  {
    if a != [] {
      LexLeAppend(a[1..], b[1..], x, y);
      assert (a + x)[1..] == a[1..] + x;
      assert (b + y)[1..] == b[1..] + y;
      assert a == [a[0]] + a[1..];
      assert b == [b[0]] + b[1..];
      assert LexLe(a + x, b + y) <==> a[0] < b[0] || (a[0] == b[0] && LexLe(a[1..] + x, b[1..] + y));
    } else {
      assert a + x == x && b + y == y;
    }
  }

  // ---------------------------------------------------------------------------
  // Decimal text of numbers and `parseInt(text, 10)`

  predicate IsDigit(c: char) {
    '0' <= c <= '9'
  }

  predicate AllDigits(s: string) {
    forall i | 0 <= i < |s| :: IsDigit(s[i])
  }

  function DigitChar(d: nat): (c: char)
    requires d < 10
    ensures IsDigit(c) && c as int - '0' as int == d
  {
    ('0' as int + d) as char
  }

  /** The base-10 text JavaScript produces for a non-negative integer: no leading zeros. */
  function NatToDecimal(n: nat): (r: string)
    ensures |r| >= 1 && AllDigits(r)
    ensures r[0] == '0' ==> n == 0
  {
    if n < 10 then [DigitChar(n)] else NatToDecimal(n / 10) + [DigitChar(n % 10)]
  }

  /** The base-10 text of any integer, with a leading `-` for negatives. */
  function IntToDecimal(i: int): string {
    if i < 0 then "-" + NatToDecimal(-i) else NatToDecimal(i)
  }

  function Pow10(w: nat): (p: nat)
    ensures p >= 1
  {
    if w == 0 then 1 else 10 * Pow10(w - 1)
  }

  /** The last `w` decimal digits of `n`, zero-padded on the left. */
  function PadDecimal(n: nat, w: nat): (r: string)
    ensures |r| == w && AllDigits(r)
  {
    if w == 0 then [] else PadDecimal(n / 10, w - 1) + [DigitChar(n % 10)]
  }

  /** Zero-padded numbers of one width sort as text exactly as they sort as numbers. */
  lemma {:induction false} PadDecimalOrder(a: nat, b: nat, w: nat)
    requires a < Pow10(w) && b < Pow10(w)
    ensures LexLe(PadDecimal(a, w), PadDecimal(b, w)) <==> a <= b
    ensures PadDecimal(a, w) == PadDecimal(b, w) <==> a == b
  {
    if w > 0 {
      PadDecimalOrder(a / 10, b / 10, w - 1);
      var pa, pb := PadDecimal(a / 10, w - 1), PadDecimal(b / 10, w - 1);
      var da, db := DigitChar(a % 10), DigitChar(b % 10);
      LexLeAppend(pa, pb, [da], [db]);
      assert LexLe([da], [db]) <==> da <= db;
      assert PadDecimal(a, w) == pa + [da] && PadDecimal(b, w) == pb + [db];
      if PadDecimal(a, w) == PadDecimal(b, w) {
        assert pa == PadDecimal(a, w)[..w - 1] && pb == PadDecimal(b, w)[..w - 1];
        assert da == PadDecimal(a, w)[w - 1];
      }
    }
  }

  /** The value of a string of decimal digits. */
  function DigitsValue(s: string): nat
    requires AllDigits(s)
  {
    if s == [] then 0 else DigitsValue(s[..|s| - 1]) * 10 + (s[|s| - 1] as int - '0' as int)
  }

  lemma {:induction false} DecimalRoundTrip(n: nat)
    ensures DigitsValue(NatToDecimal(n)) == n
  {
    if n >= 10 {
      DecimalRoundTrip(n / 10);
      var r := NatToDecimal(n);
      assert r[..|r| - 1] == NatToDecimal(n / 10);
    }
  }

  /** The longest prefix of `s` made of decimal digits. */
  function DigitPrefix(s: string): (r: string)
    ensures r <= s && AllDigits(r)
    ensures |r| < |s| ==> !IsDigit(s[|r|])
  {
    if s == [] || !IsDigit(s[0]) then [] else [s[0]] + DigitPrefix(s[1..])
  }

  /** `parseInt(s, 10)`: skip leading white space, read an optional sign and then as
      many digits as follow; no digit at all gives `NaN`, modelled as `None`. */
  function ParseInt(s: string): Option<int> {
    var t := TrimStart(s);
    if t != [] && (t[0] == '-' || t[0] == '+') then
      var d := DigitPrefix(t[1..]);
      if d == [] then None
      else if t[0] == '-' then Some(0 - DigitsValue(d))
      else Some(DigitsValue(d))
    else
      var d := DigitPrefix(t);
      if d == [] then None else Some(DigitsValue(d))
  }

  lemma {:induction false} DigitPrefixOfDigits(s: string)
    requires AllDigits(s)
    ensures DigitPrefix(s) == s
  {
    if s != [] {
      DigitPrefixOfDigits(s[1..]);
      assert s == [s[0]] + s[1..];
    }
  }

  /** `parseInt` reads back the text of every integer. */
  lemma ParseIntRoundTrip(i: int)
    ensures ParseInt(IntToDecimal(i)) == Some(i)
  {
    if i < 0 {
      ParseIntOfNegative(-i);
    } else {
      ParseIntOfNatural(i);
    }
  }

  lemma ParseIntOfNatural(n: nat)
    ensures ParseInt(NatToDecimal(n)) == Some(n)
  {
    ParseIntOfLeadingNumber(n, []);
    assert NatToDecimal(n) + [] == NatToDecimal(n);
  }

  /** `parseInt` reads the minus sign and the digits of a negative number's text. */
  lemma ParseIntOfNegative(n: nat)
    ensures ParseInt("-" + NatToDecimal(n)) == Some(-(n as int))
  {
    var d := NatToDecimal(n);
    var t := "-" + d;
    assert !IsSpace(t[0]);
    assert TrimStart(t) == t;
    assert t[1..] == d;
    DigitPrefixOfDigits(d);
    DecimalRoundTrip(n);
    assert t != [] && t[0] == '-';
    assert DigitPrefix(t[1..]) == d && d != [];
  }

  lemma {:induction false} DigitPrefixStops(d: string, rest: string)
    requires AllDigits(d)
    requires rest == [] || !IsDigit(rest[0])
    ensures DigitPrefix(d + rest) == d
  {
    if d != [] {
      DigitPrefixStops(d[1..], rest);
      assert (d + rest)[1..] == d[1..] + rest;
      assert d == [d[0]] + d[1..];
    } else {
      assert d + rest == rest;
    }
  }

  /** `parseInt` reads a number's text back when text that is not a digit follows it,
      as in `"5H AGO"`. */
  lemma ParseIntOfLeadingNumber(n: nat, rest: string)
    requires rest == [] || !IsDigit(rest[0])
    ensures ParseInt(NatToDecimal(n) + rest) == Some(n)
  {
    var d := NatToDecimal(n);
    var t := d + rest;
    assert t[0] == d[0];
    assert IsDigit(t[0]);
    assert TrimStart(t) == t;
    DigitPrefixStops(d, rest);
    DecimalRoundTrip(n);
    assert ParseInt(t) == Some(DigitsValue(DigitPrefix(t)));
  }

  /** The text before the first line feed (`s.split('\n')[0]`). */
  function FirstLine(s: string): (r: string)
    ensures r <= s
    ensures '\n' !in r
    ensures |r| < |s| ==> s[|r|] == '\n'
  {
    if s == [] || s[0] == '\n' then [] else [s[0]] + FirstLine(s[1..])
  }
}
