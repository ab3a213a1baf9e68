/** The string helpers the application leans on: `String.prototype.trim`, the decimal
    rendering of integers (`toString()`, template literals) and `padStart(2, '0')`. */
module Text {

  /** The code points ECMAScript counts as WhiteSpace or LineTerminator, which is the set
      `trim()` strips from both ends. */
  predicate IsWhitespace(c: char) {
    c == '\t' || c == '\n' || c == '\U{000B}' || c == '\U{000C}' || c == '\r' || c == ' ' ||
    c == '\U{00A0}' || c == '\U{1680}' || ('\U{2000}' <= c <= '\U{200A}') ||
    c == '\U{2028}' || c == '\U{2029}' || c == '\U{202F}' || c == '\U{205F}' ||
    c == '\U{3000}' || c == '\U{FEFF}'
  }

  /** Length of the longest whitespace prefix of `s`. */
  function LeadingWhitespace(s: string): (n: nat)
    ensures n <= |s|
    ensures forall k :: 0 <= k < n ==> IsWhitespace(s[k])
    ensures n == |s| || !IsWhitespace(s[n])
  {
    if s != [] && IsWhitespace(s[0]) then 1 + LeadingWhitespace(s[1..]) else 0
  }

  /** Length of the longest whitespace suffix of `s`. */
  function TrailingWhitespace(s: string): (n: nat)
    ensures n <= |s|
    ensures forall k :: |s| - n <= k < |s| ==> IsWhitespace(s[k])
    ensures n == |s| || !IsWhitespace(s[|s| - n - 1])
  {
    if s != [] && IsWhitespace(s[|s| - 1]) then 1 + TrailingWhitespace(s[..|s| - 1]) else 0
  }

  /** `s.trim()`. */
  function Trim(s: string): string {
    var t := s[LeadingWhitespace(s)..];
    t[..|t| - TrailingWhitespace(t)]
  }

  /** What `trim()` returns: the slice of `s` left after removing whitespace from both ends;
      it neither starts nor ends with whitespace, and everything cut off is whitespace. */
  lemma TrimSlice(s: string)
    ensures exists i, j ::
              && 0 <= i <= j <= |s| && Trim(s) == s[i..j]
              && (forall k :: 0 <= k < i ==> IsWhitespace(s[k]))
              && (forall k :: j <= k < |s| ==> IsWhitespace(s[k]))
    ensures Trim(s) != [] ==> !IsWhitespace(Trim(s)[0]) && !IsWhitespace(Trim(s)[|Trim(s)| - 1])
  {
    var i := LeadingWhitespace(s);
    var t := s[i..];
    var j := i + |t| - TrailingWhitespace(t);
    assert Trim(s) == s[i..j];
    assert forall k :: j <= k < |s| ==> s[k] == t[k - i];
  }

  /** `s.trim() === ''` exactly when every character of `s` is whitespace. */
  lemma TrimEmptyIff(s: string)
    ensures Trim(s) == [] <==> forall k :: 0 <= k < |s| ==> IsWhitespace(s[k])
  {
    var i := LeadingWhitespace(s);
    var t := s[i..];
    if Trim(s) == [] {
      assert TrailingWhitespace(t) == |t|;
    }
  }

  /** Trimming twice is trimming once. */
  lemma TrimIdempotent(s: string)
    ensures Trim(Trim(s)) == Trim(s)
  {
    var r := Trim(s);
    TrimSlice(s);
    if r != [] {
      assert LeadingWhitespace(r) == 0;
      assert TrailingWhitespace(r) == 0;
    }
  }

  /** The decimal digit character for `d`. */
  function DigitChar(d: int): (c: char)
    requires 0 <= d < 10
    ensures '0' <= c <= '9'
  {
    ('0' as int + d) as char
  }

  predicate IsDigit(c: char) { '0' <= c <= '9' }

  predicate AllDigits(s: string) { forall k :: 0 <= k < |s| ==> IsDigit(s[k]) }

  /** The number a string of decimal digits denotes (most significant digit first). */
  function DigitsValue(s: string): (n: nat)
    requires AllDigits(s)
  {
    if s == [] then 0 else DigitsValue(s[..|s| - 1]) * 10 + (s[|s| - 1] as int - '0' as int)
  }

  /** `String(n)` for a non-negative integer: decimal digits, no leading zero. */
  function NatToString(n: nat): (r: string)
    ensures 1 <= |r| && AllDigits(r)
    ensures |r| > 1 ==> r[0] != '0'
  {
    if n < 10 then [DigitChar(n)] else NatToString(n / 10) + [DigitChar(n % 10)]
  }

  /** Reading the digits back gives the number: `parseInt(String(n)) == n`. */
  lemma {:induction false} NatToStringValue(n: nat)
    ensures DigitsValue(NatToString(n)) == n
  {
    if n >= 10 {
      var r := NatToString(n);
      assert r[..|r| - 1] == NatToString(n / 10);
      NatToStringValue(n / 10);
    }
  }

  /** Different numbers print differently. */
  lemma NatToStringInjective(a: nat, b: nat)
    ensures NatToString(a) == NatToString(b) <==> a == b
  {
    NatToStringValue(a);
    NatToStringValue(b);
  }

  /** `String(n)` / `n.toString()` for any integer. */
  function IntToString(n: int): string {
    if n < 0 then "-" + NatToString(-n) else NatToString(n)
  }

  /** Different integers print differently (the sign character is never a digit). */
  lemma IntToStringInjective(a: int, b: int)
    ensures IntToString(a) == IntToString(b) <==> a == b
  {
    if IntToString(a) == IntToString(b) {
      if a < 0 && b < 0 {
        assert NatToString(-a) == IntToString(a)[1..];
        assert NatToString(-b) == IntToString(b)[1..];
        NatToStringInjective(-a, -b);
      } else if a >= 0 && b >= 0 {
        NatToStringInjective(a, b);
      }
    }
  }

  /** `s.padStart(width, c)` for a one-character pad string. */
  function PadStart(s: string, width: nat, c: char): string {
    if |s| >= width then s else seq(width - |s|, _ => c) + s
  }

  /** `String(n).padStart(2, '0')`, the field format of dates and times. */
  function Pad2(n: nat): string {
    PadStart(NatToString(n), 2, '0')
  }

  /** Below 100, the padded form is exactly the tens digit followed by the units digit. */
  lemma Pad2Digits(n: nat)
    requires n < 100
    ensures Pad2(n) == [DigitChar(n / 10), DigitChar(n % 10)]
  {
    if n >= 10 {
      assert NatToString(n) == NatToString(n / 10) + [DigitChar(n % 10)];
    }
  }

  /** A four-digit number prints as exactly four digits. */
  lemma NatToStringFourDigits(n: nat)
    requires 1000 <= n <= 9999
    ensures NatToString(n) == [DigitChar(n / 1000), DigitChar(n / 100 % 10), DigitChar(n / 10 % 10), DigitChar(n % 10)]
  {
    var q1 := n / 10;
    var q2 := q1 / 10;
    var q3 := q2 / 10;
    assert n == 10 * q1 + n % 10;
    assert q1 == 10 * q2 + q1 % 10;
    assert q2 == 10 * q3 + q2 % 10;
    assert q2 == n / 100 && q3 == n / 1000;
    assert NatToString(q2) == [DigitChar(q3), DigitChar(q2 % 10)];
    assert NatToString(q1) == NatToString(q2) + [DigitChar(q1 % 10)];
  }

  // ---------------------------------------------------------------------------------
  // String order

  /** `a < b` on strings: the first differing character decides, and a proper prefix
      comes first. */
  predicate StringLess(a: string, b: string)
    decreases |a|
  {
    b != [] && (a == [] || a[0] < b[0] || (a[0] == b[0] && StringLess(a[1..], b[1..])))
  }

  /** Comparing two strings cut at the same length: the heads decide, and only equal
      heads hand the decision to the tails. */
  lemma {:induction false} StringLessAppend(p: string, q: string, p': string, q': string)
    requires |p| == |p'|
    ensures StringLess(p + q, p' + q') <==> StringLess(p, p') || (p == p' && StringLess(q, q'))
    decreases |p|
  {
    if p == [] {
      assert p + q == q && p' + q' == q';
    } else {
      assert (p + q)[1..] == p[1..] + q && (p' + q')[1..] == p'[1..] + q';
      StringLessAppend(p[1..], q, p'[1..], q');
      if p[0] == p'[0] && p[1..] == p'[1..] {
        assert p == [p[0]] + p[1..] && p' == [p'[0]] + p'[1..];
      }
    }
  }

  /** Two strings cut at the same length are equal exactly when both parts are. */
  lemma AppendEqual(p: string, q: string, p': string, q': string)
    requires |p| == |p'|
    ensures p + q == p' + q' <==> p == p' && q == q'
  {
    if p + q == p' + q' {
      assert p == (p + q)[..|p|] && p' == (p' + q')[..|p|];
      assert q == (p + q)[|p|..] && q' == (p' + q')[|p|..];
    }
  }

  /** Digit characters compare as their digits do. */
  lemma DigitCharOrder(p: int, q: int)
    requires 0 <= p < 10 && 0 <= q < 10
    ensures DigitChar(p) < DigitChar(q) <==> p < q
    ensures DigitChar(p) == DigitChar(q) <==> p == q
  {
  }

  /** Two-digit numbers compare as their (tens, units) pairs. */
  lemma TensUnitsOrder(a: nat, b: nat)
    requires a < 100 && b < 100
    ensures a < b <==> a / 10 < b / 10 || (a / 10 == b / 10 && a % 10 < b % 10)
    ensures a == b <==> a / 10 == b / 10 && a % 10 == b % 10
  {
    assert a == a / 10 * 10 + a % 10 && b == b / 10 * 10 + b % 10;
  }

  /** Below 100, padded numbers compare as the numbers do. */
  lemma Pad2Order(a: nat, b: nat)
    requires a < 100 && b < 100
    ensures |Pad2(a)| == 2 && |Pad2(b)| == 2
    ensures StringLess(Pad2(a), Pad2(b)) <==> a < b
    ensures Pad2(a) == Pad2(b) <==> a == b
  {
    Pad2Digits(a);
    Pad2Digits(b);
    var x, y := Pad2(a), Pad2(b);
    DigitCharOrder(a / 10, b / 10);
    DigitCharOrder(a % 10, b % 10);
    TensUnitsOrder(a, b);
    assert x[1..] == [x[1]] && y[1..] == [y[1]];
    assert !StringLess([], []);
    assert StringLess([x[1]], [y[1]]) <==> x[1] < y[1];
  }

  /** The digit arithmetic behind splitting a four-digit number into two halves. */
  lemma HundredsSplit(n: nat)
    requires 1000 <= n <= 9999
    ensures n / 100 / 10 == n / 1000 && n / 100 % 10 == n / 100 % 10
    ensures n % 100 / 10 == n / 10 % 10 && n % 100 % 10 == n % 10
    ensures 10 <= n / 100 < 100
  {
    var q, r := n / 100, n % 100;
    assert n == 100 * q + r && 0 <= r < 100;
    assert n == 1000 * (q / 10) + (100 * (q % 10) + r);
    assert n == 10 * (10 * q + r / 10) + r % 10;
  }

  /** A four-digit number prints as its two padded halves. */
  lemma FourDigitHalves(n: nat)
    requires 1000 <= n <= 9999
    ensures NatToString(n) == Pad2(n / 100) + Pad2(n % 100)
  {
    HundredsSplit(n);
    NatToStringFourDigits(n);
    Pad2Digits(n / 100);
    Pad2Digits(n % 100);
  }

  /** Four-digit numbers compare as their (hundreds, rest) pairs. */
  lemma HundredsOrder(a: nat, b: nat)
    requires 1000 <= a <= 9999 && 1000 <= b <= 9999
    ensures a / 100 < 100 && b / 100 < 100
    ensures a < b <==> a / 100 < b / 100 || (a / 100 == b / 100 && a % 100 < b % 100)
  {
    assert a == a / 100 * 100 + a % 100 && b == b / 100 * 100 + b % 100;
  }

  /** Four-digit numbers compare as strings as they do as numbers. */
  lemma FourDigitOrder(a: nat, b: nat)
    requires 1000 <= a <= 9999 && 1000 <= b <= 9999
    ensures StringLess(NatToString(a), NatToString(b)) <==> a < b
  {
    HundredsOrder(a, b);
    Pad2Order(a / 100, b / 100);
    Pad2Order(a % 100, b % 100);
    FourDigitHalves(a);
    FourDigitHalves(b);
    StringLessAppend(Pad2(a / 100), Pad2(a % 100), Pad2(b / 100), Pad2(b % 100));
  }
}
