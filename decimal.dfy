/** Exact decimal numbers as text: the small number grammar accepted by the
    parses of the pipeline (an optional sign, digits, an optional `.` and
    more digits, at least one digit in all), and the digit printer used by
    the formatter. Values are exact `real`s, not binary floats. */
module Decimal {
  import opened Wrappers

  predicate IsDigit(c: char) { '0' <= c <= '9' }

  predicate AllDigits(s: string) {
    forall k :: 0 <= k < |s| ==> IsDigit(s[k])
  }

  function DigitValue(c: char): (d: nat)
    requires IsDigit(c)
    ensures d < 10
  {
    c as int - '0' as int
  }

  function DigitChar(d: nat): (c: char)
    requires d < 10
    ensures IsDigit(c) && DigitValue(c) == d
  {
    ('0' as int + d) as char
  }

  function Pow10(n: nat): (r: nat)
    ensures r >= 1
  {
    if n == 0 then 1 else 10 * Pow10(n - 1)
  }

  /** The number a digit string denotes, most significant digit first. */
  function Value(s: string): (v: nat)
    requires AllDigits(s)
  {
    if s == [] then 0 else Value(s[..|s| - 1]) * 10 + DigitValue(s[|s| - 1])
  }

  lemma AllDigitsAppend(a: string, b: string)
    requires AllDigits(a) && AllDigits(b)
    ensures AllDigits(a + b)
  {
    forall k | 0 <= k < |a + b| ensures IsDigit((a + b)[k]) {
      if k < |a| { assert (a + b)[k] == a[k]; } else { assert (a + b)[k] == b[k - |a|]; }
    }
  }

  lemma {:induction false} ValueAppend(a: string, b: string)
    requires AllDigits(a) && AllDigits(b)
    ensures AllDigits(a + b)
    ensures Value(a + b) == Value(a) * Pow10(|b|) + Value(b)
  {
    AllDigitsAppend(a, b);
    if b == [] {
      assert a + b == a;
    } else {
      var b' := b[..|b| - 1];
      var ab := a + b;
      assert ab[..|ab| - 1] == a + b';
      assert ab[|ab| - 1] == b[|b| - 1];
      var d := DigitValue(b[|b| - 1]);
      AllDigitsAppend(a, b');
      ValueAppend(a, b');
      var x, p, y := Value(a), Pow10(|b'|), Value(b');
      assert Value(ab) == Value(a + b') * 10 + d;
      assert Value(b) == y * 10 + d;
      assert Pow10(|b|) == p * 10;
      assert Value(a + b') == x * p + y;
      MulAssoc(x, p);
    }
  }

  lemma MulAssoc(x: nat, p: nat)
    ensures (x * p) * 10 == x * (p * 10)
  {
  }

  /** Position of the first `c` in `s`, or `|s|` when there is none. */
  function IndexOf(s: string, c: char): (i: nat)
    ensures i <= |s|
    ensures i < |s| ==> s[i] == c
    ensures forall k :: 0 <= k < i ==> s[k] != c
  {
    if s == [] then 0 else if s[0] == c then 0 else 1 + IndexOf(s[1..], c)
  }

  /** The sign of a number text: a leading `-` or `+` is removed and
      remembered as negative or positive. */
  function Unsigned(s: string): (r: string)
    ensures |r| <= |s|
  {
    if |s| > 0 && (s[0] == '-' || s[0] == '+') then s[1..] else s
  }

  predicate Negative(s: string) {
    |s| > 0 && s[0] == '-'
  }

  /** The unsigned value of integer digits `ip` and fraction digits `fp`. */
  function Magnitude(ip: string, fp: string): (m: real)
    requires AllDigits(ip) && AllDigits(fp)
    ensures m >= 0.0
  {
    var f := Value(fp) as real / Pow10(|fp|) as real;
    assert f >= 0.0;
    Value(ip) as real + f
  }

  /** The digits before the first `.` */
  function IntPart(body: string): string {
    body[..IndexOf(body, '.')]
  }

  /** The text after the first `.`, empty when there is no point. */
  function FracPart(body: string): string {
    var d := IndexOf(body, '.');
    if d < |body| then body[d + 1..] else []
  }

  /** Parses `digits [. digits]`, at least one digit overall. */
  function ParseUnsigned(body: string): (r: Option<real>)
    ensures r.Some? ==> body != [] && r.value >= 0.0
  {
    var ip, fp := IntPart(body), FracPart(body);
    if AllDigits(ip) && AllDigits(fp) && |ip| + |fp| > 0 then Some(Magnitude(ip, fp)) else None
  }

  /** Parses `[+|-] digits [. digits]` (at least one digit overall, so
      `5.` and `.5` are numbers while `.`, `-` and the empty text are not)
      into its exact value. */
  function ParseDecimal(s: string): (r: Option<real>)
    ensures r.Some? ==> s != []
    ensures r.Some? && Negative(s) ==> r.value <= 0.0
    ensures r.Some? && !Negative(s) ==> r.value >= 0.0
  {
    match ParseUnsigned(Unsigned(s))
    case None => None
    case Some(m) => Some(if Negative(s) then -m else m)
  }

  /** The text of a number: sign, integer digits, `.`, fraction digits. */
  function DecimalText(neg: bool, ip: string, fp: string): string {
    (if neg then "-" else "") + ip + "." + fp
  }

  /** The parser reads back exactly the number the text spells out. */
  lemma {:induction false} ParseDecimalText(neg: bool, ip: string, fp: string)
    requires AllDigits(ip) && AllDigits(fp) && |ip| + |fp| > 0
    ensures ParseDecimal(DecimalText(neg, ip, fp))
         == Some(if neg then -Magnitude(ip, fp) else Magnitude(ip, fp))
  {
    var body := ip + "." + fp;
    SignOfText(neg, body);
    assert DecimalText(neg, ip, fp) == (if neg then "-" else "") + body;
    ParseUnsignedText(ip, fp);
  }

  lemma {:induction false} ParseUnsignedText(ip: string, fp: string)
    requires AllDigits(ip) && AllDigits(fp) && |ip| + |fp| > 0
    ensures ParseUnsigned(ip + "." + fp) == Some(Magnitude(ip, fp))
  {
    var body := ip + "." + fp;
    PointAfterDigits(ip, fp);
    assert IntPart(body) == ip;
    assert FracPart(body) == fp;
  }

  lemma {:induction false} SignOfText(neg: bool, body: string)
    requires body != [] && (IsDigit(body[0]) || body[0] == '.')
    ensures Unsigned((if neg then "-" else "") + body) == body
    ensures Negative((if neg then "-" else "") + body) == neg
  {
    if neg {
      assert ("-" + body)[1..] == body;
    } else {
      assert "" + body == body;
    }
  }

  lemma {:induction false} PointAfterDigits(ip: string, fp: string)
    requires AllDigits(ip)
    ensures IndexOf(ip + "." + fp, '.') == |ip|
  {
    var body := ip + "." + fp;
    assert body[|ip|] == '.';
    forall k | 0 <= k < |ip| ensures body[k] != '.' { assert body[k] == ip[k]; }
  }

  /** A digit string with no point and no sign reads as its value. */
  lemma {:induction false} ParseDigits(ip: string)
    requires AllDigits(ip) && ip != []
    ensures ParseDecimal(ip) == Some(Magnitude(ip, []))
  {
    assert Unsigned(ip) == ip by { assert IsDigit(ip[0]); }
    assert IndexOf(ip, '.') == |ip| by {
      forall k | 0 <= k < |ip| ensures ip[k] != '.' { assert IsDigit(ip[k]); }
    }
    assert ip[..|ip|] == ip;
  }

  /** The grammar written out apart from the parser: digits, or digits
      around one `.`, with at least one digit in all. */
  predicate PlainNumber(b: string) {
    || (b != [] && AllDigits(b))
    || (exists i :: 0 <= i < |b| && b[i] == '.' && |b| > 1 && AllDigits(b[..i]) && AllDigits(b[i + 1..]))
  }

  /** A number text: a plain number, or a `-` or `+` followed by one. */
  predicate DecimalSyntax(s: string) {
    PlainNumber(s) || (|s| > 0 && (s[0] == '-' || s[0] == '+') && PlainNumber(s[1..]))
  }

  /** The parser accepts exactly the texts of the grammar. */
  lemma ParseDecimalSyntax(s: string)
    ensures ParseDecimal(s).Some? <==> DecimalSyntax(s)
  {
    ParseUnsignedSyntax(Unsigned(s));
    if |s| > 0 && (s[0] == '-' || s[0] == '+') {
      assert !IsDigit(s[0]);
      forall i | 0 < i <= |s| ensures !AllDigits(s[..i]) {
        assert s[..i][0] == s[0];
      }
    }
  }

  lemma ParseUnsignedSyntax(b: string)
    ensures ParseUnsigned(b).Some? <==> PlainNumber(b)
  {
    var d := IndexOf(b, '.');
    forall i | 0 <= i <= |b| && AllDigits(b[..i]) ensures i <= d {
      forall k | 0 <= k < i ensures b[k] != '.' {
        assert b[k] == b[..i][k];
      }
    }
    if d == |b| {
      assert IntPart(b) == b;
    } else {
      assert IntPart(b) == b[..d] && FracPart(b) == b[d + 1..];
      assert !IsDigit(b[d]);
    }
  }

  /** The sign written before a number: none, `-` or `+`. */
  predicate SignMark(sgn: string) {
    sgn == "" || sgn == "-" || sgn == "+"
  }

  function Signed(sgn: string, m: real): real {
    if sgn == "-" then -m else m
  }

  /** A signed whole number reads as its value, negated after a `-`. */
  lemma {:induction false} ParseSignedWhole(sgn: string, ip: string)
    requires SignMark(sgn) && AllDigits(ip) && ip != []
    ensures ParseDecimal(sgn + ip) == Some(Signed(sgn, Value(ip) as real))
  {
    assert IsDigit(ip[0]);
    SignOf(sgn, ip);
    ParseUnsignedDigits(ip);
  }

  lemma ParseUnsignedDigits(ip: string)
    requires AllDigits(ip) && ip != []
    ensures ParseUnsigned(ip) == Some(Value(ip) as real)
  {
    assert IndexOf(ip, '.') == |ip| by {
      forall k | 0 <= k < |ip| ensures ip[k] != '.' { assert IsDigit(ip[k]); }
    }
    assert IntPart(ip) == ip by { assert ip[..|ip|] == ip; }
    assert Magnitude(ip, []) == Value(ip) as real;
  }

  /** A signed number with a point reads as its value, negated after a `-`. */
  lemma {:induction false} ParseSignedPoint(sgn: string, ip: string, fp: string)
    requires SignMark(sgn) && AllDigits(ip) && AllDigits(fp) && |ip| + |fp| > 0
    ensures ParseDecimal(sgn + ip + "." + fp) == Some(Signed(sgn, Magnitude(ip, fp)))
  {
    var body := ip + "." + fp;
    assert sgn + ip + "." + fp == sgn + body;
    if ip != [] { assert body[0] == ip[0]; } else { assert body[0] == '.'; }
    SignOf(sgn, body);
    ParseUnsignedText(ip, fp);
  }

  lemma {:induction false} SignOf(sgn: string, body: string)
    requires SignMark(sgn) && body != [] && (IsDigit(body[0]) || body[0] == '.')
    ensures Unsigned(sgn + body) == body
    ensures Negative(sgn + body) == (sgn == "-")
  {
    if sgn == "" {
      assert sgn + body == body;
    } else {
      assert (sgn + body)[0] == sgn[0];
      assert (sgn + body)[1..] == body;
    }
  }

  /** A comma is not part of the grammar: locale text must be converted
      before it is parsed. */
  lemma ParseDecimalRejectsComma(s: string)
    requires ',' in s
    ensures ParseDecimal(s) == None
  {
    var b := Unsigned(s);
    var j :| 0 <= j < |s| && s[j] == ',';
    var k := if b == s then j else j - 1;
    assert 0 <= k < |b| && b[k] == ',';
    var d := IndexOf(b, '.');
    if k < d {
      assert IntPart(b)[k] == ',';
    } else {
      assert FracPart(b)[k - d - 1] == ',';
    }
  }

  /** Decimal digits of `n`, without leading zeros (`str(n)`). */
  function IntText(n: nat): (s: string)
    ensures AllDigits(s) && 1 <= |s|
    ensures |s| > 1 ==> s[0] != '0'
  {
    if n < 10 then [DigitChar(n)] else IntText(n / 10) + [DigitChar(n % 10)]
  }

  /** `n` zero-padded to exactly `width` digits (`f"{n:0{width}d}"`). */
  function PaddedText(n: nat, width: nat): (s: string)
    requires n < Pow10(width)
    ensures AllDigits(s) && |s| == width
  {
    if width == 0 then [] else PaddedText(n / 10, width - 1) + [DigitChar(n % 10)]
  }

  lemma {:induction false} IntTextValue(n: nat)
    ensures Value(IntText(n)) == n
  {
    var s := IntText(n);
    if n >= 10 {
      IntTextValue(n / 10);
      assert s[..|s| - 1] == IntText(n / 10);
    }
  }

  /** From 1000 on, the digits of `n` are the digits of `n / 1000` followed
      by its three lowest digits. */
  lemma IntTextSplit(n: nat)
    requires n >= 1000
    ensures IntText(n) == IntText(n / 1000) + PaddedText(n % 1000, 3)
  {
    var q, r := n / 1000, n % 1000;
    assert Pow10(1) == 10 && Pow10(2) == 100 && Pow10(3) == 1000;
    LowDigits(n);
    assert IntText(n) == IntText(n / 10) + [DigitChar(n % 10)];
    assert IntText(n / 10) == IntText(n / 10 / 10) + [DigitChar(n / 10 % 10)];
    assert IntText(n / 10 / 10) == IntText(q) + [DigitChar(n / 10 / 10 % 10)];
    assert PaddedText(r, 3) == PaddedText(r / 10, 2) + [DigitChar(r % 10)];
    assert PaddedText(r / 10, 2) == PaddedText(r / 100, 1) + [DigitChar(r / 10 % 10)];
    assert PaddedText(r / 100, 1) == [DigitChar(r / 100 % 10)];
  }

  lemma LowDigits(n: nat)
    ensures n / 10 / 10 / 10 == n / 1000 && n % 1000 / 10 / 10 == n % 1000 / 100
    ensures n % 1000 / 100 % 10 == n / 10 / 10 % 10
    ensures n % 1000 / 10 % 10 == n / 10 % 10
    ensures n % 1000 % 10 == n % 10
  {
  }

  lemma {:induction false} PaddedTextValue(n: nat, width: nat)
    requires n < Pow10(width)
    ensures Value(PaddedText(n, width)) == n
  {
    var s := PaddedText(n, width);
    if width > 0 {
      PaddedTextValue(n / 10, width - 1);
      assert s[..|s| - 1] == PaddedText(n / 10, width - 1);
    }
  }
}
