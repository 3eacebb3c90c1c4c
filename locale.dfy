/** The two number conventions of the ledger export and the Brazilian
    rendering of money. The tax-rate column writes a decimal comma and no
    thousands separator (`17,5`); the money columns write `.` between
    thousands and `,` before the cents (`1.234,56`). The two conversions are
    kept apart on purpose: the same text means different numbers under
    them. */
module Locale {
  import opened Wrappers
  import opened Text
  import opened Decimal

  /** A tax-rate cell after `astype(float)`: an empty cell is pandas' missing
      value (NaN), which converts without error; any other text either parses
      or makes the conversion raise. */
  datatype RateCell = Blank | Rate(value: real) | Malformed

  /** Rate conversion: every `,` becomes `.`, then Python's `float()`, which
      ignores surrounding whitespace. */
  function ParseRate(s: string): (r: RateCell)
    ensures r.Blank? <==> s == ""
    ensures r.Rate? <==> s != "" && DecimalSyntax(Strip(ReplaceChar(s, ',', '.')))
  {
    if s == "" then Blank
    else
      ParseDecimalSyntax(Strip(ReplaceChar(s, ',', '.')));
      match ParseDecimal(Strip(ReplaceChar(s, ',', '.')))
      case None => Malformed
      case Some(v) => Rate(v)
  }

  /** Money repair: every `.` (thousands separator) is deleted, then every
      `,` becomes the decimal point, then the text is parsed; `None` is the
      NaN that `errors='coerce'` produces. */
  function ParseMoney(s: string): (r: Option<real>)
    ensures r.Some? ==> RemoveChar(s, '.') != []
  {
    ParseDecimal(ReplaceChar(RemoveChar(s, '.'), ',', '.'))
  }

  /** The rate conversion leaves no `,`: each one becomes a `.` in its
      place, and every other character stays. */
  lemma RateCommasReplaced(s: string)
    ensures var t := ReplaceChar(s, ',', '.');
      && ',' !in t && |t| == |s|
      && (forall k :: 0 <= k < |s| && s[k] == ',' ==> t[k] == '.')
      && (forall k :: 0 <= k < |s| && s[k] != ',' ==> t[k] == s[k])
  {
    var t := ReplaceChar(s, ',', '.');
    forall k | 0 <= k < |t| ensures t[k] != ',' {
    }
  }

  /** The money repair leaves neither a thousands separator nor a `,`: the
      text parsed has a `.` exactly where the cell, with its `.`s deleted,
      had a `,`. */
  lemma MoneySeparatorsSwapped(s: string)
    ensures var d := RemoveChar(s, '.'); var t := ReplaceChar(d, ',', '.');
      && '.' !in d && ',' !in t && |t| == |d|
      && (forall k :: 0 <= k < |d| ==> (t[k] == '.' <==> d[k] == ','))
  {
    var d := RemoveChar(s, '.');
    RateCommasReplaced(d);
  }

  /** A plain decimal text with no whitespace at either end. */
  lemma {:induction false} DecimalTextStripped(ip: string, fp: string)
    requires AllDigits(ip) && AllDigits(fp)
    ensures Stripped(ip + "." + fp)
  {
    var t := ip + "." + fp;
    if ip != [] { assert t[0] == ip[0]; } else { assert t[0] == '.'; }
    if fp != [] { assert t[|t| - 1] == fp[|fp| - 1]; } else { assert t[|t| - 1] == '.'; }
  }

  /** A rate written with a decimal comma reads as that decimal number. */
  lemma {:induction false} RateWithComma(ip: string, fp: string)
    requires AllDigits(ip) && AllDigits(fp) && |ip| + |fp| > 0
    ensures ParseRate(ip + "," + fp) == Rate(Magnitude(ip, fp))
  {
    CommaToPoint(ip, fp);
    ParsePointText(ip + "." + fp, ip, fp);
  }

  lemma {:induction false} CommaToPoint(ip: string, fp: string)
    requires AllDigits(ip) && AllDigits(fp)
    ensures ReplaceChar(ip + "," + fp, ',', '.') == ip + "." + fp
  {
    NoneOfDigits(ip, ',');
    NoneOfDigits(fp, ',');
    ReplaceAbsent(ip, ',', '.');
    ReplaceAbsent(fp, ',', '.');
    ReplaceCharAppend(ip + ",", fp, ',', '.');
    ReplaceCharAppend(ip, ",", ',', '.');
    assert ReplaceChar(",", ',', '.') == ".";
  }

  lemma {:induction false} ParsePointText(t: string, ip: string, fp: string)
    requires AllDigits(ip) && AllDigits(fp) && |ip| + |fp| > 0 && t == ip + "." + fp
    ensures ParseDecimal(Strip(t)) == Some(Magnitude(ip, fp))
  {
    DecimalTextStripped(ip, fp);
    assert DecimalText(false, ip, fp) == t;
    ParseDecimalText(false, ip, fp);
  }

  /** A whole-number rate reads as its integer value. */
  lemma {:induction false} RateWhole(ip: string)
    requires AllDigits(ip) && ip != []
    ensures ParseRate(ip) == Rate(Value(ip) as real)
  {
    NoneOfDigits(ip, ',');
    ReplaceAbsent(ip, ',', '.');
    assert !IsSpace(ip[0]) && !IsSpace(ip[|ip| - 1]) by {
      assert IsDigit(ip[0]) && IsDigit(ip[|ip| - 1]);
    }
    ParseDigits(ip);
  }

  lemma {:induction false} PlainDecimal(t: string, ip: string, fp: string)
    requires AllDigits(ip) && AllDigits(fp) && |ip| + |fp| > 0 && t == ip + "." + fp
    ensures ParseDecimal(t) == Some(Magnitude(ip, fp))
  {
    assert DecimalText(false, ip, fp) == t;
    ParseDecimalText(false, ip, fp);
  }

  /** Money written with a decimal comma and no thousands separator reads
      as that decimal number. */
  lemma {:induction false} MoneyWithComma(ip: string, fp: string)
    requires AllDigits(ip) && AllDigits(fp) && |ip| + |fp| > 0
    ensures ParseMoney(ip + "," + fp) == Some(Magnitude(ip, fp))
  {
    NoDotsToRemove(ip, fp);
    CommaToPoint(ip, fp);
    PlainDecimal(ip + "." + fp, ip, fp);
  }

  /** Without thousands separators both conventions agree on comma-decimal
      text. */
  lemma ConventionsAgreeOnComma(ip: string, fp: string)
    requires AllDigits(ip) && AllDigits(fp) && |ip| + |fp| > 0
    ensures ParseRate(ip + "," + fp) == Rate(Magnitude(ip, fp))
    ensures ParseMoney(ip + "," + fp) == Some(Magnitude(ip, fp))
  {
    RateWithComma(ip, fp);
    MoneyWithComma(ip, fp);
  }

  lemma {:induction false} NoDotsToRemove(ip: string, fp: string)
    requires AllDigits(ip) && AllDigits(fp)
    ensures RemoveChar(ip + "," + fp, '.') == ip + "," + fp
  {
    NoneOfDigits(ip, '.');
    NoneOfDigits(fp, '.');
    RemoveCharAppend(ip + ",", fp, '.');
    RemoveCharAppend(ip, ",", '.');
    assert RemoveChar(",", '.') == ",";
  }

  /** A rate written with a decimal point reads as that decimal number. */
  lemma {:induction false} RateWithPoint(ip: string, fp: string)
    requires AllDigits(ip) && AllDigits(fp) && |ip| + |fp| > 0
    ensures ParseRate(ip + "." + fp) == Rate(Magnitude(ip, fp))
  {
    var t := ip + "." + fp;
    NoneOfDigits(ip, ',');
    NoneOfDigits(fp, ',');
    assert ',' !in t;
    ReplaceAbsent(t, ',', '.');
    ParsePointText(t, ip, fp);
  }

  /** Money repair in two steps: the dots are deleted, then the comma
      becomes the point. */
  lemma ParseMoneyVia(s: string, u: string, t: string)
    requires RemoveChar(s, '.') == u && ReplaceChar(u, ',', '.') == t
    ensures ParseMoney(s) == ParseDecimal(t)
  {
  }

  lemma ParseRateVia(s: string, t: string)
    requires s != "" && Strip(ReplaceChar(s, ',', '.')) == t
    ensures ParseRate(s) == match ParseDecimal(t) case None => Malformed case Some(v) => Rate(v)
  {
  }

  /** In money the same point is a thousands separator: it is deleted and
      the digits on both sides form one integer. */
  lemma {:induction false} MoneyWithPoint(ip: string, fp: string)
    requires AllDigits(ip) && AllDigits(fp) && |ip| + |fp| > 0
    ensures ParseMoney(ip + "." + fp) == Some(Magnitude(ip + fp, []))
  {
    DotDeleted(ip, fp);
    AllDigitsAppend(ip, fp);
    NoneOfDigits(ip + fp, ',');
    ReplaceAbsent(ip + fp, ',', '.');
    ParseMoneyVia(ip + "." + fp, ip + fp, ip + fp);
    ParseDigits(ip + fp);
  }

  lemma {:induction false} DotDeleted(ip: string, fp: string)
    requires AllDigits(ip) && AllDigits(fp)
    ensures RemoveChar(ip + "." + fp, '.') == ip + fp
  {
    NoneOfDigits(ip, '.');
    NoneOfDigits(fp, '.');
    RemoveCharAppend(ip + ".", fp, '.');
    RemoveCharAppend(ip, ".", '.');
    assert RemoveChar(".", '.') == "";
    assert RemoveChar(ip, '.') == ip;
    assert RemoveChar(fp, '.') == fp;
    assert ip + "" == ip;
    assert RemoveChar(ip + ".", '.') == ip;
  }

  /** A rate cell fails to convert exactly when it is not empty and, with
      its commas turned into points and its whitespace stripped, it is not
      a number text. */
  lemma RateMalformedExactly(s: string)
    ensures ParseRate(s).Malformed? <==> s != "" && !DecimalSyntax(Strip(ReplaceChar(s, ',', '.')))
  {
    ParseDecimalSyntax(Strip(ReplaceChar(s, ',', '.')));
  }

  /** A money cell becomes NaN exactly when, with its dots deleted and its
      comma turned into a point, it is not a number text. */
  lemma MoneyFailsExactly(s: string)
    ensures ParseMoney(s).None? <==> !DecimalSyntax(ReplaceChar(RemoveChar(s, '.'), ',', '.'))
  {
    ParseDecimalSyntax(ReplaceChar(RemoveChar(s, '.'), ',', '.'));
  }

  predicate Blanks(s: string) {
    forall k :: 0 <= k < |s| ==> IsSpace(s[k])
  }

  /** A signed whole rate with whitespace around it reads as its value. */
  lemma {:induction false} RatePaddedWhole(pre: string, sgn: string, ip: string, post: string)
    requires Blanks(pre) && Blanks(post) && SignMark(sgn) && AllDigits(ip) && ip != []
    ensures ParseRate(pre + sgn + ip + post) == Rate(Signed(sgn, Value(ip) as real))
  {
    NoneOfDigits(ip, ',');
    ReplaceAbsent(ip, ',', '.');
    assert Stripped(ip) by { assert IsDigit(ip[0]) && IsDigit(ip[|ip| - 1]); }
    SignedRateVia(pre, sgn, ip, ip, post);
    ParseSignedWhole(sgn, ip);
  }

  /** A signed rate with a decimal comma and whitespace around it reads as
      its value. */
  lemma {:induction false} RatePadded(pre: string, sgn: string, ip: string, fp: string, post: string)
    requires Blanks(pre) && Blanks(post) && SignMark(sgn)
    requires AllDigits(ip) && AllDigits(fp) && |ip| + |fp| > 0
    ensures ParseRate(pre + sgn + ip + "," + fp + post) == Rate(Signed(sgn, Magnitude(ip, fp)))
  {
    var x, b := ip + "," + fp, ip + "." + fp;
    CommaToPoint(ip, fp);
    DecimalTextStripped(ip, fp);
    SignedRateVia(pre, sgn, x, b, post);
    Spliced(pre + sgn, ip, ",", fp, post);
    Spliced(sgn, ip, ".", fp, []);
    ParseSignedPoint(sgn, ip, fp);
  }

  /** A sign before a stripped number, with whitespace around both. */
  lemma {:induction false} SignedRateVia(pre: string, sgn: string, x: string, b: string, post: string)
    requires Blanks(pre) && Blanks(post) && SignMark(sgn)
    requires ReplaceChar(x, ',', '.') == b && b != [] && Stripped(b)
    ensures ParseRate(pre + sgn + x + post) == match ParseDecimal(sgn + b) case None => Malformed case Some(v) => Rate(v)
  {
    SignedComma(sgn, x, b);
    SignedStripped(sgn, b);
    Regrouped(pre, sgn, x, post);
    PaddedRateVia(pre, sgn + x, sgn + b, post);
  }

  lemma Regrouped(a: string, b: string, c: string, d: string)
    ensures a + b + c + d == a + (b + c) + d
  {
  }

  lemma Spliced(a: string, b: string, c: string, d: string, e: string)
    ensures a + b + c + d + e == a + (b + c + d) + e
    ensures a + b + c + d == a + (b + c + d)
  {
  }

  lemma SignedStripped(sgn: string, b: string)
    requires SignMark(sgn) && b != [] && Stripped(b)
    ensures sgn + b != [] && Stripped(sgn + b)
  {
    var u := sgn + b;
    assert u[|u| - 1] == b[|b| - 1];
    if sgn == "" { assert u == b; } else { assert u[0] == sgn[0]; }
  }

  lemma SignedComma(sgn: string, x: string, b: string)
    requires SignMark(sgn) && ReplaceChar(x, ',', '.') == b
    ensures ReplaceChar(sgn + x, ',', '.') == sgn + b
  {
    assert ',' !in sgn;
    ReplaceAbsent(sgn, ',', '.');
    ReplaceCharAppend(sgn, x, ',', '.');
  }

  /** Whitespace around a rate is stripped after the comma conversion, which
      leaves it untouched. */
  lemma {:induction false} PaddedRateVia(pre: string, t: string, u: string, post: string)
    requires Blanks(pre) && Blanks(post) && ReplaceChar(t, ',', '.') == u && u != [] && Stripped(u)
    ensures ParseRate(pre + t + post) == match ParseDecimal(u) case None => Malformed case Some(v) => Rate(v)
  {
    assert ',' !in pre && ',' !in post by {
      assert !IsSpace(',');
    }
    ReplaceAbsent(pre, ',', '.');
    ReplaceAbsent(post, ',', '.');
    ReplaceCharAppend(pre + t, post, ',', '.');
    ReplaceCharAppend(pre, t, ',', '.');
    StripPadded(pre, u, post);
    assert |pre + t + post| > 0;
    ParseRateVia(pre + t + post, u);
  }

  /** The two conventions read `17.5` as different numbers: a rate of 17.5 ... */
  lemma PointInRate()
    ensures ParseRate("17.5") == Rate(17.5)
  {
    assert "17" + "." + "5" == "17.5";
    DecimalTextStripped("17", "5");
    assert Strip("17.5") == "17.5";
    assert ReplaceChar("17.5", ',', '.') == "17.5";
    ParseRateVia("17.5", "17.5");
    PointSample();
  }

  lemma PointSample()
    ensures ParseDecimal("17.5") == Some(17.5)
  {
  }

  /** ... and an amount of 175. */
  lemma PointInMoney()
    ensures ParseMoney("17.5") == Some(175.0)
  {
    assert RemoveChar("17.5", '.') == "175";
    assert ReplaceChar("175", ',', '.') == "175";
    ParseMoneyVia("17.5", "175", "175");
    WholeSample();
  }

  lemma WholeSample()
    ensures ParseDecimal("175") == Some(175.0)
  {
    ParseDigits("175");
    assert Magnitude("175", []) == Value("175") as real;
    assert Value("1") == 1;
    assert Value("17") == 17;
    assert Value("175") == 175;
  }

  /** Text in the money convention is not a valid rate: its second
      separator makes the conversion fail. */
  lemma MoneyTextIsNoRate()
    ensures ParseRate("1.234,56") == Malformed
  {
    var t := "1.234.56";
    assert ReplaceChar("1.234,56", ',', '.') == t;
    assert Stripped(t) by {
      assert t[0] == '1' && t[|t| - 1] == '6';
    }
    assert Strip(t) == t;
    ParseRateVia("1.234,56", t);
    TwoPointsSample();
  }

  lemma TwoPointsSample()
    ensures ParseDecimal("1.234.56") == None
  {
    var t := "1.234.56";
    assert Unsigned(t) == t;
    assert IndexOf(t, '.') == 1 by { assert t[0] == '1' && t[1] == '.'; }
    assert FracPart(t) == t[2..];
    assert t[2..][3] == '.';
    assert !AllDigits(FracPart(t));
  }

  function Abs(x: real): (a: real)
    ensures a >= 0.0 && (a == x || a == -x)
  {
    if x < 0.0 then -x else x
  }

  /** Rounds to the nearest integer, ties to the even one (the rounding of
      Python's fixed-point format, applied to the exact value). */
  function RoundHalfEven(x: real): (n: nat)
    requires x >= 0.0
    ensures x - 0.5 <= n as real <= x + 0.5
    ensures x == x.Floor as real ==> n == x.Floor
    ensures x - x.Floor as real == 0.5 ==> n % 2 == 0
  {
    var f := x.Floor;
    var d := x - f as real;
    if d < 0.5 then f else if d > 0.5 then f + 1 else if f % 2 == 0 then f else f + 1
  }

  /** `f"{n:,}"` with the separator already swapped to `.`: the digits of
      `n` in groups of three from the right. */
  function Grouped(n: nat): (s: string)
    ensures s != []
  {
    if n < 1000 then IntText(n) else Grouped(n / 1000) + "." + PaddedText(n % 1000, 3)
  }

  function SignText(neg: bool): string {
    if neg then "-" else ""
  }

  /** The rendering of `units` and `cents` (below 100): an optional `-`, the
      grouped integer part, `,`, and exactly two cents digits. */
  function CentsText(neg: bool, units: nat, cents: nat): (s: string)
    requires cents < 100
    ensures s != []
  {
    SignText(neg) + Grouped(units) + "," + PaddedText(cents, 2)
  }

  /** `f"{v:,.2f}"` with `,` and `.` swapped: the value rounded to cents and
      written as `CentsText`. A negative value keeps its `-` even when it
      rounds to zero, as Python's format does. */
  function FormatMoney(v: real): (s: string)
    ensures MoneyShape(s)
    ensures (|s| > 0 && s[0] == '-') <==> v < 0.0
  {
    var c := RoundHalfEven(Abs(v) * 100.0);
    GroupedIsShaped(c / 100);
    GroupedHead(c / 100);
    ShapeOfParts(v < 0.0, Grouped(c / 100), PaddedText(c % 100, 2));
    CentsText(v < 0.0, c / 100, c % 100)
  }

  /** With its thousands dots deleted, a rendered amount is the sign, the
      printed integer part without leading zeros, `,` and the two cents
      digits of the value rounded to cents. */
  lemma FormatDigits(v: real)
    ensures var c := RoundHalfEven(Abs(v) * 100.0);
      RemoveChar(FormatMoney(v), '.') == SignText(v < 0.0) + IntText(c / 100) + "," + PaddedText(c % 100, 2)
  {
    var c := RoundHalfEven(Abs(v) * 100.0);
    RemoveDotsOfParts(v < 0.0, Grouped(c / 100), PaddedText(c % 100, 2));
    GroupedValue(c / 100);
  }

  /** Digits grouped in threes by `.`: one to three digits, or a grouped
      prefix, a `.` and exactly three digits. */
  predicate GroupedShape(g: string)
    decreases |g|
  {
    (1 <= |g| <= 3 && AllDigits(g))
    || (|g| > 4 && g[|g| - 4] == '.' && AllDigits(g[|g| - 3..]) && GroupedShape(g[..|g| - 4]))
  }

  /** The text shape of rendered money: `-`?, grouped digits, `,`, two digits. */
  predicate MoneyShape(s: string) {
    var body := if |s| > 0 && s[0] == '-' then s[1..] else s;
    |body| >= 4 && body[|body| - 3] == ',' && AllDigits(body[|body| - 2..])
    && GroupedShape(body[..|body| - 3])
  }

  lemma NoneOfDigits(s: string, c: char)
    requires AllDigits(s) && !IsDigit(c)
    ensures c !in s
  {
    assert forall k :: 0 <= k < |s| ==> s[k] != c;
  }

  lemma IntTextShort(n: nat)
    requires n < 1000
    ensures |IntText(n)| <= 3
  {
    if n >= 10 {
      assert |IntText(n)| == |IntText(n / 10)| + 1;
      if n >= 100 {
        assert |IntText(n / 10)| == |IntText(n / 10 / 10)| + 1;
        assert n / 10 / 10 < 10;
      }
    }
  }

  lemma {:induction false} GroupedIsShaped(n: nat)
    ensures GroupedShape(Grouped(n))
  {
    if n >= 1000 {
      GroupedIsShaped(n / 1000);
      var g := Grouped(n);
      var p := Grouped(n / 1000);
      var t := PaddedText(n % 1000, 3);
      assert g == p + "." + t;
      assert g[..|g| - 4] == p;
      assert g[|g| - 3..] == t;
    } else {
      IntTextShort(n);
    }
  }

  lemma {:induction false} GroupedHead(n: nat)
    ensures Grouped(n) != [] && IsDigit(Grouped(n)[0])
  {
    if n >= 1000 {
      GroupedHead(n / 1000);
      assert Grouped(n)[0] == Grouped(n / 1000)[0];
    }
  }

  /** Sign, grouped digits, `,` and two digits make a money text. */
  lemma {:induction false} ShapeOfParts(neg: bool, g: string, t: string)
    requires GroupedShape(g) && g != [] && IsDigit(g[0]) && AllDigits(t) && |t| == 2
    ensures MoneyShape((if neg then "-" else "") + g + "," + t)
  {
    var body := g + "," + t;
    assert body[|body| - 3] == ',';
    assert body[|body| - 2..] == t;
    assert body[..|body| - 3] == g;
    var s := (if neg then "-" else "") + g + "," + t;
    if neg {
      assert s == "-" + body;
      assert s[1..] == body;
    } else {
      assert s == body;
      assert s[0] == g[0];
    }
  }

  /** Deleting the thousands dots of grouped digits leaves the plain digits
      of the same number. */
  lemma {:induction false} GroupedValue(n: nat)
    ensures AllDigits(RemoveChar(Grouped(n), '.'))
    ensures RemoveChar(Grouped(n), '.') != []
    ensures Value(RemoveChar(Grouped(n), '.')) == n
    ensures RemoveChar(Grouped(n), '.') == IntText(n)
  {
    if n < 1000 {
      NoneOfDigits(IntText(n), '.');
      IntTextValue(n);
    } else {
      var p, t := Grouped(n / 1000), PaddedText(n % 1000, 3);
      GroupedValue(n / 1000);
      assert Grouped(n) == p + "." + t;
      GroupStep(p, t, RemoveChar(p, '.'));
      PaddedTextValue(n % 1000, 3);
      assert n == n / 1000 * 1000 + n % 1000;
      IntTextSplit(n);
    }
  }

  /** One group of three digits after a `.`: the dot is deleted and the
      group counts as the three lowest digits. */
  lemma {:induction false} GroupStep(p: string, t: string, d: string)
    requires AllDigits(t) && |t| == 3 && AllDigits(d) && d == RemoveChar(p, '.')
    ensures RemoveChar(p + "." + t, '.') == d + t
    ensures AllDigits(d + t) && d + t != []
    ensures Value(d + t) == Value(d) * 1000 + Value(t)
  {
    NoneOfDigits(t, '.');
    RemoveCharAppend(p + ".", t, '.');
    RemoveCharAppend(p, ".", '.');
    assert RemoveChar(".", '.') == "";
    assert d + "" == d;
    ValueAppend(d, t);
    assert Pow10(3) == 1000;
  }

  /** Deleting the dots of `sign + g + "," + t` touches only `g`. */
  lemma {:induction false} RemoveDotsOfParts(neg: bool, g: string, t: string)
    requires AllDigits(t)
    ensures RemoveChar(SignText(neg) + g + "," + t, '.') == SignText(neg) + RemoveChar(g, '.') + "," + t
  {
    var sign := SignText(neg);
    NoneOfDigits(t, '.');
    RemoveCharAppend(sign + g + ",", t, '.');
    RemoveCharAppend(sign + g, ",", '.');
    RemoveCharAppend(sign, g, '.');
    assert RemoveChar(sign, '.') == sign;
    assert RemoveChar(",", '.') == ",";
  }

  /** Turning the `,` of `sign + d + "," + t` into `.` gives a decimal text. */
  lemma {:induction false} CommaToPointOfParts(neg: bool, d: string, t: string)
    requires AllDigits(d) && AllDigits(t)
    ensures ReplaceChar(SignText(neg) + d + "," + t, ',', '.') == DecimalText(neg, d, t)
  {
    var sign := SignText(neg);
    NoneOfDigits(t, ',');
    NoneOfDigits(d, ',');
    ReplaceAbsent(t, ',', '.');
    ReplaceAbsent(d, ',', '.');
    ReplaceAbsent(sign, ',', '.');
    ReplaceCharAppend(sign + d + ",", t, ',', '.');
    ReplaceCharAppend(sign + d, ",", ',', '.');
    ReplaceCharAppend(sign, d, ',', '.');
    assert ReplaceChar(sign, ',', '.') == sign;
    assert ReplaceChar(",", ',', '.') == ".";
  }

  /** A two-decimal value is rendered from its exact number of cents. */
  lemma {:induction false} FormatCents(c: int)
    ensures var a := if c < 0 then -c else c;
      FormatMoney(c as real / 100.0) == CentsText(c < 0, a / 100, a % 100)
  {
    var v := c as real / 100.0;
    var a := if c < 0 then -c else c;
    assert Abs(v) * 100.0 == a as real;
    assert RoundHalfEven(a as real) == a;
    assert (v < 0.0) == (c < 0);
  }

  /** Money repair reads back `sign + grouped + "," + two digits` as the
      signed number. */
  lemma {:induction false} ParseMoneyOfParts(neg: bool, n: nat, r: nat)
    requires r < 100
    ensures ParseMoney(CentsText(neg, n, r)) == Some(CentsValue(neg, n, r))
  {
    var t := PaddedText(r, 2);
    GroupedValue(n);
    var d := RemoveChar(Grouped(n), '.');
    PaddedTextValue(r, 2);
    RepairOfParts(neg, Grouped(n), t, d);
    ParseCentsText(neg, d, t, n, r);
  }

  /** Money repair of `sign + g + "," + t` parses the plain digits of `g`
      as the integer part. */
  lemma {:induction false} RepairOfParts(neg: bool, g: string, t: string, d: string)
    requires AllDigits(t) && AllDigits(d) && d == RemoveChar(g, '.')
    ensures ParseMoney(SignText(neg) + g + "," + t) == ParseDecimal(DecimalText(neg, d, t))
  {
    RemoveDotsOfParts(neg, g, t);
    CommaToPointOfParts(neg, d, t);
  }

  lemma {:induction false} ParseCentsText(neg: bool, d: string, t: string, n: nat, r: nat)
    requires AllDigits(d) && AllDigits(t) && |t| == 2 && Value(d) == n && Value(t) == r && d != []
    ensures ParseDecimal(DecimalText(neg, d, t)) == Some(CentsValue(neg, n, r))
  {
    ParseDecimalText(neg, d, t);
    MagnitudeOfCents(d, t, n, r);
  }

  lemma MagnitudeOfCents(d: string, t: string, n: nat, r: nat)
    requires AllDigits(d) && AllDigits(t) && |t| == 2 && Value(d) == n && Value(t) == r
    ensures Magnitude(d, t) == n as real + r as real / 100.0
  {
    assert Pow10(|t|) == 100;
  }

  /** Repairing rendered cents gives back the same amount: formatting a
      two-decimal value and then applying the money repair is the identity. */
  lemma {:induction false} ParseFormatCents(c: int)
    ensures ParseMoney(FormatMoney(c as real / 100.0)) == Some(c as real / 100.0)
  {
    var neg, n, r := CentsOf(c);
    ParseMoneyOfParts(neg, n, r);
  }

  /** The signed amount of `units` and `cents`. */
  function CentsValue(neg: bool, units: nat, cents: nat): real {
    var x := units as real + cents as real / 100.0;
    if neg then -x else x
  }

  /** The sign, units and cents that a two-decimal value is rendered from. */
  lemma CentsOf(c: int) returns (neg: bool, n: nat, r: nat)
    ensures r < 100
    ensures FormatMoney(c as real / 100.0) == CentsText(neg, n, r)
    ensures Some(CentsValue(neg, n, r)) == Some(c as real / 100.0)
  {
    var a := if c < 0 then -c else c;
    neg, n, r := c < 0, a / 100, a % 100;
    FormatCents(c);
    SignedCents(c);
  }

  lemma SignedCents(c: int)
    ensures var a := if c < 0 then -c else c;
      var x := (a / 100) as real + (a % 100) as real / 100.0;
      (if c < 0 then -x else x) == c as real / 100.0
  {
    var a := if c < 0 then -c else c;
    CentsSplit(a);
  }

  lemma CentsSplit(a: nat)
    ensures (a / 100) as real + (a % 100) as real / 100.0 == a as real / 100.0
  {
    var q, r := a / 100, a % 100;
    assert a == q * 100 + r;
    assert a as real == q as real * 100.0 + r as real;
  }

  /** The sample amount of the ledger: 123456 cents render as `1.234,56`. */
  lemma FormatSample()
    ensures FormatMoney(1234.56) == "1.234,56"
  {
    assert Abs(1234.56) * 100.0 == 123456.0;
    assert RoundHalfEven(123456.0) == 123456;
    GroupedSample();
    CentsDigitsSample();
    assert CentsText(false, 1234, 56) == "1.234,56";
    FormatVia(1234.56, 123456, "1.234,56");
  }

  /** The rendering of a value, from its rounded cents. */
  lemma FormatVia(v: real, c: nat, text: string)
    requires RoundHalfEven(Abs(v) * 100.0) == c && CentsText(v < 0.0, c / 100, c % 100) == text
    ensures FormatMoney(v) == text
  {
  }

  lemma GroupedSample()
    ensures Grouped(1234) == "1.234"
  {
    assert IntText(1) == "1";
    assert PaddedText(2, 1) == "2";
    assert PaddedText(23, 2) == "23";
    assert PaddedText(234, 3) == "234";
  }

  lemma CentsDigitsSample()
    ensures PaddedText(56, 2) == "56"
  {
    assert PaddedText(5, 1) == "5";
  }

  /** ... and `1.234,56` repairs back to 1234.56. */
  lemma RepairSample()
    ensures ParseMoney("1.234,56") == Some(1234.56)
  {
    FormatSample();
    ParseFormatCents(123456);
    assert 123456 as real / 100.0 == 1234.56;
  }
}
