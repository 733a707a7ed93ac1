/**
 * The global `parseFloat` and the division by one hundred, over exact
 * decimals instead of IEEE-754 doubles.
 */
module JsNumber {
  import opened JsString

  /** The exact value `mantissa * 10^exponent`. */
  datatype Decimal = Decimal(mantissa: int, exponent: int)

  /** What `parseFloat` can produce: NaN, a finite value, or a signed infinity. */
  datatype Number = NaN | Finite(d: Decimal) | Infinity(negative: bool)

  function Pow10(n: nat): (r: nat)
    ensures r >= 1
  {
    if n == 0 then 1 else 10 * Pow10(n - 1)
  }

  /** The real number a decimal denotes. */
  function RealValue(d: Decimal): real {
    if d.exponent >= 0 then (d.mantissa * Pow10(d.exponent)) as real
    else d.mantissa as real / Pow10(-d.exponent) as real
  }

  predicate IsDigit(c: char) {
    '0' <= c <= '9'
  }

  predicate AllDigits(s: string) {
    forall k :: 0 <= k < |s| ==> IsDigit(s[k])
  }

  /** Length of the longest prefix made of ASCII digits. */
  function DigitRun(s: string): (n: nat)
    ensures n <= |s| && AllDigits(s[..n])
    ensures n < |s| ==> !IsDigit(s[n])
  {
    if s != [] && IsDigit(s[0]) then 1 + DigitRun(s[1..]) else 0
  }

  /** The natural number a string of decimal digits spells. */
  function DigitsValue(s: string): nat
    requires AllDigits(s)
  {
    if s == [] then 0
    else DigitsValue(s[..|s| - 1]) * 10 + ((s[|s| - 1] as int) - ('0' as int))
  }

  /** The magnitude `m` with the sign read in front of it. */
  function Signed(negative: bool, m: nat): int {
    if negative then -(m as int) else m
  }

  /** An optional leading sign: whether the number is negative, and the text after the sign. */
  function StripSign(t: string): (bool, string) {
    if t != [] && (t[0] == '+' || t[0] == '-') then (t[0] == '-', t[1..]) else (false, t)
  }

  predicate StartsWithInfinity(u: string) {
    "Infinity" <= u
  }

  /**
   * The value of an exponent part (`e` or `E`, an optional sign, at least
   * one digit) at the start of `s`; an incomplete exponent is not part of
   * the literal and counts as zero.
   */
  function ExponentOf(s: string): int {
    if |s| >= 2 && (s[0] == 'e' || s[0] == 'E') then
      var (negative, v) := StripSign(s[1..]);
      var k := DigitRun(v);
      if k == 0 then 0
      else Signed(negative, DigitsValue(v[..k]))
    else 0
  }

  /**
   * `parseFloat`: skip leading white space, then read the longest prefix
   * that is a decimal literal (sign, digits, optional fraction, optional
   * exponent) or `Infinity`; anything after it is ignored, and no literal
   * at all gives NaN.
   */
  function ParseFloat(s: string): Number {
    var (negative, u) := StripSign(TrimStart(s));
    ParseUnsigned(negative, u)
  }

  /** The literal at the start of `u`, which follows the sign. */
  function ParseUnsigned(negative: bool, u: string): Number {
    if StartsWithInfinity(u) then Infinity(negative)
    else
      var n := DigitRun(u);
      var (fraction, rest) := FractionPart(u[n..]);
      if n + |fraction| == 0 then NaN
      else Finite(Decimal(Signed(negative, DigitsValue(u[..n] + fraction)), ExponentOf(rest) - |fraction|))
  }

  /** The digits of an optional `.` fraction at the start of `t`, and the text after them. */
  function FractionPart(t: string): (r: (string, string))
    ensures AllDigits(r.0)
  {
    if t != [] && t[0] == '.' then
      var f := DigitRun(t[1..]);
      (t[1..][..f], t[1..][f..])
    else ([], t)
  }

  /** The text can begin a literal: a digit, a dot followed by a digit, or `Infinity`. */
  predicate StartsLiteral(u: string) {
    || (u != [] && IsDigit(u[0]))
    || (|u| >= 2 && u[0] == '.' && IsDigit(u[1]))
    || StartsWithInfinity(u)
  }

  /** `parseFloat` gives NaN exactly when no literal starts after the white space and the sign. */
  lemma {:induction false} ParseFloatNaN(s: string)
    ensures ParseFloat(s) == NaN <==> !StartsLiteral(StripSign(TrimStart(s)).1)
  {
    var (negative, u) := StripSign(TrimStart(s));
    UnsignedNaN(negative, u);
  }

  lemma {:induction false} UnsignedNaN(negative: bool, u: string)
    ensures ParseUnsigned(negative, u) == NaN <==> !StartsLiteral(u)
  {
    if !StartsWithInfinity(u) {
      var n := DigitRun(u);
      assert n > 0 <==> u != [] && IsDigit(u[0]);
      if n == 0 {
        var fraction := FractionPart(u).0;
        if u != [] && u[0] == '.' {
          var f := DigitRun(u[1..]);
          assert |fraction| == f;
          assert f > 0 <==> u[1..] != [] && IsDigit(u[1..][0]);
        } else {
          assert fraction == [];
        }
      }
    }
  }

  lemma {:induction false} DigitRunOf(a: string, t: string)
    requires AllDigits(a)
    requires t == [] || !IsDigit(t[0])
    ensures DigitRun(a + t) == |a|
  {
    if a != [] {
      assert (a + t)[1..] == a[1..] + t;
      DigitRunOf(a[1..], t);
    }
  }

  /** Text that ends a literal: empty, or starting with neither a digit nor an exponent mark. */
  predicate EndsLiteral(j: string) {
    j == [] || (!IsDigit(j[0]) && j[0] != 'e' && j[0] != 'E')
  }

  function SignText(negative: bool): string {
    if negative then "-" else ""
  }

  /** White space and an optional minus sign in front of a literal are consumed before the literal is read. */
  lemma {:induction false} ParseFloatPrefix(w: string, negative: bool, u: string)
    requires AllWhiteSpace(w) && u != [] && (IsDigit(u[0]) || u[0] == '.')
    ensures ParseFloat(w + SignText(negative) + u) == ParseUnsigned(negative, u)
  {
    var t := SignText(negative) + u;
    assert w + SignText(negative) + u == w + t;
    assert t[0] == if negative then '-' else u[0];
    TrimStartSkips(w, t);
    assert StripSign(t).1 == u;
  }

  /**
   * A fixed-point literal `a.b` after white space and an optional minus sign
   * parses to the integer `ab` scaled by `10^-|b|`, whatever follows it.
   */
  lemma {:induction false} ParseFixedPoint(w: string, negative: bool, a: string, b: string, j: string)
    requires AllWhiteSpace(w) && AllDigits(a) && AllDigits(b) && |a| + |b| > 0
    requires EndsLiteral(j)
    ensures AllDigits(a + b)
    ensures ParseFloat(w + SignText(negative) + a + "." + b + j)
              == Finite(Decimal(Signed(negative, DigitsValue(a + b)), -|b|))
  {
    var u := a + "." + b + j;
    assert u[0] == if a != [] then a[0] else '.';
    assert w + SignText(negative) + a + "." + b + j == w + SignText(negative) + u;
    ParseFloatPrefix(w, negative, u);
    UnsignedFixedPoint(negative, a, b, j);
  }

  lemma {:induction false} UnsignedFixedPoint(negative: bool, a: string, b: string, j: string)
    requires AllDigits(a) && AllDigits(b) && |a| + |b| > 0
    requires EndsLiteral(j)
    ensures AllDigits(a + b)
    ensures ParseUnsigned(negative, a + "." + b + j)
              == Finite(Decimal(Signed(negative, DigitsValue(a + b)), -|b|))
  {
    var t := "." + b + j;
    var u := a + t;
    assert u == a + "." + b + j;
    DigitRunOf(a, t);
    assert u[..|a|] == a && u[|a|..] == t;
    FractionOf(b, j);
    NotInfinity(u);
    ParseUnsignedParts(negative, u, a, b, j);
  }

  lemma {:induction false} FractionOf(b: string, j: string)
    requires AllDigits(b) && EndsLiteral(j)
    ensures FractionPart("." + b + j) == (b, j)
  {
    var t := "." + b + j;
    assert t[1..] == b + j;
    DigitRunOf(b, j);
    assert (b + j)[..|b|] == b && (b + j)[|b|..] == j;
  }

  lemma {:induction false} NoExponent(j: string)
    requires EndsLiteral(j)
    ensures ExponentOf(j) == 0
  {
  }

  /** `ParseUnsigned` read off from the pieces its scan finds in `u`. */
  lemma {:induction false} ParseUnsignedParts(negative: bool, u: string, a: string, b: string, j: string)
    requires AllDigits(a) && AllDigits(b) && |a| + |b| > 0 && EndsLiteral(j)
    requires DigitRun(u) == |a| && u[..|a|] == a && FractionPart(u[|a|..]) == (b, j)
    requires !StartsWithInfinity(u)
    ensures AllDigits(a + b)
    ensures ParseUnsigned(negative, u) == Finite(Decimal(Signed(negative, DigitsValue(a + b)), -|b|))
  {
    NoExponent(j);
  }

  lemma {:induction false} NotInfinity(u: string)
    requires u != [] && (IsDigit(u[0]) || u[0] == '.')
    ensures !StartsWithInfinity(u)
  {
  }

  /** An integer literal after white space and an optional minus sign parses to its value, whatever follows it. */
  lemma {:induction false} ParseInteger(w: string, negative: bool, a: string, j: string)
    requires AllWhiteSpace(w) && AllDigits(a) && a != []
    requires EndsLiteral(j) && (j == [] || j[0] != '.')
    ensures ParseFloat(w + SignText(negative) + a + j) == Finite(Decimal(Signed(negative, DigitsValue(a)), 0))
  {
    var u := a + j;
    assert w + SignText(negative) + a + j == w + SignText(negative) + u;
    ParseFloatPrefix(w, negative, u);
    UnsignedInteger(negative, a, j);
  }

  lemma {:induction false} UnsignedInteger(negative: bool, a: string, j: string)
    requires AllDigits(a) && a != []
    requires EndsLiteral(j) && (j == [] || j[0] != '.')
    ensures ParseUnsigned(negative, a + j) == Finite(Decimal(Signed(negative, DigitsValue(a)), 0))
  {
    var u := a + j;
    DigitRunOf(a, j);
    assert u[..|a|] == a && u[|a|..] == j;
    assert FractionPart(j) == ([], j);
    assert a + [] == a;
    NotInfinity(u);
    ParseUnsignedParts(negative, u, a, [], j);
  }

  /** The ` / 100` applied to a parsed number: NaN and the infinities stay as they are. */
  function Div100(n: Number): (r: Number)
    ensures r.NaN? <==> n.NaN?
    ensures n.Infinity? ==> r == n
    ensures n.Finite? ==> r.Finite? && RealValue(r.d) * 100.0 == RealValue(n.d)
  {
    match n
    case Finite(d) =>
      var r := Decimal(d.mantissa, d.exponent - 2);
      ScaleDown(d);
      Finite(r)
    case _ => n
  }

  lemma ScaleDown(d: Decimal)
    ensures RealValue(Decimal(d.mantissa, d.exponent - 2)) * 100.0 == RealValue(d)
  {
    var m, e := d.mantissa, d.exponent;
    if e >= 2 {
      ScaleDownWhole(m, e);
    } else if e == 1 {
      assert Pow10(1) == 10;
      assert (m as real / 10.0) * 100.0 == (m * 10) as real;
    } else if e == 0 {
      assert Pow10(2) == 100;
      assert (m as real / 100.0) * 100.0 == m as real;
    } else {
      ScaleDownFraction(m, -e);
    }
  }

  lemma ScaleDownWhole(m: int, e: nat)
    requires e >= 2
    ensures RealValue(Decimal(m, e - 2)) * 100.0 == RealValue(Decimal(m, e))
  {
    var p := Pow10(e - 2);
    assert Pow10(e) == 100 * p by {
      assert Pow10(e) == 10 * Pow10(e - 1);
      assert Pow10(e - 1) == 10 * p;
    }
    assert m * (100 * p) == (m * p) * 100;
  }

  lemma ScaleDownFraction(m: int, k: nat)
    requires k >= 1
    ensures RealValue(Decimal(m, -(k as int) - 2)) * 100.0 == RealValue(Decimal(m, -(k as int)))
  {
    var q := Pow10(k);
    assert Pow10(k + 2) == 100 * q by {
      assert Pow10(k + 2) == 10 * Pow10(k + 1);
      assert Pow10(k + 1) == 10 * q;
    }
    var x, y := m as real, q as real;
    assert y > 0.0;
    assert RealValue(Decimal(m, -(k as int) - 2)) == x / (100.0 * y);
    assert (x / (100.0 * y)) * 100.0 == x / y;
  }
}
