/**
 * `toNum` and `percent`: Brazilian-formatted cell text ("1.234,56",
 * "8,75%", "N/A") turned into numbers.
 */
module Normalizer {
  import opened JsString
  import opened JsNumber

  /** The placeholder the ranking page shows for a missing value. */
  const NotAvailable := "N/A"

  /** What both normalisers return for the placeholder. */
  const Zero := Finite(Decimal(0, 0))

  /** The sentinel test `str.trim() === 'N/A'`: exact and case-sensitive after trimming. */
  predicate IsSentinel(s: string) {
    Trim(s) == NotAvailable
  }

  /** The rewrite chain shared by both normalisers: thousands dots deleted first, then decimal commas turned into dots. */
  function Clean(s: string): string {
    ReplaceAll(RemoveAll(s, '.'), ',', '.')
  }

  /** `toNum`. */
  function ToNum(s: string): Number {
    if IsSentinel(s) then Zero else ParseFloat(Clean(s))
  }

  /** The rewrite chain of `percent`: `Clean`, then the first `%` and then the first space deleted. */
  function PercentClean(s: string): string {
    RemoveFirst(RemoveFirst(Clean(s), '%'), ' ')
  }

  /** `percent`; the placeholder gives zero without the division. */
  function Percent(s: string): Number {
    if IsSentinel(s) then Zero else Div100(ParseFloat(PercentClean(s)))
  }

  // ---------------------------------------------------------------------
  // The rewrite chain as a character map

  /** What one character of the input becomes: a dot vanishes, a comma becomes a dot, the rest stays. */
  function LocaleChar(c: char): string {
    if c == '.' then [] else if c == ',' then "." else [c]
  }

  /** The character map applied left to right; an independent definition of `Clean`. */
  function MapChars(s: string): string {
    if s == [] then [] else LocaleChar(s[0]) + MapChars(s[1..])
  }

  lemma {:induction false} ReplaceAllAppend(x: string, y: string, a: char, b: char)
    ensures ReplaceAll(x + y, a, b) == ReplaceAll(x, a, b) + ReplaceAll(y, a, b)
  {
    var l := ReplaceAll(x + y, a, b);
    var r := ReplaceAll(x, a, b) + ReplaceAll(y, a, b);
    assert |l| == |r|;
    forall i | 0 <= i < |l| ensures l[i] == r[i] {
      if i < |x| { assert (x + y)[i] == x[i]; } else { assert (x + y)[i] == y[i - |x|]; }
    }
  }

  /** The two global replaces amount to one pass of the character map: the order of the chain keeps the new dots. */
  lemma {:induction false} CleanIsCharMap(s: string)
    ensures Clean(s) == MapChars(s)
  {
    if s != [] {
      var head := if s[0] == '.' then [] else [s[0]];
      assert RemoveAll(s, '.') == head + RemoveAll(s[1..], '.');
      ReplaceAllAppend(head, RemoveAll(s[1..], '.'), ',', '.');
      assert ReplaceAll(head, ',', '.') == LocaleChar(s[0]);
      CleanIsCharMap(s[1..]);
    }
  }

  lemma {:induction false} MapCharsCounts(s: string)
    ensures |MapChars(s)| == |s| - multiset(s)['.']
    ensures multiset(MapChars(s))['.'] == multiset(s)[',']
    ensures multiset(MapChars(s))[','] == 0
    ensures forall c :: c != '.' && c != ',' ==> multiset(MapChars(s))[c] == multiset(s)[c]
  {
    if s != [] {
      var t := s[1..];
      assert s == [s[0]] + t;
      assert multiset(s) == multiset{s[0]} + multiset(t);
      MapCharsCounts(t);
      var m := MapChars(t);
      assert multiset(MapChars(s)) == multiset(LocaleChar(s[0])) + multiset(m);
      if s[0] == '.' {
        assert multiset(LocaleChar(s[0])) == multiset{};
      } else if s[0] == ',' {
        assert multiset(LocaleChar(s[0])) == multiset{'.'};
      } else {
        assert multiset(LocaleChar(s[0])) == multiset{s[0]};
      }
    }
  }

  /**
   * Cleaning drops exactly the dots, turns each comma into a dot and leaves
   * every other character alone.
   */
  lemma {:induction false} CleanCounts(s: string)
    ensures |Clean(s)| == |s| - multiset(s)['.']
    ensures multiset(Clean(s))['.'] == multiset(s)[',']
    ensures multiset(Clean(s))[','] == 0
    ensures forall c :: c != '.' && c != ',' ==> multiset(Clean(s))[c] == multiset(s)[c]
  {
    CleanIsCharMap(s);
    MapCharsCounts(s);
  }

  lemma {:induction false} MapCharsAppend(x: string, y: string)
    ensures MapChars(x + y) == MapChars(x) + MapChars(y)
  {
    if x != [] {
      assert (x + y)[1..] == x[1..] + y;
      MapCharsAppend(x[1..], y);
    } else {
      assert x + y == y;
    }
  }

  lemma {:induction false} MapCharsDigits(a: string)
    requires AllDigits(a)
    ensures MapChars(a) == a
  {
    if a != [] {
      MapCharsDigits(a[1..]);
    }
  }

  // ---------------------------------------------------------------------
  // percent: first occurrence only

  lemma {:induction false} PercentCleanMultiset(s: string)
    ensures multiset(PercentClean(s)) == multiset(Clean(s)) - multiset{'%'} - multiset{' '}
  {
    RemoveFirstCounts(Clean(s), '%');
    RemoveFirstCounts(RemoveFirst(Clean(s), '%'), ' ');
  }

  lemma DropPercentAndSpace(m: multiset<char>, p: multiset<char>, c: char)
    requires p == m - multiset{'%'} - multiset{' '}
    ensures p[c] == if c == '%' || c == ' ' then (if m[c] == 0 then 0 else m[c] - 1) else m[c]
  {
  }

  /**
   * `percent` deletes one `%` and one space at most, so every further `%`
   * and space survives; dots and commas are rewritten as in `toNum`, and
   * every other character is kept.
   */
  lemma {:induction false} PercentCleanCount(s: string, c: char)
    ensures multiset(PercentClean(s))[c] ==
      if c == '.' then multiset(s)[',']
      else if c == ',' then 0
      else if c == '%' || c == ' ' then (if multiset(s)[c] == 0 then 0 else multiset(s)[c] - 1)
      else multiset(s)[c]
  {
    PercentCleanMultiset(s);
    DropPercentAndSpace(multiset(Clean(s)), multiset(PercentClean(s)), c);
    CleanCounts(s);
  }

  /** Without `%` and spaces, `percent` is `toNum` divided by one hundred, NaN included. */
  lemma {:induction false} PercentIsToNumOver100(s: string)
    requires '%' !in s && ' ' !in s
    ensures !IsSentinel(s) ==> Percent(s) == Div100(ToNum(s))
    ensures IsSentinel(s) ==> Percent(s) == ToNum(s) == Zero
  {
    CleanCounts(s);
    assert multiset(s)['%'] == 0 && multiset(s)[' '] == 0;
    assert '%' !in Clean(s) && ' ' !in Clean(s);
  }

  // ---------------------------------------------------------------------
  // The sentinel

  /** The placeholder is recognised with any white space around it; both normalisers give zero. */
  lemma {:induction false} SentinelPadded(w1: string, w2: string)
    requires AllWhiteSpace(w1) && AllWhiteSpace(w2)
    ensures IsSentinel(w1 + NotAvailable + w2)
    ensures ToNum(w1 + NotAvailable + w2) == Zero && Percent(w1 + NotAvailable + w2) == Zero
  {
    TrimSurrounded(w1, NotAvailable, w2);
  }

  /** The placeholder is not the only text that gives zero: a plain "0" does too. */
  lemma {:induction false} ZeroNotOnlySentinel()
    ensures !IsSentinel("0") && ToNum("0") == Zero
  {
    var s := "0";
    assert s[0] == '0' && |s| == 1;
    NoLetterN(s);
    assert Clean(s) == s by {
      CleanIsCharMap(s);
      assert MapChars(s) == LocaleChar('0') + MapChars([]);
    }
    assert [] + SignText(false) + s + [] == s;
    ParseInteger([], false, s, []);
    assert DigitsValue(s) == 0 by {
      assert s[..0] == [];
    }
  }

  /** The test is case-sensitive: a lower-case placeholder is not the sentinel and parses to NaN. */
  lemma {:induction false} LowerCaseIsNaN()
    ensures !IsSentinel("n/a") && ToNum("n/a") == NaN && Percent("n/a") == NaN
  {
    LowerCaseNotSentinel();
    LowerCaseClean();
    LowerCaseUnchanged();
    LowerCaseParse();
  }

  lemma {:induction false} LowerCaseNotSentinel()
    ensures !IsSentinel("n/a")
  {
    var s := "n/a";
    assert s[0] == 'n' && s[1] == '/' && s[2] == 'a' && |s| == 3;
    NoLetterN(s);
  }

  lemma {:induction false} LowerCaseClean()
    ensures Clean("n/a") == "n/a"
  {
    CleanIsCharMap("n/a");
    assert MapChars("n/a") == "n/a";
  }

  lemma {:induction false} LowerCaseUnchanged()
    ensures PercentClean("n/a") == "n/a"
  {
    var s := "n/a";
    assert |s| == 3 && s[0] == 'n' && s[1] == '/' && s[2] == 'a';
    assert '%' !in s && ' ' !in s;
    LowerCaseClean();
  }

  lemma {:induction false} LowerCaseParse()
    ensures ParseFloat("n/a") == NaN
  {
    var s := "n/a";
    assert s[0] == 'n';
    NoLiteralIsNaN(s);
  }

  /** A text starting with anything but white space, a sign, a digit, a dot or `I` parses to NaN. */
  lemma {:induction false} NoLiteralIsNaN(s: string)
    requires s != [] && !IsWhiteSpace(s[0]) && !IsDigit(s[0])
    requires s[0] != '+' && s[0] != '-' && s[0] != '.' && s[0] != 'I'
    ensures ParseFloat(s) == NaN
  {
    assert [] + s == s;
    TrimStartSkips([], s);
    assert StripSign(s) == (false, s);
    assert !StartsWithInfinity(s) by {
      assert "Infinity"[0] == 'I';
    }
    ParseFloatNaN(s);
  }

  // ---------------------------------------------------------------------
  // Locale-formatted numbers

  /** Digit groups written with the thousands dot between them. */
  function Grouped(gs: seq<string>): string {
    if gs == [] then [] else if |gs| == 1 then gs[0] else gs[0] + "." + Grouped(gs[1..])
  }

  /** The digits of the groups without the separators. */
  function Concat(gs: seq<string>): string {
    if gs == [] then [] else gs[0] + Concat(gs[1..])
  }

  predicate DigitGroups(gs: seq<string>) {
    forall i :: 0 <= i < |gs| ==> AllDigits(gs[i])
  }

  lemma {:induction false} MapCharsGrouped(gs: seq<string>)
    requires DigitGroups(gs)
    ensures MapChars(Grouped(gs)) == Concat(gs)
  {
    if gs == [] {
    } else if |gs| == 1 {
      MapCharsDigits(gs[0]);
      assert Concat(gs[1..]) == [];
    } else {
      var g, rest := gs[0], gs[1..];
      assert DigitGroups(rest) by {
        forall i | 0 <= i < |rest| ensures AllDigits(rest[i]) {
          assert rest[i] == gs[i + 1];
        }
      }
      assert AllDigits(g);
      MapCharsGrouped(rest);
      assert MapChars(g + ".") == g by {
        MapCharsAppend(g, ".");
        MapCharsDigits(g);
        assert MapChars(".") == [];
      }
      assert Grouped(gs) == (g + ".") + Grouped(rest);
      MapCharsAppend(g + ".", Grouped(rest));
    }
  }

  lemma {:induction false} ConcatDigits(gs: seq<string>)
    requires DigitGroups(gs)
    ensures AllDigits(Concat(gs))
  {
    if gs != [] {
      var g, rest := gs[0], gs[1..];
      assert DigitGroups(rest) by {
        forall i | 0 <= i < |rest| ensures AllDigits(rest[i]) {
          assert rest[i] == gs[i + 1];
        }
      }
      ConcatDigits(rest);
      assert AllDigits(g);
      forall k | 0 <= k < |Concat(gs)| ensures IsDigit(Concat(gs)[k]) {
        if k >= |g| { assert Concat(gs)[k] == Concat(rest)[k - |g|]; }
      }
    }
  }

  /** The cleaned form of a locale number `g1.g2...,b` is the plain literal `g1g2....b`. */
  lemma {:induction false} CleanLocale(gs: seq<string>, b: string)
    requires DigitGroups(gs) && AllDigits(b)
    ensures AllDigits(Concat(gs))
    ensures Clean(Grouped(gs) + "," + b) == Concat(gs) + "." + b
  {
    var x := Grouped(gs) + "," + b;
    CleanIsCharMap(x);
    MapCharsAppend(Grouped(gs) + ",", b);
    MapCharsAppend(Grouped(gs), ",");
    MapCharsGrouped(gs);
    ConcatDigits(gs);
    MapCharsDigits(b);
    assert MapChars(",") == ".";
  }

  /** A text without the letter `N` anywhere is never the sentinel. */
  lemma {:induction false} NoLetterN(x: string)
    requires forall k :: 0 <= k < |x| ==> x[k] != 'N'
    ensures !IsSentinel(x)
  {
    assert 'N' !in x;
    assert 'N' !in Trim(x);
    assert NotAvailable[0] == 'N';
  }

  lemma {:induction false} GroupedChars(gs: seq<string>)
    requires DigitGroups(gs)
    ensures forall k :: 0 <= k < |Grouped(gs)| ==> IsDigit(Grouped(gs)[k]) || Grouped(gs)[k] == '.'
  {
    if |gs| > 1 {
      GroupedChars(gs[1..]);
      var g := gs[0] + ".";
      assert Grouped(gs) == g + Grouped(gs[1..]);
      forall k | 0 <= k < |Grouped(gs)| ensures IsDigit(Grouped(gs)[k]) || Grouped(gs)[k] == '.' {
        if k < |gs[0]| {
          assert Grouped(gs)[k] == gs[0][k];
        } else if k > |gs[0]| {
          assert Grouped(gs)[k] == Grouped(gs[1..])[k - |g|];
        }
      }
    }
  }

  lemma {:induction false} ParsePlainFixedPoint(a: string, b: string)
    requires AllDigits(a) && AllDigits(b) && |a| + |b| > 0
    ensures AllDigits(a + b)
    ensures ParseFloat(a + "." + b) == Finite(Decimal(DigitsValue(a + b), -|b|))
  {
    assert [] + SignText(false) + a + "." + b + [] == a + "." + b;
    ParseFixedPoint([], false, a, b, []);
  }

  /**
   * `toNum` of a thousands-grouped number with a decimal comma is the exact
   * decimal the digits spell: `g1.g2...,b` means `g1g2...b * 10^-|b|`.
   */
  lemma {:induction false} ToNumLocale(gs: seq<string>, b: string, x: string, digits: string)
    requires DigitGroups(gs) && AllDigits(b) && |Concat(gs)| + |b| > 0
    requires x == Grouped(gs) + "," + b && digits == Concat(gs) + b
    ensures AllDigits(digits)
    ensures ToNum(x) == Finite(Decimal(DigitsValue(digits), -|b|))
  {
    LocaleNotSentinel(gs, b, x);
    CleanLocale(gs, b);
    ParsePlainFixedPoint(Concat(gs), b);
  }

  /**
   * `percent` of a text ending in its only `%` is the parse of the cleaned
   * text before the sign, divided by one hundred: `toNum` of that text over
   * one hundred, except that a sign after the placeholder defeats the
   * placeholder test.
   */
  lemma {:induction false} PercentSign(x: string)
    requires '%' !in x && ' ' !in x
    ensures !IsSentinel(x + "%")
    ensures Percent(x + "%") == Div100(ParseFloat(Clean(x)))
    ensures !IsSentinel(x) ==> Percent(x + "%") == Div100(ToNum(x))
  {
    EndsInPercent(x + "%");
    PercentCleanSign(x);
  }

  lemma {:induction false} PercentCleanSign(x: string)
    requires '%' !in x && ' ' !in x
    ensures PercentClean(x + "%") == Clean(x)
  {
    CleanCounts(x);
    assert multiset(x)['%'] == 0 && multiset(x)[' '] == 0;
    assert '%' !in Clean(x) && ' ' !in Clean(x);
    CleanIsCharMap(x + "%");
    CleanIsCharMap(x);
    MapCharsAppend(x, "%");
    assert MapChars("%") == "%";
    RemoveTrailing(Clean(x), '%');
  }

  /** A text whose last character is `%` is never the sentinel, whatever precedes it. */
  lemma {:induction false} EndsInPercent(s: string)
    requires s != [] && s[|s| - 1] == '%'
    ensures !IsSentinel(s)
  {
    assert !IsWhiteSpace('%');
    TrimKeepsLast(s);
    assert NotAvailable[2] == 'A';
  }

  /** `percent` of `g1.g2...,b%` is that decimal divided by one hundred. */
  lemma {:induction false} PercentLocale(gs: seq<string>, b: string, s: string, digits: string)
    requires DigitGroups(gs) && AllDigits(b) && |Concat(gs)| + |b| > 0
    requires s == Grouped(gs) + "," + b + "%" && digits == Concat(gs) + b
    ensures AllDigits(digits)
    ensures Percent(s) == Finite(Decimal(DigitsValue(digits), -|b| - 2))
  {
    var x := Grouped(gs) + "," + b;
    LocaleNotSentinel(gs, b, x);
    ToNumLocale(gs, b, x, digits);
    PercentSign(x);
    assert s == x + "%";
  }

  /** The locale form has neither `%` nor a space, and is not the sentinel. */
  lemma {:induction false} LocaleNotSentinel(gs: seq<string>, b: string, x: string)
    requires DigitGroups(gs) && AllDigits(b)
    requires x == Grouped(gs) + "," + b
    ensures '%' !in x && ' ' !in x && !IsSentinel(x)
  {
    LocaleChars(gs, b, x);
    assert forall k :: 0 <= k < |x| ==> x[k] != '%' && x[k] != ' ' && x[k] != 'N';
    NoLetterN(x);
  }

  /** Every character of `g1.g2...,b` is a digit, a dot or a comma. */
  lemma {:induction false} LocaleChars(gs: seq<string>, b: string, x: string)
    requires DigitGroups(gs) && AllDigits(b)
    requires x == Grouped(gs) + "," + b
    ensures forall k :: 0 <= k < |x| ==> IsDigit(x[k]) || x[k] == '.' || x[k] == ','
  {
    var g := Grouped(gs);
    GroupedChars(gs);
    forall k | 0 <= k < |x| ensures IsDigit(x[k]) || x[k] == '.' || x[k] == ',' {
      if k < |g| {
        assert x[k] == g[k];
      } else if k > |g| {
        assert x[k] == b[k - |g| - 1];
      }
    }
  }

  /** Deleting the first `c` from a text ending in its only `c` leaves the rest; deleting an absent character changes nothing. */
  lemma {:induction false} RemoveTrailing(t: string, c: char)
    requires c !in t && ' ' !in t
    ensures RemoveFirst(RemoveFirst(t + [c], c), ' ') == t
  {
    RemoveFirstSplit(t + [c], c, t, []);
    assert t + [] == t;
  }

  // ---------------------------------------------------------------------
  // Worked values

  /** `toNum("1.234,56")` is exactly 1234.56. */
  lemma {:induction false} ToNumThousands()
    ensures ToNum("1.234,56") == Finite(Decimal(123456, -2))
  {
    Digits123456();
    ToNumLocale(["1", "234"], "56", "1.234,56", "123456");
  }

  /** `toNum("1.000.000,00")` is exactly one million. */
  lemma {:induction false} ToNumMillion()
    ensures ToNum("1.000.000,00") == Finite(Decimal(100000000, -2))
  {
    Digits100000000();
    ToNumLocale(["1", "000", "000"], "00", "1.000.000,00", "100000000");
  }

  /** `percent("8,75%")` is exactly 0.0875. */
  lemma {:induction false} PercentDividendYield()
    ensures Percent("8,75%") == Finite(Decimal(875, -4))
  {
    Digits875();
    PercentLocale(["8"], "75", "8,75%", "875");
  }

  /** `toNum("1,02")` is exactly 1.02. */
  lemma {:induction false} ToNumPriceToBook()
    ensures ToNum("1,02") == Finite(Decimal(102, -2))
  {
    Digits102();
    ToNumLocale(["1"], "02", "1,02", "102");
  }

  /** `percent("1,02")` is exactly 0.0102: a P/VPA ratio of 1.02 comes out divided by one hundred. */
  lemma {:induction false} PercentPriceToBook()
    ensures Percent("1,02") == Finite(Decimal(102, -4))
  {
    var s := "1,02";
    assert s[0] == '1' && s[1] == ',' && s[2] == '0' && s[3] == '2' && |s| == 4;
    assert '%' !in s && ' ' !in s;
    assert Div100(Finite(Decimal(102, -2))) == Finite(Decimal(102, -4));
    ToNumPriceToBook();
    PercentIsToNumOver100(s);
  }

  /** The exact decimals above as real numbers: 1234.56, one million, 0.0875 and 0.0102. */
  lemma WorkedRealValues()
    ensures RealValue(Decimal(123456, -2)) == 1234.56
    ensures RealValue(Decimal(100000000, -2)) == 1000000.0
    ensures RealValue(Decimal(875, -4)) == 0.0875
    ensures RealValue(Decimal(102, -4)) == 0.0102
  {
    assert Pow10(2) == 100;
    assert Pow10(4) == 10000;
  }

  // Digit strings evaluated one digit at a time.

  lemma Digits123456()
    ensures DigitsValue("123456") == 123456
  {
    assert "123456"[..5] == "12345";
    assert "12345"[..4] == "1234";
    assert "1234"[..3] == "123";
    assert "123"[..2] == "12";
    assert "12"[..1] == "1";
    assert "1"[..0] == "";
  }

  lemma Digits100000000()
    ensures DigitsValue("100000000") == 100000000
  {
    assert "100000000"[..8] == "10000000";
    assert "10000000"[..7] == "1000000";
    assert "1000000"[..6] == "100000";
    assert "100000"[..5] == "10000";
    assert "10000"[..4] == "1000";
    assert "1000"[..3] == "100";
    assert "100"[..2] == "10";
    assert "10"[..1] == "1";
    assert "1"[..0] == "";
  }

  lemma Digits875()
    ensures DigitsValue("875") == 875
  {
    assert "875"[..2] == "87";
    assert "87"[..1] == "8";
    assert "8"[..0] == "";
  }

  lemma Digits102()
    ensures DigitsValue("102") == 102
  {
    assert "102"[..2] == "10";
    assert "10"[..1] == "1";
    assert "1"[..0] == "";
  }
}
