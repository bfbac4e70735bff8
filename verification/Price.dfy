/** Fixed-point prices as text, and reading that text back. */
module Prices {
  import opened Bytes
  import opened Constants
  import opened DecimalText

  const SCALE: nat := 1_000_000_000
  const MIN_PRICE: int := -0x8000_0000_0000_0000
  const UNDEF_TEXT: string := "UNDEF_PRICE"
  const DIVISORS: seq<nat> := [0, 100_000_000, 10_000_000, 1_000_000, 100_000, 10_000]

  /** The prices that can be printed: the smallest 64-bit value has no absolute value. */
  type Price = v: int | MIN_PRICE < v <= UNDEF_PRICE witness 0

  // ----- printing -----

  /** `std::setw` with `std::setfill('0')`. */
  function FillLeft(width: nat, s: string): string {
    seq(Max(0, width - |s|), _ => '0') + s
  }

  /** The decimals a precision asks for; 6 and more all mean the full nine. */
  function Shown(precision: nat): (p: nat)
    ensures p <= 9
  {
    if precision < 6 then precision else 9
  }

  function PrintMagnitude(magnitude: nat, precision: nat): string {
    var whole, fraction := magnitude / SCALE, magnitude % SCALE;
    if precision == 0 then Digits(whole)
    else
      var width := Shown(precision);
      var shown := if width == 9 then fraction else fraction / DIVISORS[width];
      Digits(whole) + "." + FillLeft(width, Digits(shown))
  }

  function Print(v: Price, precision: nat): string {
    if v == UNDEF_PRICE then UNDEF_TEXT
    else if v < 0 then "-" + PrintMagnitude(-v, precision)
    else PrintMagnitude(v, precision)
  }

  // ----- reading a decimal number -----

  function Pow10(k: nat): (p: nat)
    ensures p > 0
  {
    if k == 0 then 1 else 10 * Pow10(k - 1)
  }

  function Times(a: int, b: int): int {
    a * b
  }

  function DotAt(s: string): (i: nat)
    ensures i <= |s|
  {
    if s == "" || s[0] == '.' then 0 else 1 + DotAt(s[1..])
  }

  /** The digits after the decimal point. */
  function Decimals(s: string): string {
    if DotAt(s) < |s| then s[DotAt(s) + 1..] else ""
  }

  /** A number without sign, in billionths. */
  function ReadMagnitude(s: string): Option<int> {
    var whole, decimals := s[..DotAt(s)], Decimals(s);
    if !IsNumeral(whole) || |decimals| > 9 then None
    else if DotAt(s) == |s| then Some(Numeral(whole) * SCALE)
    else if !IsNumeral(decimals) then None
    else Some(Numeral(whole) * SCALE + Times(Numeral(decimals), Pow10(9 - |decimals|)))
  }

  function Read(s: string): Option<int> {
    if s == UNDEF_TEXT then Some(UNDEF_PRICE)
    else if s != "" && s[0] == '-' then
      var m := ReadMagnitude(s[1..]);
      if m.Some? then Some(-m.value) else None
    else ReadMagnitude(s)
  }

  // ----- digits and padding -----

  lemma {:induction false} DigitsFit(n: nat, width: nat)
    requires width > 0 && n < Pow10(width)
    ensures |Digits(n)| <= width
  {
    if n < 10 {
    } else {
      assert Pow10(1) == 10 * Pow10(0);
      DigitsFit(n / 10, width - 1);
    }
  }

  lemma {:induction false} NumeralOfFill(k: nat, s: string)
    ensures Numeral(seq(k, _ => '0') + s) == Numeral(s)
  {
    var t := seq(k, _ => '0') + s;
    if s != "" {
      NumeralOfFill(k, s[..|s| - 1]);
      assert t[..|t| - 1] == seq(k, _ => '0') + s[..|s| - 1];
    } else if k > 0 {
      NumeralOfFill(k - 1, s);
      assert t[..|t| - 1] == seq(k - 1, _ => '0') + s;
    }
  }

  lemma FillLeftReads(width: nat, n: nat)
    requires width > 0 && n < Pow10(width)
    ensures |FillLeft(width, Digits(n))| == width
    ensures IsNumeral(FillLeft(width, Digits(n)))
    ensures Numeral(FillLeft(width, Digits(n))) == n
  {
    hide Digits, Numeral, Pow10;
    NumeralOfDigits(n);
    DigitsFit(n, width);
    NumeralOfFill(width - |Digits(n)|, Digits(n));
  }

  predicate NoDot(s: string) {
    forall i :: 0 <= i < |s| ==> s[i] != '.'
  }

  lemma {:induction false} DotAfter(whole: string, rest: string)
    requires NoDot(whole)
    requires rest == "" || rest[0] == '.'
    ensures DotAt(whole + rest) == |whole|
  {
    if whole == "" {
      assert whole + rest == rest;
    } else {
      assert (whole + rest)[1..] == whole[1..] + rest;
      DotAfter(whole[1..], rest);
    }
  }

  lemma ReadInteger(whole: string)
    requires IsNumeral(whole)
    ensures ReadMagnitude(whole) == Some(Numeral(whole) * SCALE)
    ensures Decimals(whole) == ""
  {
    DotAfter(whole, "");
    assert whole + "" == whole;
  }

  lemma SplitAtDot(whole: string, decimals: string)
    requires IsNumeral(whole)
    ensures var s := whole + "." + decimals;
            DotAt(s) == |whole| && s[..|whole|] == whole && s[|whole| + 1..] == decimals
  {
    hide DotAt;
    assert whole + "." + decimals == whole + ("." + decimals);
    DotAfter(whole, "." + decimals);
  }

  lemma ReadDecimal(whole: string, decimals: string)
    requires IsNumeral(whole) && IsNumeral(decimals) && |decimals| <= 9
    ensures ReadMagnitude(whole + "." + decimals)
         == Some(Numeral(whole) * SCALE + Times(Numeral(decimals), Pow10(9 - |decimals|)))
    ensures Decimals(whole + "." + decimals) == decimals
  {
    SplitAtDot(whole, decimals);
    ReadParts(whole + "." + decimals, whole, decimals);
    hide *;
  }

  lemma ReadParts(s: string, whole: string, decimals: string)
    requires IsNumeral(whole) && IsNumeral(decimals) && |decimals| <= 9
    requires DotAt(s) == |whole| < |s| && s[..|whole|] == whole && s[|whole| + 1..] == decimals
    ensures ReadMagnitude(s) == Some(Numeral(whole) * SCALE + Times(Numeral(decimals), Pow10(9 - |decimals|)))
    ensures Decimals(s) == decimals
  {
    hide Numeral, Pow10, DotAt, Times, IsNumeral;
  }

  // ----- powers of ten; every non-linear step is a lemma of its own -----

  lemma Powers()
    ensures Pow10(1) == 10 && Pow10(2) == 100 && Pow10(3) == 1_000
    ensures Pow10(4) == 10_000 && Pow10(5) == 100_000 && Pow10(6) == 1_000_000
    ensures Pow10(7) == 10_000_000 && Pow10(8) == 100_000_000 && Pow10(9) == SCALE
  {
    assert Pow10(3) == 10 * Pow10(2);
    assert Pow10(6) == 10 * Pow10(5);
    assert Pow10(9) == 10 * Pow10(8);
  }

  lemma UnitsInScale(p: nat)
    requires p <= 9
    ensures Times(Pow10(p), Pow10(9 - p)) == SCALE
    ensures Pow10(0) == 1
  {
    Powers();
  }

  function Quotient(n: nat, unit: nat): nat
    requires unit > 0
  {
    n / unit
  }

  /** The magnitude rounded down to a multiple of the unit. */
  function Floor(n: nat, unit: nat): nat
    requires unit > 0
  {
    n - n % unit
  }

  function Truncated(v: int, unit: nat): int
    requires unit > 0
  {
    if v < 0 then -(Floor(-v, unit) as int) else Floor(v, unit)
  }

  lemma SmallMultiple(d: int, unit: nat)
    requires -(unit as int) < d * unit < unit
    ensures d == 0
  {
  }

  lemma QuotientUnique(n: int, unit: nat, q: int, r: int)
    requires unit > 0 && n == Times(q, unit) + r && 0 <= r < unit
    ensures n / unit == q && n % unit == r
  {
    assert (n / unit - q) * unit == r - n % unit;
    SmallMultiple(n / unit - q, unit);
  }

  lemma QuotientBelow(n: nat, unit: nat, count: nat)
    requires unit > 0 && n < Times(count, unit)
    ensures Quotient(n, unit) < count
  {
    assert n == n / unit * unit + n % unit;
  }

  lemma DivideParts(n: nat, unit: nat)
    requires unit > 0
    ensures n == Times(Quotient(n, unit), unit) + n % unit
  {
  }

  lemma RegroupProduct(a: int, b: int, c: int, d: int)
    ensures Times(Times(a, b) + d, c) == Times(a, Times(b, c)) + Times(d, c)
  {
    assert a * b * c == a * (b * c);
  }

  /** Splitting off whole units first does not change what is rounded away. */
  lemma FloorByParts(whole: nat, fraction: nat, count: nat, unit: nat)
    requires count > 0 && unit > 0 && Times(count, unit) == SCALE && fraction < SCALE
    ensures Floor(whole * SCALE + fraction, unit) == whole * SCALE + Times(Quotient(fraction, unit), unit)
    ensures Quotient(fraction, unit) < count
  {
    var q := Times(whole, count) + Quotient(fraction, unit);
    var n := whole * SCALE + fraction;
    DivideParts(fraction, unit);
    RegroupProduct(whole, count, unit, Quotient(fraction, unit));
    assert Times(whole, SCALE) == whole * SCALE;
    QuotientBelow(fraction, unit, count);
    hide Times, Quotient;
    QuotientUnique(n, unit, q, fraction % unit);
  }

  // ----- what is printed is what is read -----

  function Joined(whole: nat, shown: nat, p: nat): string {
    if p == 0 then Digits(whole) else Digits(whole) + "." + FillLeft(p, Digits(shown))
  }

  /** Whole digits and `p` decimals read back as their sum. */
  lemma PartsRead(whole: nat, shown: nat, p: nat)
    requires p <= 9 && shown < Pow10(p)
    ensures ReadMagnitude(Joined(whole, shown, p)) ==
              Some(whole * SCALE + Times(if p == 0 then 0 else shown, Pow10(9 - p)))
    ensures |Decimals(Joined(whole, shown, p))| == p
  {
    hide Digits, FillLeft, Numeral, Pow10, DotAt, ReadMagnitude, Decimals, IsNumeral, Times;
    NumeralOfDigits(whole);
    if p == 0 {
      ReadInteger(Digits(whole));
      TimesZero(Pow10(9));
    } else {
      FillLeftReads(p, shown);
      ReadDecimal(Digits(whole), FillLeft(p, Digits(shown)));
    }
  }

  lemma TimesZero(n: int)
    ensures Times(0, n) == 0
  {
  }

  lemma JoinedStart(whole: nat, shown: nat, p: nat)
    ensures Joined(whole, shown, p) != "" && '0' <= Joined(whole, shown, p)[0] <= '9'
  {
    hide Digits, FillLeft, Numeral;
    NumeralOfDigits(whole);
  }

  /** The divisor table holds the powers of ten that the shown digits call for. */
  lemma DivisorIsPower(fraction: nat, p: nat)
    requires 0 < p < 6
    ensures fraction / DIVISORS[p] == Quotient(fraction, Pow10(9 - p))
  {
    Powers();
  }

  lemma NothingDropped(n: nat)
    ensures Quotient(n, Pow10(0)) == n
  {
  }

  lemma PrintedParts(magnitude: nat, precision: nat)
    ensures PrintMagnitude(magnitude, precision)
         == Joined(magnitude / SCALE, Quotient(magnitude % SCALE, Pow10(9 - Shown(precision))), Shown(precision))
  {
    if 0 < precision < 6 {
      DivisorIsPower(magnitude % SCALE, precision);
    }
    NothingDropped(magnitude % SCALE);
    hide Digits, FillLeft, Pow10, Quotient;
  }

  lemma WholeAndFraction(magnitude: nat)
    ensures magnitude == magnitude / SCALE * SCALE + magnitude % SCALE && magnitude % SCALE < SCALE
  {
  }

  lemma MagnitudeReads(magnitude: nat, precision: nat)
    ensures ReadMagnitude(PrintMagnitude(magnitude, precision)) ==
              Some(Floor(magnitude, Pow10(9 - Shown(precision))))
    ensures |Decimals(PrintMagnitude(magnitude, precision))| == Shown(precision)
    ensures var text := PrintMagnitude(magnitude, precision); text != "" && '0' <= text[0] <= '9'
  {
    hide Digits, FillLeft, Numeral, Pow10, DotAt, ReadMagnitude, Decimals, PrintMagnitude, Joined, Quotient, Floor,
      Times, IsNumeral, Shown;
    var p := Shown(precision);
    var whole, fraction := magnitude / SCALE, magnitude % SCALE;
    WholeAndFraction(magnitude);
    UnitsInScale(p);
    FloorByParts(whole, fraction, Pow10(p), Pow10(9 - p));
    var shown := Quotient(fraction, Pow10(9 - p));
    assert p == 0 ==> shown == 0;
    PartsRead(whole, shown, p);
    JoinedStart(whole, shown, p);
    PrintedParts(magnitude, precision);
  }

  lemma PrintTruncatesTo(v: Price, precision: nat)
    requires v != UNDEF_PRICE
    ensures |Decimals(Print(v, precision))| == Shown(precision)
    ensures Read(Print(v, precision)) == Some(Truncated(v, Pow10(9 - Shown(precision))))
  {
    var magnitude := if v < 0 then -v else v;
    var text := PrintMagnitude(magnitude, precision);
    MagnitudeReads(magnitude, precision);
    SignSkipped(text);
    assert UNDEF_TEXT[0] == 'U';
    hide PrintMagnitude, ReadMagnitude, Pow10, Shown, Floor, Decimals;
  }

  /** What is printed reads back as the price truncated toward zero to as many
      digits as are shown after the point. */
  lemma PrintTruncates(v: Price, precision: nat)
    requires v != UNDEF_PRICE
    ensures |Decimals(Print(v, precision))| == if precision <= 5 then precision else 9
    ensures Read(Print(v, precision)) == Some(Truncated(v, Pow10(9 - |Decimals(Print(v, precision))|)))
  {
    ShownIs(precision);
    hide *;
    PrintTruncatesTo(v, precision);
  }

  lemma ShownIs(precision: nat)
    ensures Shown(precision) == if precision <= 5 then precision else 9
  {
  }

  lemma SignSkipped(text: string)
    ensures ("-" + text)[1..] == text
    ensures Decimals("-" + text) == Decimals(text)
  {
    assert ("-" + text)[1..] == text;
    assert DotAt("-" + text) == 1 + DotAt(text);
  }

  lemma TruncatedIsNearest(v: int, unit: nat)
    requires unit > 0
    ensures var t := Truncated(v, unit);
            && t % unit == 0
            && (v >= 0 ==> t <= v < t + unit)
            && (v <= 0 ==> t - unit < v <= t)
  {
    var n := if v < 0 then -v else v;
    var q: int := Quotient(n, unit);
    DivideParts(n, unit);
    QuotientUnique(Times(q, unit), unit, q, 0);
    assert Times(-q, unit) == -Times(q, unit);
    QuotientUnique(-Times(q, unit), unit, -q, 0);
  }

  /** Two multiples closer than the unit are the same. */
  lemma MultiplesApart(a: int, b: int, unit: nat)
    requires unit > 0 && a % unit == 0 && b % unit == 0 && b - unit < a < b + unit
    ensures a == b
  {
    assert a == a / unit * unit && b == b / unit * unit;
    assert (a / unit - b / unit) * unit == a - b;
    SmallMultiple(a / unit - b / unit, unit);
  }

  /** A price survives printing exactly when it is a multiple of the last digit
      shown; every price does in the default precision. */
  lemma PrintInvertsExactly(v: Price, precision: nat)
    requires v != UNDEF_PRICE
    ensures Read(Print(v, precision)) == Some(v) <==> v % Pow10(9 - if precision <= 5 then precision else 9) == 0
    ensures precision >= 6 ==> Read(Print(v, precision)) == Some(v)
  {
    PrintInverts(v, precision);
    if precision >= 6 {
      EveryMultiple(v);
    }
    hide Read, Print, Pow10;
  }

  predicate IsMultiple(v: int, unit: nat)
    requires unit > 0
  {
    v % unit == 0
  }

  lemma PrintInverts(v: Price, precision: nat)
    requires v != UNDEF_PRICE
    ensures Read(Print(v, precision)) == Some(v) <==> IsMultiple(v, Pow10(9 - if precision <= 5 then precision else 9))
  {
    hide *;
    PrintTruncates(v, precision);
    MultipleStays(v, Pow10(9 - if precision <= 5 then precision else 9));
  }

  lemma MultipleStays(v: int, unit: nat)
    requires unit > 0
    ensures Truncated(v, unit) == v <==> IsMultiple(v, unit)
  {
    TruncatedIsNearest(v, unit);
    if v % unit == 0 {
      hide *;
      MultiplesApart(v, Truncated(v, unit), unit);
    }
  }

  lemma EveryMultiple(v: int)
    ensures IsMultiple(v, Pow10(0))
  {
    assert Pow10(0) == 1;
  }

  lemma UndefinedPriceReads(precision: nat)
    ensures Read(Print(UNDEF_PRICE, precision)) == Some(UNDEF_PRICE)
  {
  }
}
