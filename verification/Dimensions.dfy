/**
  Package dimensions (core/dimensions.go): whole millimetres are stored, a unit is only how they
  are read. Lengths are exact reals here, so what is proved is the arithmetic and the digits, not
  the behaviour of 64-bit floating point.
*/
module Dimensions {
  import opened Basics

  const MM := "mm"
  const CM := "cm"
  const M := "m"
  const INCH := "in"
  const MAX_INT32 := 0x7FFF_FFFF

  predicate ValidUnit(unit: string) {
    unit in {MM, CM, M, INCH}
  }

  function MmPer(unit: string): real
    requires ValidUnit(unit)
  {
    if unit == MM then 1.0 else if unit == CM then 10.0 else if unit == M then 1000.0 else 25.4
  }

  datatype Measure = Millimetres(mm: int) | Negative | UnknownUnit | Implausible

  /** math.Round of a number that is not negative: halves go up. */
  function Round(x: real): int
    requires x >= 0.0
  {
    (x + 0.5).Floor
  }

  function MillimetresFrom(value: real, unit: string): Measure {
    if value < 0.0 then Negative
    else if !ValidUnit(unit) then UnknownUnit
    else
      var mm := Round(value * MmPer(unit));
      if mm > MAX_INT32 then Implausible else Millimetres(mm)
  }

  function InUnit(mm: int, unit: string): real {
    if ValidUnit(unit) then mm as real / MmPer(unit) else mm as real
  }

  // ---------------------------------------------------------------- digits

  function Digit(d: nat): char
    requires d < 10
  {
    '0' + d as char
  }

  function Digits(n: nat): (s: string)
    ensures s != "" && forall i :: 0 <= i < |s| ==> IsDigit(s[i])
  {
    if n < 10 then [Digit(n)] else Digits(n / 10) + [Digit(n % 10)]
  }

  /** The three decimals "%.3f" keeps, as a whole number of thousandths, nearest to x. */
  function Thousandths(x: real): int
    requires x >= 0.0
  {
    Round(x * 1000.0)
  }

  function Fixed3(k: nat): string {
    var tenths := k / 10 / 10;
    Digits(tenths / 10) + "." + [Digit(tenths % 10), Digit(k / 10 % 10), Digit(k % 10)]
  }

  function TrimRight(s: string, c: char): string {
    if s != "" && s[|s| - 1] == c then TrimRight(s[..|s| - 1], c) else s
  }

  function Sign(mm: int): string {
    if mm < 0 then "-" else ""
  }

  function Magnitude(mm: int): nat {
    if mm < 0 then -mm else mm
  }

  function MagnitudeDigits(mm: nat, unit: string): string {
    if unit == MM || !ValidUnit(unit) then Digits(mm)
    else TrimRight(TrimRight(Fixed3(Thousandths(InUnit(mm, unit))), '0'), '.')
  }

  function DimensionDigits(mm: int, unit: string): string {
    var s := Sign(mm) + MagnitudeDigits(Magnitude(mm), unit);
    if s == "" || s == "-" then "0" else s
  }

  // ------------------------------------------------------ reading it back

  predicate AllDigits(s: string) {
    forall i :: 0 <= i < |s| ==> IsDigit(s[i])
  }

  /** What decimal digits mean, independent of how they were printed. */
  function DigitsValue(s: string): nat
    requires AllDigits(s)
  {
    if s == "" then 0 else 10 * DigitsValue(s[..|s| - 1]) + DigitValue(s[|s| - 1])
  }

  function DigitValue(c: char): nat
    requires IsDigit(c)
  {
    (c - '0') as int
  }

  function Pow10(n: nat): (p: nat)
    ensures p > 0
  {
    if n == 0 then 1 else 10 * Pow10(n - 1)
  }

  function IndexOf(s: string, c: char): (k: nat)
    ensures k <= |s| && (forall i :: 0 <= i < k ==> s[i] != c) && (k < |s| ==> s[k] == c)
  {
    if s == "" || s[0] == c then 0 else 1 + IndexOf(s[1..], c)
  }

  /** A decimal numeral as it is written: its digits without the point, and how many follow the point. */
  datatype Numeral = Decimal(digits: int, places: nat) | NotANumber

  function ValueOf(n: Numeral): real
    requires n.Decimal?
  {
    n.digits as real / Pow10(n.places) as real
  }

  /** A decimal as a form or an import file reads it: digits, perhaps a point and more digits. */
  function ReadMagnitude(s: string): Numeral {
    var p := IndexOf(s, '.');
    if p == |s| then Joined(s, "")
    else if p + 1 == |s| then NotANumber
    else Joined(s[..p], s[p + 1..])
  }

  function Joined(whole: string, fraction: string): Numeral {
    if whole == "" || !AllDigits(whole + fraction) then NotANumber
    else Decimal(DigitsValue(whole + fraction), |fraction|)
  }

  function ReadDecimal(s: string): Numeral {
    if s != "" && s[0] == '-' then
      var m := ReadMagnitude(s[1..]);
      if m.Decimal? then m.(digits := -m.digits) else m
    else ReadMagnitude(s)
  }

  lemma {:induction false} DigitsValueOfDigits(n: nat)
    ensures AllDigits(Digits(n)) && DigitsValue(Digits(n)) == n
  {
    if n < 10 {
      assert Digits(n)[..0] == [];
    } else {
      DigitsValueOfDigits(n / 10);
      assert Digits(n)[..|Digits(n)| - 1] == Digits(n / 10);
    }
  }

  lemma ReadWhole(whole: string)
    requires whole != "" && AllDigits(whole)
    ensures ReadMagnitude(whole) == Joined(whole, "")
  {
  }

  lemma ReadWithPoint(whole: string, fraction: string)
    requires whole != "" && AllDigits(whole) && fraction != ""
    ensures ReadMagnitude(whole + "." + fraction) == Joined(whole, fraction)
  {
    var s := whole + "." + fraction;
    var p := IndexOf(s, '.');
    assert s[|whole|] == '.';
    assert forall i :: 0 <= i < |whole| ==> s[i] == whole[i];
    assert p == |whole|;
    assert s[..p] == whole;
    assert s[p + 1..] == fraction;
  }

  // --------------------------------------------------------- the trimming

  /** Which of three decimals are left once trailing zeros go. */
  function Kept(x: char, y: char, z: char): string {
    if z != '0' then [x, y, z] else if y != '0' then [x, y] else if x != '0' then [x] else ""
  }

  lemma TrimOne(s: string, last: char, c: char)
    ensures TrimRight(s + [last], c) == if last == c then TrimRight(s, c) else s + [last]
  {
    assert (s + [last])[..|s|] == s;
  }

  /** Trimming stops at the point, so it never drops a digit of the whole part. */
  lemma TrimsTo(whole: string, x: char, y: char, z: char)
    requires whole != "" && IsDigit(whole[|whole| - 1])
    requires IsDigit(x) && IsDigit(y) && IsDigit(z)
    ensures TrimRight(TrimRight(whole + "." + [x, y, z], '0'), '.') == WithPoint(whole, Kept(x, y, z))
  {
    hide TrimRight;
    var s := whole + ".";
    assert s + [x, y, z] == s + [x, y] + [z];
    TrimOne(s + [x, y], z, '0');
    TrimOne(s + [x, y], z, '.');
    if z == '0' {
      TrimsToTwo(whole, x, y);
    }
  }

  lemma TrimsToTwo(whole: string, x: char, y: char)
    requires whole != "" && IsDigit(whole[|whole| - 1])
    requires IsDigit(x) && IsDigit(y)
    ensures TrimRight(TrimRight(whole + "." + [x, y], '0'), '.') == WithPoint(whole, Kept(x, y, '0'))
  {
    hide TrimRight;
    var s := whole + ".";
    SplitLast(s, x, y);
    TrimOne(s + [x], y, '0');
    if y == '0' {
      TrimsToOne(whole, x);
    } else {
      TrimOne(s + [x], y, '.');
    }
  }

  lemma SplitLast(s: string, x: char, y: char)
    ensures s + [x, y] == s + [x] + [y]
  {
  }

  lemma TrimsToOne(whole: string, x: char)
    requires whole != "" && IsDigit(whole[|whole| - 1]) && IsDigit(x)
    ensures TrimRight(TrimRight(whole + "." + [x], '0'), '.') == WithPoint(whole, Kept(x, '0', '0'))
  {
    TrimOne(whole + ".", x, '0');
    TrimOne(whole + ".", x, '.');
    TrimOne(whole, '.', '0');
    TrimOne(whole, '.', '.');
  }

  function WithPoint(whole: string, fraction: string): string {
    if fraction == "" then whole else whole + "." + fraction
  }

  lemma AppendDigit(s: string, x: char)
    requires AllDigits(s) && IsDigit(x)
    ensures AllDigits(s + [x]) && DigitsValue(s + [x]) == 10 * DigitsValue(s) + DigitValue(x)
  {
    assert (s + [x])[..|s|] == s;
  }

  /** The numeral the kept decimals spell, in thousandths. */
  lemma KeptValue(whole: string, x: char, y: char, z: char)
    requires AllDigits(whole) && whole != "" && IsDigit(x) && IsDigit(y) && IsDigit(z)
    ensures var n := Joined(whole, Kept(x, y, z));
            && n.Decimal? && n.digits >= 0
            && InThousandths(n, 1000 * DigitsValue(whole) + 100 * DigitValue(x) + 10 * DigitValue(y) + DigitValue(z))
  {
    hide DigitsValue;
    AppendDigit(whole, x);
    AppendDigit(whole + [x], y);
    AppendDigit(whole + [x] + [y], z);
    assert whole + [x] + [y] == whole + [x, y];
    assert whole + [x, y] + [z] == whole + [x, y, z];
    assert whole + "" == whole;
  }

  predicate InThousandths(n: Numeral, k: int)
    requires n.Decimal?
  {
    match n.places
    case 0 => 1000 * n.digits == k
    case 1 => 100 * n.digits == k
    case 2 => 10 * n.digits == k
    case _ => n.places == 3 && n.digits == k
  }

  lemma ThousandthsOf(n: Numeral, k: int)
    requires n.Decimal? && InThousandths(n, k)
    ensures ValueOf(n) == k as real / 1000.0
  {
    assert Pow10(1) == 10 && Pow10(2) == 100 && Pow10(3) == 1000;
  }

  /** Printing three decimals, trimming and reading back loses nothing. */
  lemma TrimmedReadsBack(k: nat)
    ensures var s := TrimRight(TrimRight(Fixed3(k), '0'), '.');
            && s != "" && IsDigit(s[0])
            && ReadMagnitude(s).Decimal? && ReadMagnitude(s).digits >= 0
            && ValueOf(ReadMagnitude(s)) == k as real / 1000.0
  {
    hide TrimRight;
    hide ReadMagnitude;
    hide Joined;
    hide InThousandths;
    hide ValueOf;
    hide DigitsValue;
    var hundredths, tenths := k / 10, k / 10 / 10;
    var whole := Digits(tenths / 10);
    var x, y, z := Digit(tenths % 10), Digit(hundredths % 10), Digit(k % 10);
    DigitsValueOfDigits(tenths / 10);
    assert k == 10 * hundredths + k % 10;
    assert hundredths == 10 * tenths + hundredths % 10;
    assert tenths == 10 * (tenths / 10) + tenths % 10;
    TrimsTo(whole, x, y, z);
    var kept := Kept(x, y, z);
    if kept == "" {
      ReadWhole(whole);
    } else {
      ReadWithPoint(whole, kept);
    }
    KeptValue(whole, x, y, z);
    ThousandthsOf(Joined(whole, kept), k);
  }

  // -------------------------------------------------------- the round trip

  /** x is nowhere near halfway between two whole numbers, so no rounding rule can matter. */
  ghost predicate NoTie(x: real) {
    x + 0.5 != (x + 0.5).Floor as real
  }

  /**
    Three decimals never land on a tie, and what is printed is within 0.0127 mm of the length -
    far inside the half millimetre that would read back as another one.
  */
  lemma PrintingIsCloseEnough(mm: nat, unit: string)
    requires ValidUnit(unit)
    ensures NoTie(InUnit(mm, unit) * 1000.0)
    ensures -0.0127 <= Thousandths(InUnit(mm, unit)) as real / 1000.0 * MmPer(unit) - mm as real <= 0.0127
  {
    if unit == INCH {
    } else {
      MetricThousandths(mm, unit);
    }
  }

  lemma MetricThousandths(mm: nat, unit: string)
    requires unit in {MM, CM, M}
    ensures NoTie(InUnit(mm, unit) * 1000.0)
    ensures Thousandths(InUnit(mm, unit)) as real / 1000.0 * MmPer(unit) == mm as real
  {
    var k: int := if unit == MM then 1000 * mm else if unit == CM then 100 * mm else mm;
    var x := InUnit(mm, unit) * 1000.0;
    assert x == k as real;
    assert (x + 0.5).Floor == k;
  }

  ghost function PrintedValue(n: nat, unit: string): (v: real)
    requires ValidUnit(unit)
    ensures v >= 0.0
  {
    if unit == MM then n as real else Thousandths(InUnit(n, unit)) as real / 1000.0
  }

  lemma MagnitudeReads(n: nat, unit: string)
    requires ValidUnit(unit)
    ensures var s := MagnitudeDigits(n, unit);
            && s != "" && IsDigit(s[0])
            && ReadMagnitude(s).Decimal? && ValueOf(ReadMagnitude(s)) == PrintedValue(n, unit)
  {
    if unit == MM {
      DigitsValueOfDigits(n);
      ReadWhole(Digits(n));
      assert Digits(n) + "" == Digits(n);
    } else {
      TrimmedReadsBack(Thousandths(InUnit(n, unit)));
    }
  }

  lemma PrintedValueIsClose(n: nat, unit: string)
    requires ValidUnit(unit)
    ensures -0.0127 <= PrintedValue(n, unit) * MmPer(unit) - n as real <= 0.0127
    ensures n > 0 ==> PrintedValue(n, unit) > 0.0
  {
    PrintingIsCloseEnough(n, unit);
    if n > 0 && PrintedValue(n, unit) == 0.0 {
      assert 0.0 * MmPer(unit) == 0.0;
    }
  }

  lemma NegatedValue(n: Numeral)
    requires n.Decimal?
    ensures ValueOf(n.(digits := -n.digits)) == -ValueOf(n)
  {
    NegatedQuotient(n.digits, Pow10(n.places));
  }

  lemma NegatedQuotient(a: int, b: nat)
    requires b > 0
    ensures (-a) as real / b as real == -(a as real / b as real)
  {
  }

  lemma DigitsReadBack(mm: int, unit: string)
    requires ValidUnit(unit)
    ensures var read := ReadDecimal(DimensionDigits(mm, unit));
            && read.Decimal?
            && ValueOf(read) == if mm < 0 then -PrintedValue(-mm, unit) else PrintedValue(mm, unit)
  {
    var s := MagnitudeDigits(Magnitude(mm), unit);
    MagnitudeReads(Magnitude(mm), unit);
    if mm < 0 {
      assert ("-" + s)[1..] == s;
      NegatedValue(ReadMagnitude(s));
    } else {
      assert Sign(mm) + s == s;
    }
  }

  /**
    Every stored length prints as a number, and reading it back through MillimetresFrom returns
    the same length in exactly the cases the column can hold it: at least zero, at most 2^31 - 1.
  */
  lemma RoundTrip(mm: int, unit: string)
    requires ValidUnit(unit)
    ensures var read := ReadDecimal(DimensionDigits(mm, unit));
            && read.Decimal?
            && (MillimetresFrom(ValueOf(read), unit) == Millimetres(mm) <==> 0 <= mm <= MAX_INT32)
  {
    DigitsReadBack(mm, unit);
    StoredAgain(mm, unit, ValueOf(ReadDecimal(DimensionDigits(mm, unit))));
  }

  lemma StoredAgain(mm: int, unit: string, value: real)
    requires ValidUnit(unit)
    requires value == if mm < 0 then -PrintedValue(-mm, unit) else PrintedValue(mm, unit)
    ensures MillimetresFrom(value, unit) == Millimetres(mm) <==> 0 <= mm <= MAX_INT32
  {
    hide PrintedValue;
    hide Round;
    PrintedValueIsClose(Magnitude(mm), unit);
    if mm >= 0 {
      RoundsTo(value * MmPer(unit), mm);
    }
  }

  lemma RoundsTo(x: real, n: int)
    requires x >= 0.0 && -0.5 < x - n as real < 0.5
    ensures Round(x) == n
  {
  }

  /** Two lengths that print alike in a unit are the same length. */
  lemma DigitsDetermineTheLength(m: nat, n: nat, unit: string)
    requires ValidUnit(unit) && m <= MAX_INT32 && n <= MAX_INT32
    requires DimensionDigits(m, unit) == DimensionDigits(n, unit)
    ensures m == n
  {
    RoundTrip(m, unit);
    RoundTrip(n, unit);
  }

  // ------------------------------------------------------------ what a unit means

  /** Ten millimetres to the centimetre, a thousand to the metre, 25.4 to the inch, read to the nearest whole one. */
  lemma UnitsMean(n: nat)
    requires n <= 2_147_483
    ensures MillimetresFrom(n as real, "mm") == Millimetres(n) && MillimetresFrom(n as real, "cm") == Millimetres(10 * n)
    ensures MillimetresFrom(n as real, "m") == Millimetres(1000 * n)
    ensures MillimetresFrom(5.0 * n as real, "in") == Millimetres(127 * n)
  {
    WholeRounds(n);
    WholeRounds(10 * n);
    WholeRounds(1000 * n);
    WholeRounds(127 * n);
    hide Round;
  }

  lemma WholeRounds(n: nat)
    ensures Round(n as real) == n
  {
  }

  /** A measure is refused for what is wrong with it first, and otherwise stored to the nearest millimetre, a half upwards. */
  lemma MeasuredExactly(value: real, unit: string)
    ensures MillimetresFrom(value, unit) == Negative <==> value < 0.0
    ensures MillimetresFrom(value, unit) == UnknownUnit <==> value >= 0.0 && unit != "mm" && unit != "cm" && unit != "m" && unit != "in"
    ensures value >= 0.0 && (unit == "mm" || unit == "cm" || unit == "m" || unit == "in") ==>
      var factor := if unit == "mm" then 1.0 else if unit == "cm" then 10.0 else if unit == "m" then 1000.0 else 25.4;
      && (value * factor >= 2_147_483_647.5 <==> MillimetresFrom(value, unit) == Implausible)
      && (value * factor < 2_147_483_647.5 ==> MillimetresFrom(value, unit).Millimetres?)
      && (value * factor < 2_147_483_647.5 ==> -0.5 < MillimetresFrom(value, unit).mm as real - value * factor <= 0.5)
  {
  }

  /** Printed in a unit nobody knows, a length is its millimetres. */
  lemma UnknownUnitPrintsMillimetres(mm: int, unit: string)
    requires !ValidUnit(unit)
    ensures DimensionDigits(mm, unit) == DimensionDigits(mm, "mm")
  {
  }
}
