/**
 * `datetime.fromtimestamp(mtime).strftime('%Y-%m')`, on integer seconds and
 * in UTC: the month bucket that root-level files are filed under.
 */
module Calendar {

  /** Proleptic Gregorian (year, month) of a day count since 1970-01-01,
      by the era/day-of-era method. Dafny's `/` and `%` floor for a positive
      divisor, as the method needs for days before the epoch. */
  function CivilMonth(days: int): (ym: (int, int))
    ensures 1 <= ym.1 <= 12
  {
    var z := days + 719468;
    var era := z / 146097;
    var doe := z % 146097;
    var yoe := (doe - doe / 1460 + doe / 36524 - doe / 146096) / 365;
    var doy := doe - (365 * yoe + yoe / 4 - yoe / 100);
    var mp := (5 * doy + 2) / 153;
    // mp counts months from March (0..11); this is mp + 3 for mp < 10 and
    // mp - 9 otherwise, written so that the range 1..12 is evident.
    var m := (mp + 2) % 12 + 1;
    (yoe + era * 400 + (if m <= 2 then 1 else 0), m)
  }

  function DigitChar(d: int): char
    requires 0 <= d < 10
  {
    ('0' as int + d) as char
  }

  /** The last `n` decimal digits of `v`, zero-padded. */
  function Digits(v: nat, n: nat): (s: string)
    ensures |s| == n
  {
    if n == 0 then [] else Digits(v / 10, n - 1) + [DigitChar(v % 10)]
  }

  /** `%Y-%m` of a civil (year, month): four and two zero-padded digits. */
  function FormatMonth(ym: (int, int)): (s: string)
    ensures |s| == 7
  {
    Digits(ym.0 % 10000, 4) + "-" + Digits(ym.1 % 100, 2)
  }

  /** The `YYYY-MM` bucket of a modification time in seconds. */
  function MonthOf(mtime: int): (s: string)
    ensures |s| == 7
  {
    FormatMonth(CivilMonth(mtime / 86400))
  }

  lemma {:induction false} DigitsAreDigits(v: nat, n: nat)
    ensures forall k :: 0 <= k < n ==> '0' <= Digits(v, n)[k] <= '9'
  {
    if n > 0 { DigitsAreDigits(v / 10, n - 1); }
  }

  function Pow10(n: nat): (p: nat)
    ensures p > 0
  {
    if n == 0 then 1 else 10 * Pow10(n - 1)
  }

  /** The value of a string of decimal digits, most significant first. */
  function ReadDigits(s: string): int {
    if s == [] then 0 else ReadDigits(s[..|s| - 1]) * 10 + (s[|s| - 1] as int - '0' as int)
  }

  /** Euclidean division has one quotient and remainder. */
  lemma ModOfDecomposition(v: int, d: int, a: int, b: int)
    requires d > 0 && v == d * a + b && 0 <= b < d
    ensures v % d == b
  {
    var q, r := v / d, v % d;
    assert v == d * q + r;
    if q > a {
      assert d * q >= d * (a + 1) by { MulMonotone(d, a + 1, q); }
    } else if q < a {
      assert d * a >= d * (q + 1) by { MulMonotone(d, q + 1, a); }
    }
  }

  lemma MulMonotone(d: int, x: int, y: int)
    requires d > 0 && x <= y
    ensures d * x <= d * y
  {
    assert d * y - d * x == d * (y - x);
  }

  /** One more digit on the right: `v % 10p` from the remainder of the
      quotient by ten. */
  lemma ModStep(v: nat, p: nat)
    requires p > 0
    ensures (v / 10 % p) * 10 + v % 10 == v % (10 * p)
  {
    var q := v / 10;
    var a, b := q / p, q % p;
    assert q == p * a + b;
    assert v == 10 * q + v % 10;
    assert 10 * (p * a) == (10 * p) * a;
    ModOfDecomposition(v, 10 * p, a, 10 * b + v % 10);
  }

  /** Reading the padded digits back gives the number modulo `10^n`, so
      the rendering loses nothing below `10^n`. */
  lemma {:induction false} ReadDigitsOfDigits(v: nat, n: nat)
    ensures ReadDigits(Digits(v, n)) == v % Pow10(n)
  {
    if n > 0 {
      var s := Digits(v, n);
      assert s[..|s| - 1] == Digits(v / 10, n - 1);
      assert s[|s| - 1] as int - '0' as int == v % 10;
      ReadDigitsOfDigits(v / 10, n - 1);
      assert ReadDigits(s) == (v / 10 % Pow10(n - 1)) * 10 + v % 10;
      ModStep(v, Pow10(n - 1));
    }
  }

  lemma Pow10Small()
    ensures Pow10(2) == 100 && Pow10(4) == 10000
  {
  }

  /** `%Y-%m` is the year's four digits, a dash and the month's two. */
  lemma FormatMonthParts(ym: (int, int))
    ensures FormatMonth(ym)[..4] == Digits(ym.0 % 10000, 4)
    ensures FormatMonth(ym)[4] == '-'
    ensures FormatMonth(ym)[5..] == Digits(ym.1 % 100, 2)
  {
    var a, b := Digits(ym.0 % 10000, 4), Digits(ym.1 % 100, 2);
    assert FormatMonth(ym) == a + "-" + b;
    assert (a + "-" + b)[..4] == a;
    assert (a + "-" + b)[5..] == b;
  }

  /** `%Y-%m` reads back as the year modulo 10000 and the month. */
  lemma FormatMonthReadsBack(ym: (int, int))
    requires 1 <= ym.1 <= 12
    ensures ReadDigits(FormatMonth(ym)[..4]) == ym.0 % 10000
    ensures FormatMonth(ym)[4] == '-'
    ensures ReadDigits(FormatMonth(ym)[5..]) == ym.1
  {
    FormatMonthParts(ym);
    ReadDigitsOfDigits(ym.0 % 10000, 4);
    ReadDigitsOfDigits(ym.1 % 100, 2);
    Pow10Small();
  }

  /** The bucket name reads back as the civil year (modulo 10000, the
      width of `%Y` for the years the source can represent) and the month. */
  lemma MonthOfReadsBack(mtime: int)
    ensures ReadDigits(MonthOf(mtime)[..4]) == CivilMonth(mtime / 86400).0 % 10000
    ensures MonthOf(mtime)[4] == '-'
    ensures ReadDigits(MonthOf(mtime)[5..]) == CivilMonth(mtime / 86400).1
  {
    FormatMonthReadsBack(CivilMonth(mtime / 86400));
  }

  /** A month bucket is four digits, a dash and two digits, so in particular
      it holds no slash and joins as one path component. */
  lemma MonthOfShape(mtime: int)
    ensures MonthOf(mtime)[4] == '-'
    ensures forall k :: 0 <= k < 7 && k != 4 ==> '0' <= MonthOf(mtime)[k] <= '9'
    ensures forall k :: 0 <= k < 7 ==> MonthOf(mtime)[k] != '/'
  {
    var ym := CivilMonth(mtime / 86400);
    DigitsAreDigits(ym.0 % 10000, 4);
    DigitsAreDigits(ym.1 % 100, 2);
  }

  /** Day 19523 after the epoch is in June 2023. */
  lemma CivilMonthJune2023()
    ensures CivilMonth(19523) == (2023, 6)
  {
    assert (19523 + 719468) / 146097 == 5 && (19523 + 719468) % 146097 == 8506;
    assert (8506 - 8506 / 1460 + 8506 / 36524 - 8506 / 146096) / 365 == 23;
    assert 8506 - (365 * 23 + 23 / 4 - 23 / 100) == 106;
    assert (5 * 106 + 2) / 153 == 3;
  }

  /** Day 19783 after the epoch is 1 March 2024. */
  lemma CivilMonthMarch2024()
    ensures CivilMonth(19783) == (2024, 3)
  {
    assert (19783 + 719468) / 146097 == 5 && (19783 + 719468) % 146097 == 8766;
    assert (8766 - 8766 / 1460 + 8766 / 36524 - 8766 / 146096) / 365 == 24;
    assert 8766 - (365 * 24 + 24 / 4 - 24 / 100) == 0;
  }

  /** The four digits of 202x. */
  lemma Digits202x(d: nat)
    requires d < 10
    ensures Digits(2020 + d, 4) == "202" + [DigitChar(d)]
  {
    assert (2020 + d) / 10 == 202 && (2020 + d) % 10 == d;
    assert Digits(202, 3) == "202" by {
      assert Digits(20, 2) == "20" by { assert Digits(2, 1) == "2"; }
    }
  }

  /** The two digits of a month before October. */
  lemma Digits0x(d: nat)
    requires d < 10
    ensures Digits(d, 2) == "0" + [DigitChar(d)]
  {
    assert d / 10 == 0 && d % 10 == d;
    assert Digits(0, 1) == "0";
  }

  lemma FormatMonthJune2023()
    ensures FormatMonth((2023, 6)) == "2023-06"
  {
    assert 2023 % 10000 == 2023 && 6 % 100 == 6;
    Digits202x(3);
    Digits0x(6);
    assert DigitChar(3) == '3' && DigitChar(6) == '6';
    assert FormatMonth((2023, 6)) == "202" + ['3'] + "-" + "0" + ['6'];
  }

  lemma FormatMonthMarch2024()
    ensures FormatMonth((2024, 3)) == "2024-03"
  {
    assert 2024 % 10000 == 2024 && 3 % 100 == 3;
    Digits202x(4);
    Digits0x(3);
    assert DigitChar(4) == '4' && DigitChar(3) == '3';
    assert FormatMonth((2024, 3)) == "202" + ['4'] + "-" + "0" + ['3'];
  }

  /** The bucket is taken from the day the timestamp falls on. */
  lemma MonthOfDay(mtime: int, day: int)
    requires mtime / 86400 == day
    ensures MonthOf(mtime) == FormatMonth(CivilMonth(day))
  {
  }

  /** 2023-06-15 00:00:00 UTC files under 2023-06. */
  lemma MonthOfJune2023()
    ensures MonthOf(1686787200) == "2023-06"
  {
    MonthOfDay(1686787200, 19523);
    CivilMonthJune2023();
    FormatMonthJune2023();
  }

  /** 2024-03-01 00:00:00 UTC files under 2024-03. */
  lemma MonthOfMarch2024()
    ensures MonthOf(1709251200) == "2024-03"
  {
    MonthOfDay(1709251200, 19783);
    CivilMonthMarch2024();
    FormatMonthMarch2024();
  }
}
