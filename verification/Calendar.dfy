/** The day arithmetic of Date.cpp: closed forms between (year, month, day) and a day number, set
    against calendars that simply count one day at a time. */
module Calendar {

  datatype Civil = Civil(year: int, month: int, day: int)

  // ---------------------------------------------------------------- C++ division

  /** `/` on a C++ long: truncation toward zero. */
  function Quot(a: int, b: int): int
    requires b > 0
  {
    if a >= 0 then a / b else -((-a) / b)
  }

  /** `%` on a C++ long: takes the sign of the dividend. */
  function Rem(a: int, b: int): int
    requires b > 0
  {
    a - b * Quot(a, b)
  }

  // ---------------------------------------------------------------- the closed forms of the code

  /** Days before the March-based year `y` counted from March 1900. */
  function LeapTerm(y: int): int {
    365 * y + Quot(y, 4) - Quot(y, 100) + Quot(y, 400)
  }

  /** Days before the March-based month `mi` (0 = March) within its year. */
  function MonthOffset(mi: int): int {
    Quot(mi * 306 + 5, 10)
  }

  function GetDays(y: int, m: int, d: int): int {
    var m' := Rem(m + 9, 12);
    var y' := y - 1900 - Quot(m', 10);
    LeapTerm(y') + MonthOffset(m') + (d - 1)
  }

  function YearEstimate(days: int): int {
    Quot(10000 * days + 14780, 3652425)
  }

  function YearOfDays(days: int): int {
    var y := YearEstimate(days);
    if days - LeapTerm(y) < 0 then y - 1 else y
  }

  /** The month and day of day `ddd` of the March-based year `y`. */
  function DateInYear(y: int, ddd: int): Civil {
    var mi := Quot(100 * ddd + 52, 3060);
    Civil(y + Quot(mi + 2, 12) + 1900, Rem(mi + 2, 12) + 1, ddd - MonthOffset(mi) + 1)
  }

  function FromDays(days: int): Civil {
    var y := YearOfDays(days);
    DateInYear(y, days - LeapTerm(y))
  }

  // ---------------------------------------------------------------- reference calendars

  predicate IsLeap(y: int) {
    y % 4 == 0 && (y % 100 != 0 || y % 400 == 0)
  }

  function MonthLength(m: int, leap: bool): int {
    if m == 2 then (if leap then 29 else 28)
    else if m == 4 || m == 6 || m == 9 || m == 11 then 30
    else 31
  }

  /** A calendar is told apart by the year its leap rule is applied to: shift 0 is the Gregorian
      calendar, shift 1900 the one the closed forms compute in. */
  predicate Valid(c: Civil, shift: int) {
    1 <= c.month <= 12 && 1 <= c.day <= MonthLength(c.month, IsLeap(c.year - shift))
  }

  function Next(c: Civil, shift: int): Civil {
    if c.day < MonthLength(c.month, IsLeap(c.year - shift)) then c.(day := c.day + 1)
    else if c.month < 12 then Civil(c.year, c.month + 1, 1)
    else Civil(c.year + 1, 1, 1)
  }

  const GREGORIAN := 0
  const EPOCH := 1900

  /** From 1 March 1900 on, where no dividend above is negative. */
  predicate FromEpoch(c: Civil) {
    c.year > EPOCH || (c.year == EPOCH && c.month >= 3)
  }

  /** A date of the calendar the code counts in. */
  predicate CodeDate(c: Civil) {
    Valid(c, EPOCH) && FromEpoch(c)
  }

  /** The reference for `FromDays`: walk n days on from 1 March 1900. */
  function NthDay(n: nat): Civil {
    if n == 0 then Civil(1900, 3, 1) else Next(NthDay(n - 1), EPOCH)
  }

  // ---------------------------------------------------------------- the two closed forms are inverse

  function YearLength(y: int): int {
    if IsLeap(y + 1) then 366 else 365
  }

  lemma DivStep(y: nat)
    ensures (y + 1) / 4 == y / 4 + (if (y + 1) % 4 == 0 then 1 else 0)
    ensures (y + 1) / 100 == y / 100 + (if (y + 1) % 100 == 0 then 1 else 0)
    ensures (y + 1) / 400 == y / 400 + (if (y + 1) % 400 == 0 then 1 else 0)
  {}

  lemma LeapImplications(z: int)
    ensures z % 400 == 0 ==> z % 100 == 0
    ensures z % 100 == 0 ==> z % 4 == 0
  {}

  lemma LeapTermStep(y: nat)
    ensures LeapTerm(y + 1) == LeapTerm(y) + YearLength(y)
  {
    DivStep(y);
    LeapImplications(y + 1);
  }

  /** Writing a year by centuries and leap cycles turns the three divisions into plain terms. */
  lemma LeapTermByCycles(a: nat, h: nat, q: nat, s: nat)
    requires h < 4 && q < 25 && s < 4
    ensures var y := 400 * a + 100 * h + 4 * q + s;
      LeapTerm(y) == 146097 * a + 36524 * h + 1461 * q + 365 * s
  {
    var y := 400 * a + 100 * h + 4 * q + s;
    assert y / 400 == a;
    assert y / 100 == 4 * a + h;
    assert y / 4 == 100 * a + 25 * h + q;
  }

  lemma CycleDigits(y: nat) returns (a: nat, h: nat, q: nat, s: nat)
    ensures h < 4 && q < 25 && s < 4 && y == 400 * a + 100 * h + 4 * q + s
  {
    a, h, q, s := y / 400, y % 400 / 100, y % 400 % 100 / 4, y % 400 % 100 % 4;
  }

  /** The constant 14780 is tight: the left inequality holds by 5. */
  lemma EstimateBounds(a: nat, h: nat, q: nat, s: nat, r: nat)
    requires h < 4 && q < 25 && s < 4 && r < 366
    ensures var t := 10000 * (146097 * a + 36524 * h + 1461 * q + 365 * s + r) + 14780;
      var y := 400 * a + 100 * h + 4 * q + s;
      3652425 * y <= t < 3652425 * (y + 2)
  {}

  /** Every day of March-based year `y` is estimated to lie in `y` or `y + 1`: never low, at most one
      high, and the one correction settles it. */
  lemma EstimateIsClose(y: nat, r: nat)
    requires r < YearLength(y)
    ensures var n := LeapTerm(y) + r; y <= YearEstimate(n) <= y + 1 && YearOfDays(n) == y
  {
    var n := LeapTerm(y) + r;
    var e := YearEstimate(n);
    assert y <= e <= y + 1 by {
      var a, h, q, s := CycleDigits(y);
      LeapTermByCycles(a, h, q, s);
      EstimateBounds(a, h, q, s, r);
    }
    LeapTermStep(y);
  }

  /** The months split a March-based year at the places the code's second estimate finds. */
  lemma MonthOfOffset(mi: nat, d: int)
    requires mi < 12 && 1 <= d && MonthOffset(mi) + d - 1 < (if mi == 11 then 366 else MonthOffset(mi + 1))
    ensures Quot(100 * (MonthOffset(mi) + d - 1) + 52, 3060) == mi
  {
    assert mi == 0 || mi == 1 || mi == 2 || mi == 3 || mi == 4 || mi == 5
        || mi == 6 || mi == 7 || mi == 8 || mi == 9 || mi == 10 || mi == 11;
  }

  lemma MonthOfDay(ddd: nat) returns (mi: nat, d: int)
    requires ddd < 366
    ensures mi < 12 && d >= 1 && ddd == MonthOffset(mi) + d - 1
    ensures ddd < if mi == 11 then 366 else MonthOffset(mi + 1)
  {
    mi := if ddd < 31 then 0 else if ddd < 61 then 1 else if ddd < 92 then 2 else if ddd < 122 then 3
      else if ddd < 153 then 4 else if ddd < 184 then 5 else if ddd < 214 then 6 else if ddd < 245 then 7
      else if ddd < 275 then 8 else if ddd < 306 then 9 else if ddd < 337 then 10 else 11;
    d := ddd - MonthOffset(mi) + 1;
  }

  lemma MarchMonth(m: int)
    requires 1 <= m <= 12
    ensures Rem(m + 9, 12) == (if m >= 3 then m - 3 else m + 9)
    ensures Quot(Rem(m + 9, 12), 10) == (if m >= 3 then 0 else 1)
  {}

  lemma CivilMonth(mi: nat)
    requires mi < 12
    ensures Quot(mi + 2, 12) == (if mi < 10 then 0 else 1)
    ensures Rem(mi + 2, 12) + 1 == (if mi < 10 then mi + 3 else mi - 9)
  {}

  /** A March-based month is as long as the calendar month it stands for. */
  lemma MarchMonthLength(mi: nat, leap: bool)
    requires mi < 12
    ensures MonthOffset(mi) + MonthLength(if mi < 10 then mi + 3 else mi - 9, leap)
         == if mi == 11 then (if leap then 366 else 365) else MonthOffset(mi + 1)
  {
    assert mi == 0 || mi == 1 || mi == 2 || mi == 3 || mi == 4 || mi == 5
        || mi == 6 || mi == 7 || mi == 8 || mi == 9 || mi == 10 || mi == 11;
  }

  /** A date as a day `ddd` of a March-based year `y`. */
  ghost predicate MarchForm(c: Civil, y: nat, mi: nat) {
    && mi < 12
    && c.month == (if mi < 10 then mi + 3 else mi - 9)
    && c.year == EPOCH + y + (if mi < 10 then 0 else 1)
    && 1 <= c.day <= MonthLength(c.month, IsLeap(y + 1))
  }

  lemma ToMarchForm(c: Civil) returns (y: nat, mi: nat)
    requires CodeDate(c)
    ensures MarchForm(c, y, mi)
  {
    mi := if c.month >= 3 then c.month - 3 else c.month + 9;
    y := c.year - EPOCH - (if mi < 10 then 0 else 1);
  }

  lemma MarchFormRange(c: Civil, y: nat, mi: nat)
    requires MarchForm(c, y, mi)
    ensures CodeDate(c)
    ensures var r := MonthOffset(mi) + c.day - 1;
      0 <= r < YearLength(y) && r < if mi == 11 then 366 else MonthOffset(mi + 1)
  {
    MarchMonthLength(mi, IsLeap(y + 1));
    if mi < 11 { OffsetsGrow(mi); }
  }

  lemma MarchFormGetDays(c: Civil, y: nat, mi: nat)
    requires MarchForm(c, y, mi)
    ensures GetDays(c.year, c.month, c.day) == LeapTerm(y) + (MonthOffset(mi) + c.day - 1)
  {
    MarchMonth(c.month);
  }

  lemma MarchFormFromDays(c: Civil, y: nat, mi: nat, n: int)
    requires MarchForm(c, y, mi) && n == LeapTerm(y) + (MonthOffset(mi) + c.day - 1)
    ensures FromDays(n) == c && n >= 0
  {
    MarchFormRange(c, y, mi);
    var r := MonthOffset(mi) + c.day - 1;
    assert YearOfDays(n) == y by { EstimateIsClose(y, r); }
    FromDaysBy(n, y, r);
    DateInYearIs(y, mi, c.day);
  }

  lemma FromDaysBy(n: int, y: int, r: int)
    requires YearOfDays(n) == y && n == LeapTerm(y) + r
    ensures FromDays(n) == DateInYear(y, r)
  {}

  lemma DateInYearIs(y: int, mi: nat, d: int)
    requires mi < 12 && 1 <= d && MonthOffset(mi) + d - 1 < (if mi == 11 then 366 else MonthOffset(mi + 1))
    ensures DateInYear(y, MonthOffset(mi) + d - 1)
         == Civil(1900 + y + (if mi < 10 then 0 else 1), if mi < 10 then mi + 3 else mi - 9, d)
  {
    MonthOfOffset(mi, d);
    CivilMonth(mi);
  }

  lemma OffsetsGrow(mi: nat)
    requires mi < 11
    ensures 0 <= MonthOffset(mi) < MonthOffset(mi + 1) <= 337
  {}

  lemma FromGetDays(c: Civil)
    requires CodeDate(c)
    ensures FromDays(GetDays(c.year, c.month, c.day)) == c && GetDays(c.year, c.month, c.day) >= 0
  {
    var y, mi := ToMarchForm(c);
    MarchFormGetDays(c, y, mi);
    MarchFormFromDays(c, y, mi, GetDays(c.year, c.month, c.day));
  }

  lemma {:induction false} YearOfDay(n: nat) returns (y: nat)
    ensures LeapTerm(y) <= n < LeapTerm(y) + YearLength(y)
  {
    if n == 0 {
      y := 0;
    } else {
      y := YearOfDay(n - 1);
      LeapTermStep(y);
      if n == LeapTerm(y + 1) { y := y + 1; }
    }
  }

  /** For every day number, `getDateFromDays` yields a date of the code's calendar and `getDays`
      takes it back; the year estimate behind it is the right year or the one after. */
  lemma GetFromDays(n: nat)
    ensures var c := FromDays(n); CodeDate(c) && GetDays(c.year, c.month, c.day) == n
    ensures YearOfDays(n) <= YearEstimate(n) <= YearOfDays(n) + 1
  {
    var y := YearOfDay(n);
    var mi, d := MonthOfDay(n - LeapTerm(y));
    var c := Civil(EPOCH + y + (if mi < 10 then 0 else 1), if mi < 10 then mi + 3 else mi - 9, d);
    MarchMonthLength(mi, IsLeap(y + 1));
    MarchFormRange(c, y, mi);
    MarchFormGetDays(c, y, mi);
    MarchFormFromDays(c, y, mi, n);
    EstimateIsClose(y, n - LeapTerm(y));
  }

  // ---------------------------------------------------------------- counting days one by one

  lemma GetDaysNext(c: Civil)
    requires CodeDate(c)
    ensures var e := Next(c, EPOCH);
      CodeDate(e) && GetDays(e.year, e.month, e.day) == GetDays(c.year, c.month, c.day) + 1
  {
    var y, mi := ToMarchForm(c);
    var e := Next(c, EPOCH);
    var y', mi' := if c.month == e.month then y else if mi == 11 then y + 1 else y,
                   if c.month == e.month then mi else if mi == 11 then 0 else mi + 1;
    MarchMonthLength(mi, IsLeap(y + 1));
    assert MarchForm(e, y', mi');
    LeapTermStep(y);
    MarchFormRange(e, y', mi');
    MarchFormGetDays(c, y, mi);
    MarchFormGetDays(e, y', mi');
  }

  /** The closed form of `getDateFromDays` is the date reached by walking that many days. */
  lemma {:induction false} FromDaysIsNthDay(n: nat)
    ensures CodeDate(NthDay(n)) && FromDays(n) == NthDay(n)
  {
    NthDayNumber(n);
    FromGetDays(NthDay(n));
  }

  lemma {:induction false} NthDayNumber(n: nat)
    ensures var c := NthDay(n); CodeDate(c) && GetDays(c.year, c.month, c.day) == n
  {
    if n > 0 {
      NthDayNumber(n - 1);
      GetDaysNext(NthDay(n - 1));
    }
  }

  // ---------------------------------------------------------------- order

  predicate DateBefore(a: Civil, b: Civil) {
    || a.year < b.year
    || (a.year == b.year && a.month < b.month)
    || (a.year == b.year && a.month == b.month && a.day < b.day)
  }

  lemma {:induction false} LeapTermGrows(y: nat, z: nat)
    requires y < z
    ensures LeapTerm(y) + YearLength(y) <= LeapTerm(z)
    decreases z
  {
    LeapTermStep(z - 1);
    if y < z - 1 { LeapTermGrows(y, z - 1); }
  }

  lemma GetDaysMonotone(a: Civil, b: Civil)
    requires CodeDate(a) && CodeDate(b) && DateBefore(a, b)
    ensures GetDays(a.year, a.month, a.day) < GetDays(b.year, b.month, b.day)
  {
    var y, mi := ToMarchForm(a);
    var z, ni := ToMarchForm(b);
    MarchFormRange(a, y, mi);
    MarchFormRange(b, z, ni);
    MarchFormGetDays(a, y, mi);
    MarchFormGetDays(b, z, ni);
    if y < z {
      LeapTermGrows(y, z);
    } else {
      assert y == z && mi <= ni;
      if mi < ni { OffsetsMonotone(mi + 1, ni); }
    }
  }

  lemma OffsetsMonotone(mi: nat, ni: nat)
    requires mi <= ni
    ensures MonthOffset(mi) <= MonthOffset(ni)
  {}

  // ---------------------------------------------------------------- the Gregorian calendar

  /** Days of the years before `y`, counted from 1 January of year 1 (year 0 lies before it). */
  function DaysBeforeYear(y: nat): int {
    if y == 0 then -366
    else if y == 1 then 0
    else DaysBeforeYear(y - 1) + (if IsLeap(y - 1) then 366 else 365)
  }

  function DaysBeforeMonth(m: int, leap: bool): int {
    if m <= 1 then 0 else DaysBeforeMonth(m - 1, leap) + MonthLength(m - 1, leap)
  }

  /** The Gregorian day ordinal: 1 January of year 1 is day 1. */
  function Ordinal(c: Civil): int
    requires c.year >= 0
  {
    DaysBeforeYear(c.year) + DaysBeforeMonth(c.month, IsLeap(c.year)) + c.day
  }

  lemma OrdinalNext(c: Civil)
    requires c.year >= 0 && Valid(c, GREGORIAN)
    ensures Valid(Next(c, GREGORIAN), GREGORIAN) && Ordinal(Next(c, GREGORIAN)) == Ordinal(c) + 1
  {
    var leap := IsLeap(c.year);
    if c.day < MonthLength(c.month, leap) {
    } else if c.month < 12 {
      assert DaysBeforeMonth(c.month + 1, leap) == DaysBeforeMonth(c.month, leap) + MonthLength(c.month, leap);
    } else {
      MonthTable(12, leap);
      assert DaysBeforeYear(c.year + 1) == DaysBeforeYear(c.year) + (if leap then 366 else 365);
    }
  }

  /** The running month lengths, as `setDayName` tabulates them. */
  lemma MonthTable(m: int, leap: bool)
    requires 1 <= m <= 12
    ensures DaysBeforeMonth(m, leap) == MonthDays(m) + (if leap && m > 2 then 1 else 0)
    ensures var mi := if m >= 3 then m - 3 else m + 9;
      DaysBeforeMonth(m, leap) == if m >= 3 then MonthOffset(mi) + (if leap then 60 else 59) else MonthOffset(mi) - 306
  {
    if m > 1 { MonthTable(m - 1, leap); }
  }

  lemma {:induction false} DaysBeforeYearClosed(y: nat)
    requires y >= 1
    ensures DaysBeforeYear(y) == 365 * (y - 1) + (y - 1) / 4 - (y - 1) / 100 + (y - 1) / 400
  {
    if y > 1 {
      DaysBeforeYearClosed(y - 1);
      LeapTermStep(y - 2);
    }
  }

  function MarchYear(c: Civil): int {
    if c.month >= 3 then c.year else c.year - 1
  }

  lemma OrdinalByMarchYear(c: Civil)
    requires c.year >= 1 && 1 <= c.month <= 12
    ensures var M := MarchYear(c); var mi := if c.month >= 3 then c.month - 3 else c.month + 9;
      Ordinal(c) == LeapTerm(M) + MonthOffset(mi) + c.day - 306
  {
    DaysBeforeYearClosed(c.year);
    MonthTable(c.month, IsLeap(c.year));
    LeapTermStep(c.year - 1);
  }

  lemma FourHundredShift(Y: nat)
    ensures LeapTerm(Y + 1900) - LeapTerm(1900) - LeapTerm(Y) == if (Y + 1900) % 400 < 300 then 1 else 0
  {
    var a, r := Y / 400, Y % 400;
    assert (Y + 1900) / 400 == 4 + a + (if r >= 100 then 1 else 0);
    assert (Y + 1900) / 100 == 19 + Y / 100 && (Y + 1900) / 4 == 475 + Y / 4;
  }

  lemma OrdinalVersusDays(c: Civil)
    requires FromEpoch(c) && 1 <= c.month <= 12
    ensures var M := MarchYear(c);
      Ordinal(c) - GetDays(c.year, c.month, c.day) == LeapTerm(M) - LeapTerm(M - 1900) - 305
  {
    OrdinalByMarchYear(c);
    MarchMonth(c.month);
  }

  /** How far the code's day number lags behind: a day in the first 300 March-based years of every
      400, nothing in the last 100. */
  function Lag(c: Civil): int {
    if MarchYear(c) % 400 < 300 then 1 else 0
  }

  /** Between any two dates the Gregorian count and the code's day number differ by exactly the
      difference of their lags. */
  lemma GregorianDrift(c: Civil, e: Civil)
    requires FromEpoch(c) && 1 <= c.month <= 12 && FromEpoch(e) && 1 <= e.month <= 12
    ensures (Ordinal(c) - Ordinal(e)) - (GetDays(c.year, c.month, c.day) - GetDays(e.year, e.month, e.day))
         == Lag(c) - Lag(e)
  {
    OrdinalVersusDays(c);
    OrdinalVersusDays(e);
    FourHundredShift(MarchYear(c) - 1900);
    FourHundredShift(MarchYear(e) - 1900);
  }

  // ---------------------------------------------------------------- building a date

  /** What a constructor makes of a date it accepts: the same date, except that 29 February of a year
      divisible by 400 comes out as 1 March. */
  lemma Normalized(c: Civil)
    requires Valid(c, GREGORIAN) && FromEpoch(c)
    ensures FromDays(GetDays(c.year, c.month, c.day))
         == if c.month == 2 && c.day == 29 && c.year % 400 == 0 then Civil(c.year, 3, 1) else c
    ensures FromDays(GetDays(c.year, c.month, c.day)) == c <==> !(c.month == 2 && c.day == 29 && c.year % 400 == 0)
  {
    LeapShift(c.year);
    if c.month == 2 && c.day == 29 && c.year % 400 == 0 {
      var e := Civil(c.year, 3, 1);
      MarchMonth(2);
      MarchMonth(3);
      LeapTermStep(c.year - 1901);
      assert GetDays(c.year, 2, 29) == GetDays(c.year, 3, 1);
      FromGetDays(e);
    } else {
      FromGetDays(c);
    }
  }

  /** The two leap rules disagree only at multiples of 100. */
  lemma LeapShift(y: int)
    ensures y % 400 == 0 ==> IsLeap(y) && !IsLeap(y - EPOCH)
    ensures IsLeap(y) && y % 400 != 0 ==> IsLeap(y - EPOCH)
  {
    assert (y - 1900) % 4 == y % 4 && (y - 1900) % 100 == y % 100;
  }

  /** Ten thousand times the days by which `k` years of the code's calendar exceed `k` mean years. */
  function Drift(k: int): int { 10000 * LeapTerm(k) - 3652425 * k }

  lemma DriftByCycles(k: nat)
    ensures -14775 <= Drift(k) <= 7200
  {
    var a, h, q, s := CycleDigits(k);
    LeapTermByCycles(a, h, q, s);
    CycleDrift(a, h, q, s, k, LeapTerm(k));
  }

  lemma CycleDrift(a: int, h: int, q: int, s: int, k: int, days: int)
    requires k == 400 * a + 100 * h + 4 * q + s && days == 146097 * a + 36524 * h + 1461 * q + 365 * s
    ensures 10000 * days - 3652425 * k == 300 * q - 2500 * h - 2425 * s
  {}

  lemma QuotBelowZero(t: int, j: nat)
    requires -3652425 * (j + 1) < t <= -3652425 * j
    ensures Quot(t, 3652425) == 0 - j
  {}

  lemma LeapTermOdd(k: nat)
    ensures LeapTerm(0 - k) == 0 - LeapTerm(k)
  {}

  /** Before the epoch the estimate rounds up instead of down, so that it can be two high, and one
      correction is then not enough. */
  lemma YearBeforeEpoch(k: nat, r: nat)
    requires k >= 1 && r <= 365
    requires k == 1 || 10000 * r - 3637645 <= Drift(k) ==> r < YearLength(k - 1)
    ensures YearOfDays(r - LeapTerm(k)) == if k == 1 || 10000 * r - 3637645 <= Drift(k) then 0 - k else 1 - k
  {
    var n := r - LeapTerm(k);
    var t := 10000 * n + 14780;
    DriftByCycles(k);
    assert t == 10000 * r + 14780 - Drift(k) - 3652425 * k;
    LeapTermStep(k - 1);
    LeapTermOdd(k);
    LeapTermOdd(k - 1);
    if k == 1 {
      assert Quot(t, 3652425) == 0;
    } else if 10000 * r - 3637645 <= Drift(k) {
      if t <= -3652425 * k { QuotBelowZero(t, k); } else { QuotBelowZero(t, k - 1); }
    } else {
      LeapTermStep(k - 2);
      LeapTermOdd(k - 2);
      QuotBelowZero(t, k - 2);
    }
  }

  /** The dates before the epoch that the conversion keeps: all outside February, all of 1900, and
      those in February whose day is not too late for the drift of their year. */
  predicate KeptBefore(c: Civil) {
    c.month != 2 || c.year == EPOCH || Drift(1901 - c.year) >= 2355 + 10000 * (c.day - 28)
  }

  /** Before 1 March 1900: a date is kept, if and only if it is one of those; any other turns into the
      day counted from 1 March of its year, which may be the first, the zeroth or the one before. */
  lemma NormalizedBeforeEpoch(c: Civil)
    requires Valid(c, GREGORIAN) && !FromEpoch(c)
    ensures FromDays(GetDays(c.year, c.month, c.day))
         == if KeptBefore(c) then c else Civil(c.year, 3, c.day + 337 - YearLength(EPOCH - c.year))
    ensures FromDays(GetDays(c.year, c.month, c.day)) == c <==> KeptBefore(c)
    ensures !KeptBefore(c) ==> c.month == 2 && 27 <= c.day <= 29 && c.year < EPOCH
  {
    var mi := if c.month >= 3 then c.month - 3 else c.month + 9;
    var k := 1900 - c.year + (if c.month >= 3 then 0 else 1);
    var n, r := BeforeEpochForm(c, mi, k);
    KeptMeansSettled(c, mi, k, r, n);
    if KeptBefore(c) { KeptDate(c, mi, k, r, n); } else { LostDate(c, k, r, n); }
  }

  /** A date before the epoch as day `r` of the `k`-th March-based year back. */
  lemma BeforeEpochForm(c: Civil, mi: nat, k: nat) returns (n: int, r: nat)
    requires Valid(c, GREGORIAN) && mi == (if c.month >= 3 then c.month - 3 else c.month + 9)
    requires k == 1900 - c.year + (if c.month >= 3 then 0 else 1)
    ensures n == GetDays(c.year, c.month, c.day) == r - LeapTerm(k)
    ensures r == MonthOffset(mi) + c.day - 1 <= (if mi == 11 then 336 + c.day else 336)
    ensures r < if mi == 11 then 366 else MonthOffset(mi + 1)
  {
    r := MonthOffset(mi) + c.day - 1;
    n := GetDays(c.year, c.month, c.day);
    DayBeforeEpoch(mi, c.day, IsLeap(c.year));
    GetDaysBefore(c, k, r);
  }

  lemma GetDaysBefore(c: Civil, k: nat, r: int)
    requires 1 <= c.month <= 12 && k == 1900 - c.year + (if c.month >= 3 then 0 else 1)
    requires r == MonthOffset(if c.month >= 3 then c.month - 3 else c.month + 9) + c.day - 1
    ensures GetDays(c.year, c.month, c.day) == r - LeapTerm(k)
  {
    GetDaysByMarch(c);
    LeapTermOdd(k);
    assert MarchYear(c) - 1900 == 0 - k;
  }

  lemma YearsBack(k: nat, r: int)
    requires k >= 1
    ensures r - LeapTerm(k) == LeapTerm(0 - k) + r == LeapTerm(1 - k) + (r - YearLength(k - 1))
  {
    LeapTermStep(k - 1);
    LeapTermOdd(k);
    LeapTermOdd(k - 1);
  }

  lemma KeptDate(c: Civil, mi: nat, k: nat, r: int, n: int)
    requires mi < 12 && c.month == (if mi < 10 then mi + 3 else mi - 9) && c.year == 1900 - k + (if mi < 10 then 0 else 1)
    requires r == MonthOffset(mi) + c.day - 1 < (if mi == 11 then 366 else MonthOffset(mi + 1)) && c.day >= 1
    requires k >= 1 && n == r - LeapTerm(k) && YearOfDays(n) == 0 - k
    ensures FromDays(n) == c
  {
    YearsBack(k, r);
    DayInYear(n, 0 - k, r, c, mi);
  }

  lemma DayInYear(n: int, y: int, r: int, c: Civil, mi: nat)
    requires YearOfDays(n) == y && n == LeapTerm(y) + r
    requires mi < 12 && c.month == (if mi < 10 then mi + 3 else mi - 9) && c.year == EPOCH + y + (if mi < 10 then 0 else 1)
    requires r == MonthOffset(mi) + c.day - 1 < (if mi == 11 then 366 else MonthOffset(mi + 1)) && c.day >= 1
    ensures FromDays(n) == c
  {
    FromDaysBy(n, y, r);
    DateInYearIs(y, mi, c.day);
  }

  lemma LostDate(c: Civil, k: nat, r: int, n: int)
    requires k == 1901 - c.year >= 1 && 27 <= c.day <= 29 && r == 336 + c.day
    requires n == r - LeapTerm(k) && YearOfDays(n) == 1 - k
    ensures FromDays(n) == Civil(c.year, 3, c.day + 337 - YearLength(EPOCH - c.year))
  {
    YearsBack(k, r);
    DayBeforeYear(n, 1 - k, r - YearLength(k - 1));
  }

  lemma DayBeforeYear(n: int, y: int, ddd: int)
    requires YearOfDays(n) == y && n == LeapTerm(y) + ddd && -31 <= ddd <= 0
    ensures FromDays(n) == Civil(y + EPOCH, 3, ddd + 1)
  {
    FromDaysBy(n, y, ddd);
    AroundFirstOfMarch(y, ddd);
  }

  lemma KeptMeansSettled(c: Civil, mi: nat, k: nat, r: nat, n: int)
    requires Valid(c, GREGORIAN) && !FromEpoch(c) && mi < 12 && k >= 1
    requires mi == (if c.month >= 3 then c.month - 3 else c.month + 9) && k == 1900 - c.year + (if c.month >= 3 then 0 else 1)
    requires r == MonthOffset(mi) + c.day - 1 <= (if mi == 11 then 336 + c.day else 336)
    requires n == r - LeapTerm(k)
    ensures YearOfDays(n) == if KeptBefore(c) then 0 - k else 1 - k
    ensures !KeptBefore(c) ==> 27 <= c.day && c.month == 2
  {
    DriftByCycles(k);
    assert MonthOffset(11) == 337;
    YearBeforeEpoch(k, r);
  }

  lemma AroundFirstOfMarch(y: int, ddd: int)
    requires -31 <= ddd <= 0
    ensures DateInYear(y, ddd) == Civil(y + EPOCH, 3, ddd + 1)
  {}

  lemma GetDaysByMarch(c: Civil)
    requires 1 <= c.month <= 12
    ensures var mi := if c.month >= 3 then c.month - 3 else c.month + 9;
      GetDays(c.year, c.month, c.day) == LeapTerm(MarchYear(c) - 1900) + (MonthOffset(mi) + c.day - 1)
  {
    MarchMonth(c.month);
  }

  lemma DayBeforeEpoch(mi: nat, d: int, leap: bool)
    requires mi < 12 && 1 <= d <= MonthLength(if mi < 10 then mi + 3 else mi - 9, leap)
    ensures 0 <= MonthOffset(mi) + d - 1 <= 365
    ensures MonthOffset(mi) + d - 1 < if mi == 11 then 366 else MonthOffset(mi + 1)
    ensures mi < 11 ==> MonthOffset(mi) + d - 1 <= 336
  {
    MarchMonthLength(mi, leap);
    if mi < 11 { OffsetsGrow(mi); }
  }

  /** What the conversion makes of any valid date. */
  function Converted(c: Civil): Civil {
    if FromEpoch(c) then (if c.month == 2 && c.day == 29 && c.year % 400 == 0 then Civil(c.year, 3, 1) else c)
    else if KeptBefore(c) then c
    else Civil(c.year, 3, c.day + 337 - YearLength(EPOCH - c.year))
  }

  /** The dates it keeps. */
  predicate Kept(c: Civil) {
    if FromEpoch(c) then !(c.month == 2 && c.day == 29 && c.year % 400 == 0) else KeptBefore(c)
  }

  lemma NormalizedExactly(c: Civil)
    requires Valid(c, GREGORIAN)
    ensures FromDays(GetDays(c.year, c.month, c.day)) == Converted(c)
    ensures FromDays(GetDays(c.year, c.month, c.day)) == c <==> Kept(c)
  {
    if FromEpoch(c) { Normalized(c); } else { NormalizedBeforeEpoch(c); }
  }

  /** No 29 February before the epoch is kept: it becomes 1 March. */
  lemma LeapDaysLost(c: Civil)
    requires Valid(c, GREGORIAN) && !FromEpoch(c) && c.month == 2 && c.day == 29
    ensures Converted(c) == Civil(c.year, 3, 1)
  {
    DriftByCycles(1901 - c.year);
    LeapBack(c.year);
  }

  lemma LeapBack(y: int)
    requires IsLeap(y)
    ensures y != EPOCH && YearLength(EPOCH - y) == 365
  {
    assert (1901 - y) % 4 == 1;
  }

  /** 28 February of the year 5 turns into the day before the zeroth of March. */
  lemma LostInFebruary()
    ensures Valid(Civil(5, 2, 28), GREGORIAN) && FromDays(GetDays(5, 2, 28)) == Civil(5, 3, -1)
  {
    assert LeapTerm(1896) == 692500;
    NormalizedBeforeEpoch(Civil(5, 2, 28));
  }

  // ---------------------------------------------------------------- weekdays

  /** The day-of-year table of `setDayName`. */
  function MonthDays(m: int): int {
    if m == 12 then 334 else if m == 11 then 304 else if m == 10 then 273 else if m == 9 then 243
    else if m == 8 then 212 else if m == 7 then 181 else if m == 6 then 151 else if m == 5 then 120
    else if m == 4 then 90 else if m == 3 then 59 else if m == 2 then 31 else 0
  }

  /** Weekday code of 31 December of the year before. */
  function YearCode(y: int): int {
    Rem((y - 1) * 365 + Quot(y - 1, 4) - Quot(y - 1, 100) + Quot(y - 1, 400), 7)
  }

  /** The index `setDayName` computes: 0 is Sunday. */
  function DayIndex(y: int, m: int, d: int): int {
    var d0 := d + YearCode(y);
    Rem(d0 + MonthDays(m) + (if IsLeap(y) && m > 2 then 1 else 0), 7)
  }

  lemma RemSum(a: int, x: int, b: int)
    requires a + Rem(x, 7) + b >= 0
    ensures Rem(a + Rem(x, 7) + b, 7) == (a + x + b) % 7
  {
    QuotRem(x, 7);
    assert a + x + b == a + Rem(x, 7) + b + 7 * Quot(x, 7);
  }

  lemma QuotRem(a: int, b: int)
    requires b > 0
    ensures a == b * Quot(a, b) + Rem(a, b) && -b < Rem(a, b) < b && (a >= 0 ==> Rem(a, b) >= 0)
  {}

  /** The computed weekday is the true Gregorian one exactly from year 1 on; in year 0 it is a day off. */
  lemma WeekdayIsOrdinal(c: Civil)
    requires c.year >= 0 && Valid(c, GREGORIAN)
    ensures DayIndex(c.year, c.month, c.day) == Ordinal(c) % 7 <==> c.year >= 1
    ensures 0 <= DayIndex(c.year, c.month, c.day) < 7
  {
    MonthTable(c.month, IsLeap(c.year));
    if c.year >= 1 { WeekdayFromYearOne(c); } else { WeekdayInYearZero(c); }
  }

  lemma YearCodeIs(y: nat)
    requires y >= 1
    ensures YearCode(y) == Rem(DaysBeforeYear(y), 7)
  {
    DaysBeforeYearClosed(y);
  }

  lemma WeekdayFromYearOne(c: Civil)
    requires c.year >= 1 && 1 <= c.month <= 12 && c.day >= 0
    ensures DayIndex(c.year, c.month, c.day) == Ordinal(c) % 7
  {
    MonthTable(c.month, IsLeap(c.year));
    YearCodeIs(c.year);
    RemSum(c.day, DaysBeforeYear(c.year), MonthDays(c.month) + (if IsLeap(c.year) && c.month > 2 then 1 else 0));
  }

  lemma WeekdayInYearZero(c: Civil)
    requires c.year == 0 && Valid(c, GREGORIAN)
    ensures DayIndex(c.year, c.month, c.day) == (Ordinal(c) + 1) % 7 && DayIndex(c.year, c.month, c.day) != Ordinal(c) % 7
  {
    MonthTable(c.month, IsLeap(c.year));
    var b := MonthDays(c.month) + (if IsLeap(c.year) && c.month > 2 then 1 else 0);
    assert YearCode(0) == Rem(-365, 7);
    RemSum(c.day, -365, b);
    assert Ordinal(c) == c.day - 366 + b;
    NextRemainder(Ordinal(c));
  }

  lemma NextRemainder(n: int)
    ensures (n + 1) % 7 != n % 7
  {}

  lemma {:induction false} FourCenturies(y: nat)
    requires y >= 1
    ensures IsLeap(y + 400) == IsLeap(y) && DaysBeforeYear(y + 400) == DaysBeforeYear(y) + 146097
  {
    DaysBeforeYearClosed(y);
    DaysBeforeYearClosed(y + 400);
    assert (y + 399) / 4 == (y - 1) / 4 + 100 && (y + 399) / 100 == (y - 1) / 100 + 4 && (y + 399) / 400 == (y - 1) / 400 + 1;
  }

  lemma NextModSeven(n: int)
    ensures (n + 1) % 7 == (n % 7 + 1) % 7 && (n + 146097) % 7 == n % 7
  {}

  /** Successive dates carry successive weekdays, through month ends, leap days and century ends. */
  lemma WeekdaysAdvance(c: Civil)
    requires c.year >= 1 && Valid(c, GREGORIAN)
    ensures var e := Next(c, GREGORIAN);
      DayIndex(e.year, e.month, e.day) == (DayIndex(c.year, c.month, c.day) + 1) % 7
  {
    OrdinalNext(c);
    WeekdayIsOrdinal(c);
    WeekdayIsOrdinal(Next(c, GREGORIAN));
    NextModSeven(Ordinal(c));
  }

  /** The weekdays repeat every 400 years. */
  lemma WeekdaysRepeat(c: Civil)
    requires c.year >= 1 && Valid(c, GREGORIAN)
    ensures DayIndex(c.year + 400, c.month, c.day) == DayIndex(c.year, c.month, c.day)
  {
    var f := c.(year := c.year + 400);
    FourCenturies(c.year);
    WeekdayIsOrdinal(c);
    WeekdayIsOrdinal(f);
    NextModSeven(Ordinal(c));
    assert Ordinal(f) == Ordinal(c) + 146097;
  }
}
