/** The Date class of Date.cpp: two-digit string fields, rewritten by setters, constructors that throw,
    and the carry chain of the update methods. */
module Dates {
  import opened Text
  import opened Decimal
  import opened Calendar

  // ---------------------------------------------------------------- names

  const MONTHS: seq<string> :=
    ["JAN", "FEB", "MAR", "APR", "MAY", "JUN", "JUL", "AUG", "SEP", "OCT", "NOV", "DEC"]

  const WEEKDAYS: seq<string> := ["SUN", "MON", "TUE", "WED", "THU", "FRI", "SAT"]

  /** The two-digit form every setter writes. */
  function Two(n: int): string {
    (if n <= 9 then "0" else "") + IntToStr(n)
  }

  /** The month number of a name in any case, "-1" for an unknown one. */
  function GetMon(mmm: string): string {
    var m := MonthIndex(ToUpper(mmm), 1);
    if m == 13 then "-1" else Two(m)
  }

  function MonthIndex(name: string, m: nat): nat
    requires 1 <= m <= 13
    decreases 13 - m
  {
    if m == 13 || MONTHS[m - 1] == name then m else MonthIndex(name, m + 1)
  }

  /** The name of a month number, "-1" for any other number. */
  function MonthName(m: int): string {
    if 1 <= m <= 12 then MONTHS[m - 1] else "-1"
  }

  /** getMonFd: the name of a month given as text, with or without a leading zero. */
  function GetMonFd(mmm: string, m: nat): string
    requires 1 <= m <= 13
    decreases 13 - m
  {
    if m == 13 then "-1" else if mmm == Two(m) || mmm == IntToStr(m) then MONTHS[m - 1] else GetMonFd(mmm, m + 1)
  }

  /** The first three letters of the name `setDayName` picks; no name for a negative remainder. */
  function DayName(i: int): string {
    if 0 <= i < 7 then WEEKDAYS[i] else ""
  }

  lemma GetMonOfName(m: int)
    requires 1 <= m <= 12
    ensures |MONTHS[m - 1]| == 3 && ToUpper(MONTHS[m - 1]) == MONTHS[m - 1] && GetMon(MONTHS[m - 1]) == Two(m)
  {
    var name := MONTHS[m - 1];
    assert ToUpper(name) == name;
    MonthIndexOf(m, 1);
  }

  lemma {:induction false} MonthIndexOf(m: nat, from: nat)
    requires 1 <= from <= m <= 12
    ensures MonthIndex(MONTHS[m - 1], from) == m
    decreases m - from
  {
    if from < m {
      MonthsDiffer(from, m);
      MonthIndexOf(m, from + 1);
    }
  }

  lemma MonthsDiffer(a: nat, b: nat)
    requires 1 <= a < b <= 12
    ensures MONTHS[a - 1] != MONTHS[b - 1]
  {
    var x, y := MONTHS[a - 1], MONTHS[b - 1];
    assert x[0] != y[0] || x[1] != y[1] || x[2] != y[2];
  }

  /** The name of a month, counted from January. */
  predicate NamesMonth(w: string, m: int) {
    || (m == 1 && w == "JAN") || (m == 2 && w == "FEB") || (m == 3 && w == "MAR") || (m == 4 && w == "APR")
    || (m == 5 && w == "MAY") || (m == 6 && w == "JUN") || (m == 7 && w == "JUL") || (m == 8 && w == "AUG")
    || (m == 9 && w == "SEP") || (m == 10 && w == "OCT") || (m == 11 && w == "NOV") || (m == 12 && w == "DEC")
  }

  lemma MonthNamed(m: int)
    requires 1 <= m <= 12
    ensures NamesMonth(MONTHS[m - 1], m)
  {}

  lemma OneName(v: string, w: string, m: int)
    requires NamesMonth(v, m)
    ensures NamesMonth(w, m) <==> v == w
  {}

  lemma {:induction false} FoundMonth(name: string, from: nat)
    requires 1 <= from <= 13
    ensures var k := MonthIndex(name, from); from <= k <= 13 && (k <= 12 ==> name == MONTHS[k - 1])
    decreases 13 - from
  {
    if from < 13 && MONTHS[from - 1] != name { FoundMonth(name, from + 1); }
  }

  /** The search finds a month by its own name and by no other. */
  lemma MonthFound(name: string, m: int)
    requires 1 <= m <= 12
    ensures MonthIndex(name, 1) == m <==> NamesMonth(name, m)
  {
    MonthNamed(m);
    OneName(MONTHS[m - 1], name, m);
    FoundMonth(name, 1);
    if name == MONTHS[m - 1] { MonthIndexOf(m, 1); }
  }

  lemma DayNameShape(i: int)
    requires 0 <= i < 7
    ensures |DayName(i)| == 3 && ToUpper(DayName(i)) == DayName(i)
    ensures forall k :: 0 <= k < 3 ==> 'A' <= DayName(i)[k] <= 'Z'
  {}

  lemma CastTwo(n: nat)
    ensures CastInt(Two(n)) == Ok(n) && AllDigits(Two(n)) && |Two(n)| >= 2
    ensures n < 100 ==> |Two(n)| == 2
    ensures 1000 <= n < 10000 ==> |Two(n)| == 4
  {
    CastDigits(Two(n));
    ToStrVal(n);
    if n <= 9 { DigitsValConcat("0", ToStr(n)); assert DigitsVal("0") == 0; } else { assert "" + ToStr(n) == ToStr(n); }
    TwoLength(n);
  }

  lemma TwoLength(n: nat)
    ensures |Two(n)| >= 2
    ensures n < 100 ==> |Two(n)| == 2
    ensures 1000 <= n < 10000 ==> |Two(n)| == 4
  {
    if n >= 10 {
      assert |ToStr(n)| == |ToStr(n / 10)| + 1;
      if n >= 100 {
        assert |ToStr(n / 10)| == |ToStr(n / 100)| + 1 by { assert n / 10 / 10 == n / 100; }
        if n >= 1000 {
          assert |ToStr(n / 100)| == |ToStr(n / 1000)| + 1 by { assert n / 100 / 10 == n / 1000; }
        }
      }
    }
  }

  /** A number below zero is written with a zero in front of its minus sign, which no cast reads. */
  lemma CastTwoNegative(n: int)
    requires n < 0
    ensures CastInt(Two(n)) == Throw(BAD_INT)
  {
    var t := Two(n);
    assert t == "0" + ("-" + ToStr(-n));
    assert t[0] == '0' && t[1] == '-' && !IsDigit(t[1]);
    forall i | 0 <= i < |t| ensures t[i] != '\0' { assert i >= 2 ==> IsDigit(ToStr(-n)[i - 2]); }
    CStrWhole(t);
  }

  /** What every setter writes: at least two digits that read back as the number, and, for a number
      below zero, a text that no cast reads. */
  predicate ReadsBack(text: string, n: int) {
    && text == Two(n)
    && (n >= 0 ==> CastInt(text) == Ok(n) && AllDigits(text) && |text| >= 2 && (n < 100 ==> |text| == 2))
    && (n < 0 ==> CastInt(text) == Throw(BAD_INT))
  }

  lemma SetterReadsBack(n: int)
    ensures ReadsBack(Two(n), n)
  {
    if n >= 0 { CastTwo(n); } else { CastTwoNegative(n); }
  }

  lemma CastSetter(n: int)
    ensures CastInt(Two(n)) == if n >= 0 then Ok(n) else Throw(BAD_INT)
  {
    SetterReadsBack(n);
  }

  lemma MonthTextMatches(m: int, k: nat)
    requires k >= 1
    ensures Two(m) == Two(k) || Two(m) == IntToStr(k) <==> m == k
  {
    CastTwo(k);
    CastPrinted(k);
    SetterReadsBack(m);
  }

  lemma {:induction false} GetMonFdTwo(m: int, k: nat)
    requires 1 <= k <= 13 && !(1 <= m < k)
    ensures GetMonFd(Two(m), k) == MonthName(m)
    decreases 13 - k
  {
    if k < 13 {
      MonthTextMatches(m, k);
      if m != k { GetMonFdTwo(m, k + 1); }
    }
  }

  // ---------------------------------------------------------------- what a Date holds

  /** The fields of a Date, as a value. */
  datatype Stamp = Stamp(day: string, month: string, monthw: string, year: string, dayw: string,
                         hh: string, mm: string, ss: string, nanoseconds: int, timeZoneOffset: real)

  function MonthOf(s: Stamp): Result<int> {
    if s.month != "" then CastInt(s.month) else CastInt(GetMon(s.monthw))
  }

  function Named(s: Stamp): Result<Stamp> {
    var y :- CastInt(s.year);
    var m :- MonthOf(s);
    var d :- CastInt(s.day);
    Ok(s.(dayw := DayName(DayIndex(y, m, d))))
  }

  /** Without a month text the month is the one its name stands for. */
  lemma MonthByNameOnly(s: Stamp, m: int)
    requires s.month == "" && 1 <= m <= 12 && NamesMonth(ToUpper(s.monthw), m)
    ensures MonthOf(s) == Ok(m)
  {
    MonthFound(ToUpper(s.monthw), m);
    CastTwo(m);
  }

  predicate Accepted(dd: int, mm: int, yyyy: int) {
    yyyy >= 0 && Valid(Civil(yyyy, mm, dd), GREGORIAN)
  }

  /** The length of the month before, as `getDayName` adds it where the days of all the months before
      belong. */
  function PriorMonth(m: int): int {
    if m == 12 || m == 10 || m == 7 || m == 5 then 30
    else if m == 11 || m == 9 || m == 8 || m == 6 || m == 4 || m == 2 then 31
    else if m == 3 then 28
    else 0
  }

  /** The index `getDayName` computes. */
  function MonthDayIndex(y: int, m: int, d: int): int {
    Rem(YearCode(y) + (d + PriorMonth(m)) + (if IsLeap(y) && m > 2 then 1 else 0), 7)
  }

  function GetDayName(d: int, m: int, y: int): string {
    if Accepted(d, m, y) then DayName(MonthDayIndex(y, m, d)) else ""
  }

  /** `getDayName` is right in January, February and November only, and in the year 0 in June only. */
  lemma GetDayNameExactly(c: Civil)
    requires c.year >= 0 && Valid(c, GREGORIAN)
    ensures MonthDayIndex(c.year, c.month, c.day) == Ordinal(c) % 7 <==> if c.year == 0 then c.month == 6 else c.month in {1, 2, 11}
  {
    var leap := if IsLeap(c.year) && c.month > 2 then 1 else 0;
    if c.year == 0 { DayNameInYearZero(c, leap); } else { DayNameFromYearOne(c, leap); }
  }

  /** How many weekdays `getDayName` is ahead in a month, from the year 1 on. */
  function DaysAhead(m: int): int {
    if m == 3 || m == 4 || m == 12 then 4 else if m == 5 || m == 8 then 1 else if m == 6 then 6
    else if m == 7 then 3 else if m == 9 then 5 else if m == 10 then 2 else 0
  }

  /** What `getDayName` says: no name for what is no date; else, from the year 1 on, the name of a weekday
      that is 0, 4, 1, 6, 3, 5 or 2 days past the Gregorian one, by the month. */
  lemma GetDayNameSays(d: int, m: int, y: int)
    ensures !Accepted(d, m, y) ==> GetDayName(d, m, y) == ""
    ensures Accepted(d, m, y) && y >= 1 ==>
      NamesWeekday(GetDayName(d, m, y),
        (Ordinal(Civil(y, m, d)) + (if m == 3 || m == 4 || m == 12 then 4 else if m == 5 || m == 8 then 1 else if m == 6 then 6
                                    else if m == 7 then 3 else if m == 9 then 5 else if m == 10 then 2 else 0)) % 7)
  {
    if Accepted(d, m, y) && y >= 1 {
      var c := Civil(y, m, d);
      var leap := if IsLeap(y) && m > 2 then 1 else 0;
      MonthDayIndexIs(c, leap);
      OrdinalIs(c, leap);
      AheadBy(m);
      SameRemainder(DaysBeforeYear(y) + d + leap + PriorMonth(m), Ordinal(c) + DaysAhead(m));
      DayNameNames((Ordinal(c) + DaysAhead(m)) % 7);
    }
  }

  lemma AheadBy(m: int)
    requires 1 <= m <= 12
    ensures (MonthDays(m) + DaysAhead(m) - PriorMonth(m)) % 7 == 0
  {}

  lemma IndexInYearZero(c: Civil, leap: int)
    requires c.year == 0 && Valid(c, GREGORIAN) && leap == if IsLeap(c.year) && c.month > 2 then 1 else 0
    ensures MonthDayIndex(c.year, c.month, c.day) == (c.day + leap + PriorMonth(c.month) - 1) % 7
  {
    CodeOfYearZero();
  }

  lemma CodeOfYearZero()
    ensures YearCode(0) == -1
  {}

  lemma OrdinalInYearZero(c: Civil, leap: int)
    requires c.year == 0 && Valid(c, GREGORIAN) && leap == if IsLeap(c.year) && c.month > 2 then 1 else 0
    ensures Ordinal(c) == c.day + leap + MonthDays(c.month) - 366
  {
    OrdinalIs(c, leap);
    assert DaysBeforeYear(0) == -366;
  }

  lemma DayNameInYearZero(c: Civil, leap: int)
    requires c.year == 0 && Valid(c, GREGORIAN) && leap == if IsLeap(c.year) && c.month > 2 then 1 else 0
    ensures MonthDayIndex(c.year, c.month, c.day) == Ordinal(c) % 7 <==> c.month == 6
  {
    var d, p, m := c.day + leap, PriorMonth(c.month), MonthDays(c.month);
    IndexInYearZero(c, leap);
    OrdinalInYearZero(c, leap);
    SameRemainder(d + p - 1, d + m - 366);
    MonthsBefore(c.month);
  }

  lemma DayNameFromYearOne(c: Civil, leap: int)
    requires c.year >= 1 && Valid(c, GREGORIAN) && leap == if IsLeap(c.year) && c.month > 2 then 1 else 0
    ensures MonthDayIndex(c.year, c.month, c.day) == Ordinal(c) % 7 <==> c.month in {1, 2, 11}
  {
    MonthDayIndexIs(c, leap);
    OrdinalIs(c, leap);
    SameRemainder(DaysBeforeYear(c.year) + c.day + leap + PriorMonth(c.month), DaysBeforeYear(c.year) + c.day + leap + MonthDays(c.month));
    MonthsBefore(c.month);
  }

  lemma MonthDayIndexIs(c: Civil, leap: int)
    requires c.year >= 1 && Valid(c, GREGORIAN) && leap == if IsLeap(c.year) && c.month > 2 then 1 else 0
    ensures MonthDayIndex(c.year, c.month, c.day) == (DaysBeforeYear(c.year) + c.day + leap + PriorMonth(c.month)) % 7
  {
    YearCodeIs(c.year);
    RemSum(c.day + PriorMonth(c.month), DaysBeforeYear(c.year), leap);
  }

  lemma OrdinalIs(c: Civil, leap: int)
    requires c.year >= 0 && Valid(c, GREGORIAN) && leap == if IsLeap(c.year) && c.month > 2 then 1 else 0
    ensures Ordinal(c) == DaysBeforeYear(c.year) + c.day + leap + MonthDays(c.month)
  {
    MonthTable(c.month, IsLeap(c.year));
  }

  lemma MonthsBefore(m: int)
    requires 1 <= m <= 12
    ensures (MonthDays(m) - PriorMonth(m)) % 7 == 0 <==> m in {1, 2, 11}
    ensures (MonthDays(m) - PriorMonth(m) - 365) % 7 == 0 <==> m == 6
  {}

  lemma SameRemainder(a: int, b: int)
    ensures a % 7 == b % 7 <==> (b - a) % 7 == 0
  {}

  /** The date part written from `c`, everything else taken over from the clock reading `now`. */
  function Written(c: Civil, now: Stamp): Stamp {
    now.(day := Two(c.day), month := Two(c.month), monthw := MonthName(c.month), year := Two(c.year),
         dayw := GetDayName(c.day, c.month, c.year))
  }

  lemma WrittenIs(c: Civil, now: Stamp, v: Stamp)
    requires v.day == Two(c.day) && v.month == Two(c.month) && v.monthw == MonthName(c.month) && v.year == Two(c.year)
    requires v.dayw == GetDayName(c.day, c.month, c.year) && v.hh == now.hh && v.mm == now.mm && v.ss == now.ss
    requires v.nanoseconds == now.nanoseconds && v.timeZoneOffset == now.timeZoneOffset
    ensures v == Written(c, now)
  {}

  /** What the numeric constructor leaves in the object. */
  function Made(yyyy: int, mm: int, dd: int, now: Stamp): Result<Stamp> {
    if !Accepted(dd, mm, yyyy) then Throw("Invalid date")
    else Named(Written(FromDays(GetDays(yyyy, mm, dd)), now).(nanoseconds := 0, timeZoneOffset := 0.0))
  }

  function MadeByName(yyyy: int, mmm: string, dd: int, now: Stamp): Result<Stamp> {
    var mm := GetMon(mmm);
    if mm == "-1" then Throw("Invalid month")
    else
      var m :- CastInt(mm);
      Made(yyyy, m, dd, now)
  }

  function Timed(s: Stamp, hh: int, mi: int, ss: int): Result<Stamp> {
    if hh > 24 || hh < 0 || mi < 0 || mi > 60 || ss < 0 || ss > 60 then Throw("Invalid Time")
    else Ok(s.(hh := Two(hh), mm := Two(mi), ss := Two(ss), nanoseconds := 0))
  }

  /** `setTime` refuses what is out of its range, and else leaves fields that read as the three numbers,
      without nanoseconds, and the date as it was. */
  lemma TimedExactly(s: Stamp, hh: int, mi: int, ss: int)
    ensures Timed(s, hh, mi, ss) == Throw("Invalid Time") <==> !(0 <= hh <= 24 && 0 <= mi <= 60 && 0 <= ss <= 60)
    ensures Timed(s, hh, mi, ss).Ok? ==>
      var v := Timed(s, hh, mi, ss).value;
      && CastInt(v.hh) == Ok(hh) && CastInt(v.mm) == Ok(mi) && CastInt(v.ss) == Ok(ss) && v.nanoseconds == 0
      && v == s.(hh := v.hh, mm := v.mm, ss := v.ss, nanoseconds := 0)
  {
    SetterReadsBack(hh);
    SetterReadsBack(mi);
    SetterReadsBack(ss);
  }

  /** Every field of a date and time, written out as the constructors and `setTime` write them. */
  function Full(c: Civil, h: int, mi: int, s: int, tz: real): Stamp {
    Stamp(Two(c.day), Two(c.month), MonthName(c.month), Two(c.year),
          DayName(DayIndex(c.year, c.month, c.day)), Two(h), Two(mi), Two(s), 0, tz)
  }

  predicate InDay(h: int, mi: int, s: int) { 0 <= h <= 23 && 0 <= mi <= 59 && 0 <= s <= 59 }

  predicate SetTimeTakes(h: int, mi: int, s: int) { 0 <= h <= 24 && 0 <= mi <= 60 && 0 <= s <= 60 }

  /** A date the constructors hand back unchanged. */
  predicate Stable(c: Civil) {
    Accepted(c.day, c.month, c.year) && FromDays(GetDays(c.year, c.month, c.day)) == c
  }

  /** Which accepted dates are stable, for every year. */
  lemma StableDates(c: Civil)
    requires Accepted(c.day, c.month, c.year)
    ensures Stable(c) <==> Kept(c)
  {
    NormalizedExactly(c);
  }

  lemma MadeWrites(c: Civil, e: Civil, now: Stamp)
    requires Accepted(c.day, c.month, c.year) && e == FromDays(GetDays(c.year, c.month, c.day))
    requires e.year >= 0 && e.month >= 1 && e.day >= 0
    ensures Made(c.year, c.month, c.day, now)
         == Ok(Full(e, 0, 0, 0, 0.0).(hh := now.hh, mm := now.mm, ss := now.ss))
  {
    CastTwo(e.year);
    CastTwo(e.month);
    CastTwo(e.day);
  }

  lemma MadeFails(c: Civil, e: Civil, now: Stamp)
    requires Accepted(c.day, c.month, c.year) && e == FromDays(GetDays(c.year, c.month, c.day))
    requires e.year >= 0 && e.month >= 1 && e.day < 0
    ensures Made(c.year, c.month, c.day, now) == Throw(BAD_INT)
  {
    CastTwo(e.year);
    CastTwo(e.month);
    CastTwoNegative(e.day);
  }

  /** The numeric constructor on every accepted date: the fields of the date the conversion yields,
      weekday included, or, where that has a day below zero, an exception out of the weekday's cast. */
  lemma MadeExactly(c: Civil, now: Stamp)
    requires Accepted(c.day, c.month, c.year)
    ensures var e := Converted(c);
      Made(c.year, c.month, c.day, now)
      == if e.day < 0 then Throw(BAD_INT) else Ok(Full(e, 0, 0, 0, 0.0).(hh := now.hh, mm := now.mm, ss := now.ss))
  {
    NormalizedExactly(c);
    var e := Converted(c);
    if e.day < 0 { MadeFails(c, e, now); } else { MadeWrites(c, e, now); }
  }

  /** What the fields of a made date read as: the date the conversion yields, the name of its month, and
      the clock's time. */
  lemma MadeReads(c: Civil, e: Civil, now: Stamp)
    requires Accepted(c.day, c.month, c.year)
    requires e == FromDays(GetDays(c.year, c.month, c.day)) && e.day >= 0
    ensures Made(c.year, c.month, c.day, now).Ok?
    ensures var v := Made(c.year, c.month, c.day, now).value;
      && CastInt(v.year) == Ok(e.year) && CastInt(v.month) == Ok(e.month) && CastInt(v.day) == Ok(e.day)
      && NamesMonth(v.monthw, e.month) && v.hh == now.hh && v.mm == now.mm && v.ss == now.ss
      && v.nanoseconds == 0 && v.timeZoneOffset == 0.0
  {
    NormalizedExactly(c);
    MadeExactly(c, now);
    SetterReadsBack(e.year);
    SetterReadsBack(e.month);
    SetterReadsBack(e.day);
    MonthNamed(e.month);
  }

  /** What the numeric constructor refuses: a year below zero, and a day or month that the Gregorian
      calendar has not. */
  lemma MadeRefuses(y: int, m: int, d: int, now: Stamp)
    ensures Made(y, m, d, now) == Throw("Invalid date") <==>
      !(y >= 0 && 1 <= m <= 12 && 1 <= d <=
        (if m == 2 then (if y % 4 == 0 && (y % 100 != 0 || y % 400 == 0) then 29 else 28)
         else if m == 4 || m == 6 || m == 9 || m == 11 then 30 else 31))
  {
    if Accepted(d, m, y) { MadeExactly(Civil(y, m, d), now); }
  }

  /** What the constructor from a name refuses: every text that is not one of the twelve names, in any
      case. With one of them it does what the other does with the number of that month. */
  lemma MadeByNameExactly(y: int, name: string, d: int, now: Stamp)
    ensures var u, r := ToUpper(name), MadeByName(y, name, d, now);
      && (r == Throw("Invalid month") <==>
            && u != "JAN" && u != "FEB" && u != "MAR" && u != "APR" && u != "MAY" && u != "JUN"
            && u != "JUL" && u != "AUG" && u != "SEP" && u != "OCT" && u != "NOV" && u != "DEC")
      && (u == "JAN" ==> r == Made(y, 1, d, now)) && (u == "FEB" ==> r == Made(y, 2, d, now))
      && (u == "MAR" ==> r == Made(y, 3, d, now)) && (u == "APR" ==> r == Made(y, 4, d, now))
      && (u == "MAY" ==> r == Made(y, 5, d, now)) && (u == "JUN" ==> r == Made(y, 6, d, now))
      && (u == "JUL" ==> r == Made(y, 7, d, now)) && (u == "AUG" ==> r == Made(y, 8, d, now))
      && (u == "SEP" ==> r == Made(y, 9, d, now)) && (u == "OCT" ==> r == Made(y, 10, d, now))
      && (u == "NOV" ==> r == Made(y, 11, d, now)) && (u == "DEC" ==> r == Made(y, 12, d, now))
  {
    var k := MonthIndex(ToUpper(name), 1);
    MonthByName(ToUpper(name), k);
    MadeByIndex(y, name, d, now, k);
  }

  lemma MonthByName(u: string, k: nat)
    requires k == MonthIndex(u, 1)
    ensures 1 <= k <= 13
    ensures k == 13 <==> u != "JAN" && u != "FEB" && u != "MAR" && u != "APR" && u != "MAY" && u != "JUN"
                         && u != "JUL" && u != "AUG" && u != "SEP" && u != "OCT" && u != "NOV" && u != "DEC"
    ensures (u == "JAN" ==> k == 1) && (u == "FEB" ==> k == 2) && (u == "MAR" ==> k == 3) && (u == "APR" ==> k == 4)
    ensures (u == "MAY" ==> k == 5) && (u == "JUN" ==> k == 6) && (u == "JUL" ==> k == 7) && (u == "AUG" ==> k == 8)
    ensures (u == "SEP" ==> k == 9) && (u == "OCT" ==> k == 10) && (u == "NOV" ==> k == 11) && (u == "DEC" ==> k == 12)
  {
    FoundMonth(u, 1);
    forall m | 1 <= m <= 12 ensures k == m <==> NamesMonth(u, m) { MonthFound(u, m); }
  }

  lemma MadeByIndex(y: int, name: string, d: int, now: Stamp, k: nat)
    requires k == MonthIndex(ToUpper(name), 1) && 1 <= k <= 13
    ensures var r := MadeByName(y, name, d, now);
      if k == 13 then r == Throw("Invalid month") else r == Made(y, k, d, now) && r != Throw("Invalid month")
  {
    if k <= 12 {
      CastTwo(k);
      NotMinusOne(k);
      NeverInvalidMonth(y, k, d, now);
    }
  }

  lemma NotMinusOne(k: nat)
    ensures Two(k) != "-1"
  {
    CastTwo(k);
    assert IsDigit(Two(k)[0]);
  }

  lemma NeverInvalidMonth(y: int, m: int, d: int, now: Stamp)
    ensures Made(y, m, d, now) != Throw("Invalid month")
  {
    if Accepted(d, m, y) { MadeExactly(Civil(y, m, d), now); }
  }

  /** The name of a weekday, counted from Sunday. */
  predicate NamesWeekday(w: string, i: int) {
    || (i == 0 && w == "SUN") || (i == 1 && w == "MON") || (i == 2 && w == "TUE") || (i == 3 && w == "WED")
    || (i == 4 && w == "THU") || (i == 5 && w == "FRI") || (i == 6 && w == "SAT")
  }

  lemma DayNameNames(i: int)
    requires 0 <= i < 7
    ensures NamesWeekday(DayName(i), i)
  {}

  /** Told apart by two letters. */
  lemma NamesApart(w: string, i: int)
    requires NamesWeekday(w, i)
    ensures w == "SUN" <==> i == 0
    ensures w == "MON" <==> i == 1
    ensures w == "TUE" <==> i == 2
    ensures w == "WED" <==> i == 3
    ensures w == "THU" <==> i == 4
    ensures w == "FRI" <==> i == 5
    ensures w == "SAT" <==> i == 6
  {
    assert |w| == 3 && w[0] in "SMTWF" && w[1] in "UOEHRA";
  }

  /** The weekday that a made date is given, from the year 1 on: the name of the Gregorian weekday. */
  lemma MadeOnWeekday(c: Civil, e: Civil, now: Stamp)
    requires Accepted(c.day, c.month, c.year) && c.year >= 1
    requires e == FromDays(GetDays(c.year, c.month, c.day)) && e.day >= 0
    ensures e.year >= 0 && Made(c.year, c.month, c.day, now).Ok?
    ensures var w, o := Made(c.year, c.month, c.day, now).value.dayw, Ordinal(e) % 7;
      && (w == "SUN" <==> o == 0) && (w == "MON" <==> o == 1) && (w == "TUE" <==> o == 2) && (w == "WED" <==> o == 3)
      && (w == "THU" <==> o == 4) && (w == "FRI" <==> o == 5) && (w == "SAT" <==> o == 6)
  {
    NormalizedExactly(c);
    MadeExactly(c, now);
    WeekdayFromYearOne(e);
    var i := DayIndex(e.year, e.month, e.day);
    DayNameNames(i);
    NamesApart(DayName(i), i);
  }

  /** 28 February of the year 5 is accepted and cannot be made. */
  lemma FebruaryThrows(now: Stamp)
    ensures Accepted(28, 2, 5) && Made(5, 2, 28, now) == Throw(BAD_INT)
  {
    LostInFebruary();
    MadeFails(Civil(5, 2, 28), Civil(5, 3, -1), now);
  }

  /** The numeric constructor on an accepted date from 1 March 1900 on: the fields of that date,
      except that 29 February of a year divisible by 400 turns into 1 March, weekday included. */
  lemma MadeFromEpoch(c: Civil, now: Stamp)
    requires Accepted(c.day, c.month, c.year) && FromEpoch(c)
    ensures var e := if c.month == 2 && c.day == 29 && c.year % 400 == 0 then Civil(c.year, 3, 1) else c;
      Made(c.year, c.month, c.day, now)
      == Ok(Full(e, 0, 0, 0, 0.0).(hh := now.hh, mm := now.mm, ss := now.ss))
  {
    MadeExactly(c, now);
  }

  /** The string-month constructor agrees with the numeric one for every month name. */
  lemma MadeByNameAgrees(c: Civil, now: Stamp)
    requires 1 <= c.month <= 12
    ensures MadeByName(c.year, MonthName(c.month), c.day, now) == Made(c.year, c.month, c.day, now)
  {
    GetMonOfName(c.month);
    CastTwo(c.month);
    assert Two(c.month)[0] != '-';
  }

  // ---------------------------------------------------------------- seconds and order

  function GetHours(y: int, m: int, d: int, hh: int): int {
    (GetDays(y, m, d) + Quot(hh, 24)) * 24 + Rem(hh, 24)
  }

  function GetMinutes(y: int, m: int, d: int, hh: int, mi: int): int {
    (GetHours(y, m, d, hh) + Quot(mi, 60)) * 60 + Rem(mi, 60)
  }

  function GetSeconds(y: int, m: int, d: int, hh: int, mi: int, ss: int): int {
    (GetMinutes(y, m, d, hh, mi) + Quot(ss, 60)) * 60 + Rem(ss, 60)
  }

  const INT_MAX := 0x7fff_ffff
  const LONG_MAX := 9223372036854775807
  const WORD := 0x1_0000_0000_0000_0000

  /** A count of seconds as `getSeconds` returns it, in an unsigned 64-bit number, reduced by `compare`. */
  function Wrapped(x: int): int { x % WORD % LONG_MAX }

  /** The number `compare` compares. */
  function CompareKey(s: Stamp): Result<int> {
    var y :- CastInt(s.year);
    var m :- MonthOf(s);
    var d :- CastInt(s.day);
    var hh :- CastInt(s.hh);
    var mi :- CastInt(s.mm);
    var ss :- CastInt(s.ss);
    Ok(Wrapped(GetSeconds(y, m, d, hh, mi, ss)))
  }

  datatype Moment = Moment(date: Civil, h: int, mi: int, s: int)

  predicate MomentBefore(a: Moment, b: Moment) {
    || DateBefore(a.date, b.date)
    || (a.date == b.date && (a.h < b.h || (a.h == b.h && (a.mi < b.mi || (a.mi == b.mi && a.s < b.s)))))
  }

  function SecondsOf(a: Moment): int {
    ((GetDays(a.date.year, a.date.month, a.date.day) * 24 + a.h) * 60 + a.mi) * 60 + a.s
  }

  /** Numbers the setters write as fields that read back: any day of any month of a year from 0 on, the
      zeroth included, and the times `setTime` takes. */
  predicate Stampable(a: Moment) {
    && 0 <= a.date.year <= INT_MAX && 1 <= a.date.month <= 12 && 0 <= a.date.day <= 31
    && SetTimeTakes(a.h, a.mi, a.s)
  }

  /** The key of a date written by the setters: its seconds since the epoch, wrapped, which leaves them
      as they are exactly from the epoch on. */
  lemma KeyIsSeconds(a: Moment, dayw: string, ns: int, tz: real)
    requires Stampable(a)
    ensures CompareKey(Full(a.date, a.h, a.mi, a.s, tz).(dayw := dayw, nanoseconds := ns)) == Ok(Wrapped(SecondsOf(a)))
    ensures Wrapped(SecondsOf(a)) == SecondsOf(a) <==> SecondsOf(a) >= 0
  {
    var c := a.date;
    CastTwo(c.year); CastTwo(c.month); CastTwo(c.day); CastTwo(a.h); CastTwo(a.mi); CastTwo(a.s);
    SecondsSplit(a);
    SecondsBound(a);
    WrappedIs(SecondsOf(a));
  }

  /** Counts so far from the limits of the type that no more than one wrap occurs. */
  predicate Countable(x: int) { -0x4000_0000_0000_0000 < x < 0x4000_0000_0000_0000 }

  lemma WrappedIs(x: int)
    requires Countable(x)
    ensures Wrapped(x) == if x >= 0 then x else if x >= -2 then x + 2 else LONG_MAX + 2 + x
  {}

  /** Whether the wrapped counts are ordered as the counts: across the epoch only within two seconds of it. */
  predicate OrderKept(x: int, y: int) {
    || (x >= 0 && y >= 0)
    || (x < -2 && y < -2)
    || (-2 <= x < 0 && -2 <= y < 0)
    || (-2 <= x < 0 && y > x + 2)
    || (-2 <= y < 0 && x >= y + 2)
  }

  lemma WrappedOrder(x: int, y: int)
    requires Countable(x) && Countable(y)
    ensures (Wrapped(x) < Wrapped(y)) == (x < y) <==> OrderKept(x, y)
    ensures (Wrapped(x) == Wrapped(y)) == (x == y) <==> !(-2 <= x < 0 && y == x + 2) && !(-2 <= y < 0 && x == y + 2)
  {
    WrappedIs(x);
    WrappedIs(y);
  }

  lemma SecondsSplit(a: Moment)
    ensures GetSeconds(a.date.year, a.date.month, a.date.day, a.h, a.mi, a.s) == SecondsOf(a)
  {
    QuotRem(a.h, 24); QuotRem(a.mi, 60); QuotRem(a.s, 60);
  }

  lemma SecondsBound(a: Moment)
    requires Stampable(a)
    ensures Countable(SecondsOf(a))
  {
    DaysBound(a.date);
  }

  lemma DaysBound(c: Civil)
    requires 0 <= c.year <= INT_MAX && 1 <= c.month <= 12 && 0 <= c.day <= 31
    ensures -1000000 <= GetDays(c.year, c.month, c.day) <= 400 * c.year + 1000
  {
    GetDaysByMarch(c);
  }

  /** On in-range times `<`, `==` and `>` are the lexicographic order of the six fields. */
  lemma OrderIsLexicographic(a: Moment, b: Moment)
    requires CodeDate(a.date) && CodeDate(b.date) && InDay(a.h, a.mi, a.s) && InDay(b.h, b.mi, b.s)
    ensures MomentBefore(a, b) <==> SecondsOf(a) < SecondsOf(b)
    ensures a == b <==> SecondsOf(a) == SecondsOf(b)
  {
    if DateBefore(a.date, b.date) {
      GetDaysMonotone(a.date, b.date);
    } else if a.date != b.date {
      GetDaysMonotone(b.date, a.date);
    }
  }

  /** compare: both keys, or the first cast that fails. */
  function Keys(a: Stamp, b: Stamp): Result<(int, int)> {
    var x :- CompareKey(a);
    var y :- CompareKey(b);
    Ok((x, y))
  }

  function Less(a: Stamp, b: Stamp): Result<bool> {
    var k :- Keys(a, b);
    Ok(k.0 < k.1)
  }

  function Same(a: Stamp, b: Stamp): Result<bool> {
    var k :- Keys(a, b);
    Ok(k.0 == k.1)
  }

  function StampOf(a: Moment, tz: real): Stamp { Full(a.date, a.h, a.mi, a.s, tz) }

  /** A moment with the hour 24 and the minute and second 60, which `setTime` lets through, carried
      over into the next higher field. */
  function Carried(a: Moment): Moment {
    var mi := a.mi + a.s / 60;
    var h := a.h + mi / 60;
    Moment(if h >= 24 then Next(a.date, EPOCH) else a.date, h % 24, mi % 60, a.s % 60)
  }

  lemma CarriedSeconds(a: Moment)
    requires CodeDate(a.date) && SetTimeTakes(a.h, a.mi, a.s)
    ensures var b := Carried(a);
      CodeDate(b.date) && b.date.year <= a.date.year + 1 && InDay(b.h, b.mi, b.s) && SecondsOf(b) == SecondsOf(a)
  {
    CarriedInRange(a);
    CarriedSum(a);
  }

  lemma CarriedInRange(a: Moment)
    requires CodeDate(a.date) && SetTimeTakes(a.h, a.mi, a.s)
    ensures var b := Carried(a); CodeDate(b.date) && b.date.year <= a.date.year + 1 && InDay(b.h, b.mi, b.s)
  {
    var mi := a.mi + a.s / 60;
    var h := a.h + mi / 60;
    CarriedTime(a.h, a.mi, a.s, mi, h);
    var n, m := CarriedDate(a.date, h);
  }

  lemma CarriedSum(a: Moment)
    requires CodeDate(a.date) && SetTimeTakes(a.h, a.mi, a.s)
    ensures SecondsOf(Carried(a)) == SecondsOf(a)
  {
    var mi := a.mi + a.s / 60;
    var h := a.h + mi / 60;
    CarriedTime(a.h, a.mi, a.s, mi, h);
    var n, m := CarriedDate(a.date, h);
    SameSeconds(a, Carried(a), h, n, m);
  }

  lemma SameSeconds(a: Moment, b: Moment, h: int, n: int, m: int)
    requires n == GetDays(a.date.year, a.date.month, a.date.day) && m == GetDays(b.date.year, b.date.month, b.date.day)
    requires m * 24 + b.h == n * 24 + h && a.h * 3600 + a.mi * 60 + a.s == h * 3600 + b.mi * 60 + b.s
    ensures SecondsOf(b) == SecondsOf(a)
  {
    SecondsFrom(a, n);
    SecondsFrom(b, m);
  }

  /** Carrying changes just the times that are out of range. */
  lemma CarriedFixes(a: Moment)
    requires CodeDate(a.date) && SetTimeTakes(a.h, a.mi, a.s)
    ensures Carried(a) == a <==> InDay(a.h, a.mi, a.s)
  {
    var mi := a.mi + a.s / 60;
    CarriedFields(a.h, a.mi, a.s, mi, a.h + mi / 60);
  }

  lemma CarriedTime(h: int, mi: int, s: int, mi': int, h': int)
    requires SetTimeTakes(h, mi, s) && mi' == mi + s / 60 && h' == h + mi' / 60
    ensures 0 <= h' < 48 && InDay(h' % 24, mi' % 60, s % 60)
    ensures h * 3600 + mi * 60 + s == h' * 3600 + (mi' % 60) * 60 + s % 60
  {}

  lemma CarriedFields(h: int, mi: int, s: int, mi': int, h': int)
    requires SetTimeTakes(h, mi, s) && mi' == mi + s / 60 && h' == h + mi' / 60
    ensures h' == h && mi' % 60 == mi && s % 60 == s <==> 0 <= mi <= 59 && 0 <= s <= 59
    ensures h' == h && h <= 23 ==> h' % 24 == h
    ensures 0 <= s % 60 < 60 && 0 <= mi' % 60 < 60 && 0 <= h' % 24 < 24
  {}

  lemma CarriedDate(c: Civil, h: int) returns (n: int, m: int)
    requires CodeDate(c) && 0 <= h < 48
    ensures var e := if h >= 24 then Next(c, EPOCH) else c;
      && CodeDate(e) && e.year <= c.year + 1 && (e == c <==> h < 24)
      && n == GetDays(c.year, c.month, c.day) && m == GetDays(e.year, e.month, e.day)
    ensures m * 24 + h % 24 == n * 24 + h
  {
    GetDaysNext(c);
    n := GetDays(c.year, c.month, c.day);
    m := n + h / 24;
  }

  lemma SecondsFrom(a: Moment, n: int)
    requires n == GetDays(a.date.year, a.date.month, a.date.day)
    ensures SecondsOf(a) == n * 86400 + a.h * 3600 + a.mi * 60 + a.s
  {}

  /** Everything the constructors and `setTime` write is ordered by the carried moments. */
  lemma OrderCarries(a: Moment, b: Moment)
    requires CodeDate(a.date) && CodeDate(b.date) && SetTimeTakes(a.h, a.mi, a.s) && SetTimeTakes(b.h, b.mi, b.s)
    ensures MomentBefore(Carried(a), Carried(b)) <==> SecondsOf(a) < SecondsOf(b)
    ensures Carried(a) == Carried(b) <==> SecondsOf(a) == SecondsOf(b)
  {
    CarriedSeconds(a);
    CarriedSeconds(b);
    OrderIsLexicographic(Carried(a), Carried(b));
  }

  /** The comparison operators on all that the setters write: no cast fails, and the answer is that of the
      seconds exactly when wrapping keeps their order. */
  lemma OperatorsExactly(a: Moment, b: Moment, tz: real, tz': real)
    requires Stampable(a) && Stampable(b)
    ensures var x, y := SecondsOf(a), SecondsOf(b);
      && Less(StampOf(a, tz), StampOf(b, tz')) == Ok(Wrapped(x) < Wrapped(y))
      && Same(StampOf(a, tz), StampOf(b, tz')) == Ok(Wrapped(x) == Wrapped(y))
      && (Less(StampOf(a, tz), StampOf(b, tz')) == Ok(x < y) <==> OrderKept(x, y))
      && (Same(StampOf(a, tz), StampOf(b, tz')) == Ok(x == y) <==>
            !(-2 <= x < 0 && y == x + 2) && !(-2 <= y < 0 && x == y + 2))
  {
    KeyIsSeconds(a, DayName(DayIndex(a.date.year, a.date.month, a.date.day)), 0, tz);
    KeyIsSeconds(b, DayName(DayIndex(b.date.year, b.date.month, b.date.day)), 0, tz');
    SecondsBound(a);
    SecondsBound(b);
    WrappedOrder(SecondsOf(a), SecondsOf(b));
  }

  /** More than two seconds before the epoch is after everything from the epoch on. */
  lemma BeforeIsAfter(a: Moment, b: Moment, tz: real, tz': real)
    requires Stampable(a) && Stampable(b) && SecondsOf(a) < -2 && SecondsOf(b) >= 0
    ensures Less(StampOf(a, tz), StampOf(b, tz')) == Ok(false) && Less(StampOf(b, tz'), StampOf(a, tz)) == Ok(true)
  {
    OperatorsExactly(a, b, tz, tz');
    OperatorsExactly(b, a, tz', tz);
  }

  /** So 28 February 1900 is not before 1 March 1900. */
  lemma FebruaryNotBefore(a: Moment, b: Moment, tz: real)
    requires a == Moment(Civil(1900, 2, 28), 0, 0, 0) && b == Moment(Civil(1900, 3, 1), 0, 0, 0)
    ensures Less(StampOf(a, tz), StampOf(b, tz)) == Ok(false)
  {
    BeforeIsAfterAt(a, b, tz) by { AroundEpoch(a, b); }
  }

  lemma BeforeIsAfterAt(a: Moment, b: Moment, tz: real)
    requires Stampable(a) && Stampable(b) && SecondsOf(a) == -86400 && SecondsOf(b) == 0
    ensures Less(StampOf(a, tz), StampOf(b, tz)) == Ok(false)
  {
    BeforeIsAfter(a, b, tz, tz);
  }

  lemma AroundEpoch(a: Moment, b: Moment)
    requires a == Moment(Civil(1900, 2, 28), 0, 0, 0) && b == Moment(Civil(1900, 3, 1), 0, 0, 0)
    ensures Stampable(a) && Stampable(b) && SecondsOf(a) == -86400 && SecondsOf(b) == 0
  {
    assert GetDays(1900, 2, 28) == -1 && GetDays(1900, 3, 1) == 0;
  }

  /** The moments from 1 March 1900 on that the setters write. */
  predicate Recent(a: Moment) {
    CodeDate(a.date) && a.date.year <= INT_MAX && SetTimeTakes(a.h, a.mi, a.s)
  }

  lemma FromEpochOn(a: Moment)
    requires Recent(a)
    ensures Stampable(a) && SecondsOf(a) >= 0
  {
    var n := DaysFromEpoch(a.date);
    SecondsFrom(a, n);
  }

  lemma DaysFromEpoch(c: Civil) returns (n: nat)
    requires CodeDate(c)
    ensures n == GetDays(c.year, c.month, c.day)
  {
    var y, mi := ToMarchForm(c);
    MarchFormGetDays(c, y, mi);
    MarchFormRange(c, y, mi);
    assert LeapTerm(y) >= 0;
    n := GetDays(c.year, c.month, c.day);
  }

  /** The comparison operators on all dates and times the setters take: no cast fails, and the answer is
      that of the carried moments, whatever the time zones. */
  lemma OperatorsCarry(a: Moment, b: Moment, tz: real, tz': real)
    requires Recent(a) && Recent(b)
    ensures Less(StampOf(a, tz), StampOf(b, tz')) == Ok(MomentBefore(Carried(a), Carried(b)))
    ensures Same(StampOf(a, tz), StampOf(b, tz')) == Ok(Carried(a) == Carried(b))
  {
    OperatorsExactly(a, b, tz, tz');
    FromEpochOn(a);
    FromEpochOn(b);
    OrderCarries(a, b);
  }

  /** `==` is equality of the six fields just when carrying tells the two moments apart or they are
      the same. */
  lemma SameIsEqualExactly(a: Moment, b: Moment, tz: real, tz': real)
    requires Recent(a) && Recent(b)
    ensures Same(StampOf(a, tz), StampOf(b, tz')) == Ok(a == b) <==> (Carried(a) == Carried(b) ==> a == b)
    ensures InDay(a.h, a.mi, a.s) && InDay(b.h, b.mi, b.s) ==> Same(StampOf(a, tz), StampOf(b, tz')) == Ok(a == b)
  {
    OperatorsCarry(a, b, tz, tz');
    CarriedFixes(a);
    CarriedFixes(b);
  }

  /** On in-range times the operators are exactly the lexicographic order of the six fields. */
  lemma OperatorsAreLexicographic(a: Moment, b: Moment, tz: real, tz': real)
    requires CodeDate(a.date) && CodeDate(b.date) && InDay(a.h, a.mi, a.s) && InDay(b.h, b.mi, b.s)
    requires a.date.year <= INT_MAX && b.date.year <= INT_MAX
    ensures Less(StampOf(a, tz), StampOf(b, tz')) == Ok(MomentBefore(a, b))
    ensures Same(StampOf(a, tz), StampOf(b, tz')) == Ok(a == b)
    ensures Less(StampOf(b, tz'), StampOf(a, tz)) == Ok(!MomentBefore(a, b) && a != b)
  {
    OperatorsCarry(a, b, tz, tz');
    OperatorsCarry(b, a, tz', tz);
    CarriedFixes(a);
    CarriedFixes(b);
    OrderIsLexicographic(a, b);
    OrderIsLexicographic(b, a);
  }

  /** With the hour 24 two different readings compare equal. */
  lemma HourTwentyFourCollides(c: Civil)
    requires CodeDate(c)
    ensures Carried(Moment(c, 24, 0, 0)) == Carried(Moment(Next(c, EPOCH), 0, 0, 0)) == Moment(Next(c, EPOCH), 0, 0, 0)
    ensures SetTimeTakes(24, 0, 0) && SecondsOf(Moment(c, 24, 0, 0)) == SecondsOf(Moment(Next(c, EPOCH), 0, 0, 0))
  {
    GetDaysNext(c);
  }

  // ---------------------------------------------------------------- the carry chain

  /** The time of day, and the days handed to `updateDays` so far. */
  datatype Clock = Clock(days: int, h: int, mi: int, s: int) {
    predicate InRange() { InDay(h, mi, s) }
    function Total(): int { ((days * 24 + h) * 60 + mi) * 60 + s }
  }

  function AddHours(c: Clock, n: int): Clock {
    var hours := n + Quot(c.mi, 60);
    var days := Quot(c.h + hours, 24);
    Clock(c.days + (if days > 0 then days else 0), Rem(c.h + hours, 24), Rem(c.mi, 60), c.s)
  }

  function AddMinutes(c: Clock, n: int): Clock {
    var minutes := n + Quot(c.s, 60);
    var hours := Quot(c.mi + minutes, 60);
    var d := if hours > 0 then AddHours(c, hours) else c;
    d.(mi := Rem(c.mi + minutes, 60), s := Rem(c.s, 60))
  }

  function AddSeconds(c: Clock, n: int): Clock {
    var minutes := Quot(c.s + n, 60);
    var d := if minutes > 0 then AddMinutes(c, minutes) else c;
    d.(s := Rem(c.s + n, 60))
  }

  lemma MinutesAdded(c: Clock, n: int, hours: int, d: Clock, e: Clock)
    requires hours == Quot(c.mi + n + Quot(c.s, 60), 60) && d == if hours > 0 then AddHours(c, hours) else c
    requires e == d.(mi := Rem(c.mi + n + Quot(c.s, 60), 60), s := Rem(c.s, 60))
    ensures e == AddMinutes(c, n)
  {}

  lemma SecondsAdded(c: Clock, n: int, minutes: int, d: Clock, e: Clock)
    requires minutes == Quot(c.s + n, 60) && d == if minutes > 0 then AddMinutes(c, minutes) else c
    requires e == d.(s := Rem(c.s + n, 60))
    ensures e == AddSeconds(c, n)
  {}

  /** One carry: nothing is lost, and the digit is in range exactly when the sum is not negative. */
  lemma Carry(t: int, base: int)
    requires base == 60 || base == 24
    ensures t == base * Quot(t, base) + Rem(t, base)
    ensures t >= 0 ==> Quot(t, base) >= 0 && 0 <= Rem(t, base) < base
    ensures t < 0 ==> Quot(t, base) <= 0 && (Rem(t, base) < 0 || Quot(t, base) < 0)
    ensures 0 <= t < base ==> Quot(t, base) == 0 && Rem(t, base) == t
  {}

  /** A field with `t` in it, carried: `q` over, `r` left, with the facts of `Carry`. */
  predicate Carries(t: int, base: int, q: int, r: int) {
    && t == base * q + r
    && (t >= 0 ==> q >= 0 && 0 <= r < base)
    && (t < 0 ==> q <= 0 && (r < 0 || q < 0))
  }

  /** From in-range fields, no time is lost or gained in the carries and the fields stay in range
      exactly when the amount does not take the updated field below zero. */
  lemma AddHoursConserves(c: Clock, n: int)
    requires c.InRange()
    ensures c.h + n >= 0 <==> AddHours(c, n).InRange() && AddHours(c, n).Total() == c.Total() + 3600 * n
    ensures AddHours(c, n).mi == c.mi && AddHours(c, n).s == c.s
  {
    var q, r := Quot(c.h + n, 24), Rem(c.h + n, 24);
    AddHoursIs(c, n, q, r);
    HoursTotal(c, n, q, r);
  }

  lemma AddHoursIs(c: Clock, n: int, q: int, r: int)
    requires c.InRange() && q == Quot(c.h + n, 24) && r == Rem(c.h + n, 24)
    ensures AddHours(c, n) == Clock(c.days + (if q > 0 then q else 0), r, c.mi, c.s) && Carries(c.h + n, 24, q, r)
  {
    Carry(c.mi, 60);
    Carry(c.h + n, 24);
  }

  lemma HoursTotal(c: Clock, n: int, q: int, r: int)
    requires c.InRange() && Carries(c.h + n, 24, q, r)
    ensures var e := Clock(c.days + (if q > 0 then q else 0), r, c.mi, c.s);
      c.h + n >= 0 <==> e.InRange() && e.Total() == c.Total() + 3600 * n
  {}

  lemma AddMinutesConserves(c: Clock, n: int)
    requires c.InRange()
    ensures c.mi + n >= 0 <==> AddMinutes(c, n).InRange() && AddMinutes(c, n).Total() == c.Total() + 60 * n
    ensures AddMinutes(c, n).s == c.s
  {
    var q, r := Quot(c.mi + n, 60), Rem(c.mi + n, 60);
    var d := if q > 0 then AddHours(c, q) else c;
    AddMinutesIs(c, n, q, r, d);
    if q > 0 { AddHoursConserves(c, q); }
    MinutesTotal(c, n, q, r, d);
  }

  lemma AddMinutesIs(c: Clock, n: int, q: int, r: int, d: Clock)
    requires c.InRange() && q == Quot(c.mi + n, 60) && r == Rem(c.mi + n, 60)
    requires d == if q > 0 then AddHours(c, q) else c
    ensures AddMinutes(c, n) == d.(mi := r, s := c.s) && Carries(c.mi + n, 60, q, r)
  {
    Carry(c.s, 60);
    Carry(c.mi + n, 60);
  }

  lemma MinutesTotal(c: Clock, n: int, q: int, r: int, d: Clock)
    requires c.InRange() && Carries(c.mi + n, 60, q, r)
    requires if q > 0 then d.InRange() && d.Total() == c.Total() + 3600 * q && d.mi == c.mi && d.s == c.s else d == c
    ensures var e := d.(mi := r, s := c.s);
      c.mi + n >= 0 <==> e.InRange() && e.Total() == c.Total() + 60 * n
  {}

  lemma AddSecondsConserves(c: Clock, n: int)
    requires c.InRange()
    ensures c.s + n >= 0 <==> AddSeconds(c, n).InRange() && AddSeconds(c, n).Total() == c.Total() + n
  {
    var q, r := Quot(c.s + n, 60), Rem(c.s + n, 60);
    var d := if q > 0 then AddMinutes(c, q) else c;
    AddSecondsIs(c, n, q, r, d);
    if q > 0 { AddMinutesConserves(c, q); }
    SecondsTotal(c, n, q, r, d);
  }

  lemma AddSecondsIs(c: Clock, n: int, q: int, r: int, d: Clock)
    requires q == Quot(c.s + n, 60) && r == Rem(c.s + n, 60)
    requires d == if q > 0 then AddMinutes(c, q) else c
    ensures AddSeconds(c, n) == d.(s := r) && Carries(c.s + n, 60, q, r)
  {
    Carry(c.s + n, 60);
  }

  lemma SecondsTotal(c: Clock, n: int, q: int, r: int, d: Clock)
    requires c.InRange() && Carries(c.s + n, 60, q, r)
    requires if q > 0 then d.InRange() && d.Total() == c.Total() + 60 * q && d.s == c.s else d == c
    ensures var e := d.(s := r);
      c.s + n >= 0 <==> e.InRange() && e.Total() == c.Total() + n
  {}

  /** `setTime` also lets hour 24, minute 60 and second 60 through. From such a time hours are still
      conserved, and the hour and the minute come into range, exactly when the sum is not negative. */
  lemma AddHoursFromSetTime(c: Clock, n: int)
    requires SetTimeTakes(c.h, c.mi, c.s)
    ensures var e, t := AddHours(c, n), c.h + n + c.mi / 60;
      && e.s == c.s && e.mi == c.mi % 60
      && (t >= 0 <==> 0 <= e.h < 24 && e.Total() == c.Total() + 3600 * n)
  {
    Carry(c.mi, 60);
    Carry(c.h + n + c.mi / 60, 24);
  }

  /** Minutes are not: minute 60 is carried once by the minutes and once more by the hours they become. */
  lemma AddMinutesFromSetTime(c: Clock, n: int)
    requires SetTimeTakes(c.h, c.mi, c.s)
    ensures var e, t := AddMinutes(c, n), c.mi + n + c.s / 60;
      && 0 <= e.s < 60
      && (t >= 0 ==> e.Total() == c.Total() + 60 * n + if t >= 60 && c.mi == 60 then 3600 else 0)
      && (t >= 0 && (t < 60 || c.mi < 60) <==> 0 <= e.mi < 60 && e.Total() == c.Total() + 60 * n)
  {
    var t := c.mi + n + c.s / 60;
    var q, r := Quot(t, 60), Rem(t, 60);
    Carry(c.s, 60);
    Carry(t, 60);
    var d := if q > 0 then AddHours(c, q) else c;
    if q > 0 { AddHoursFromSetTime(c, q); }
    MinutesCarried(c, n, t, q, r, d, d.(mi := r, s := c.s % 60));
  }

  lemma MinutesCarried(c: Clock, n: int, t: int, q: int, r: int, d: Clock, e: Clock)
    requires SetTimeTakes(c.h, c.mi, c.s) && t == c.mi + n + c.s / 60 && Carries(t, 60, q, r)
    requires if q > 0 then 0 <= d.mi < 60 && d.s == c.s && d.Total() == c.Total() + 3600 * q else d == c
    requires d.mi == if q > 0 then c.mi % 60 else c.mi
    requires e == d.(mi := r, s := c.s % 60)
    ensures t >= 0 ==> e.Total() == c.Total() + 60 * n + if t >= 60 && c.mi == 60 then 3600 else 0
    ensures t >= 0 && (t < 60 || c.mi < 60) <==> 0 <= e.mi < 60 && e.Total() == c.Total() + 60 * n
  {}

  /** Nor are seconds: second 60 and minute 60 are each counted twice when a carry passes them. */
  lemma AddSecondsFromSetTime(c: Clock, n: int)
    requires SetTimeTakes(c.h, c.mi, c.s)
    ensures var e, t := AddSeconds(c, n), c.s + n;
      && (t >= 60 ==> e.Total() == c.Total() + n + (if c.s == 60 then 60 else 0) + if c.mi == 60 then 3600 else 0)
      && (t >= 0 && (t < 60 || (c.s < 60 && c.mi < 60)) <==> 0 <= e.s < 60 && e.Total() == c.Total() + n)
  {
    var t := c.s + n;
    Carry(c.s, 60);
    Carry(t, 60);
    if t >= 60 { AddMinutesFromSetTime(c, Quot(t, 60)); }
  }

  lemma SameDigit(x: int, d: int, y: int, e: int, base: int)
    requires (base == 60 || base == 24) && 0 <= d < base && 0 <= e < base && x * base + d == y * base + e
    ensures x == y && d == e
  {}

  /** In-range clocks with the same total are the same. */
  lemma TotalIsInjective(a: Clock, b: Clock)
    requires a.InRange() && b.InRange() && a.Total() == b.Total()
    ensures a == b
  {
    SameDigit((a.days * 24 + a.h) * 60 + a.mi, a.s, (b.days * 24 + b.h) * 60 + b.mi, b.s, 60);
    SameDigit(a.days * 24 + a.h, a.mi, b.days * 24 + b.h, b.mi, 60);
    SameDigit(a.days, a.h, b.days, b.h, 24);
  }

  // ---------------------------------------------------------------- the day step

  /** The day number `updateDays` works out from the fields, or the first cast that fails. */
  function DayShift(s: Stamp, days: int): Result<int> {
    var m :- MonthOf(s);
    var y :- CastInt(s.year);
    var d :- CastInt(s.day);
    Ok(ShiftNumber(Civil(y, m, d), days))
  }

  lemma ShiftOf(s: Stamp, days: int, y: int, m: int, d: int)
    requires MonthOf(s) == Ok(m) && CastInt(s.year) == Ok(y) && CastInt(s.day) == Ok(d)
    ensures DayShift(s, days) == Ok(GetDays(y + Quot(m, 12), Rem(m, 12), d + days))
  {}

  /** The numbers `updateDays` leaves in the date fields: the day and the year of that date and, for its
      month, the minute `mi` that the clock shows meanwhile. */
  function DayStep(c: Civil, days: int, mi: int): Civil {
    var e := ShiftedBy(c, days);
    Civil(e.year, mi, e.day)
  }

  function ShiftNumber(c: Civil, days: int): int {
    GetDays(c.year + Quot(c.month, 12), Rem(c.month, 12), c.day + days)
  }

  function ShiftedBy(c: Civil, days: int): Civil { FromDays(ShiftNumber(c, days)) }

  /** The minute a clock reading shows, -1 if none. */
  function Minute(now: Stamp): int {
    var r := CastInt(now.mm);
    if r.Ok? then r.value else -1
  }

  function Stepped(c: Civil, days: int, mi: int): Civil {
    if days > 0 then DayStep(c, days, mi) else c
  }

  lemma SteppedNone(c: Civil, mi: int)
    ensures Stepped(c, 0, mi) == c
  {}

  /** Numbers from which no day step leads back before 1901, whatever stands in the month. */
  predicate InEra(c: Civil) { c.year >= 1901 && c.month >= 0 && c.day >= 1 }

  lemma EraStays(c: Civil, days: nat, mi: nat)
    requires InEra(c)
    ensures var e := ShiftedBy(c, days); CodeDate(e) && e.year >= 1901 && DayStep(c, days, mi) == Civil(e.year, mi, e.day)
  {
    var y, m := c.year + Quot(c.month, 12), Rem(c.month, 12);
    MonthParts(c.month);
    DaysInEra(y, m, c.day + days);
    EraDate(GetDays(y, m, c.day + days));
    ShiftedIs(c, days, y, m);
  }

  lemma ShiftedIs(c: Civil, days: int, y: int, m: int)
    requires y == c.year + Quot(c.month, 12) && m == Rem(c.month, 12)
    ensures ShiftNumber(c, days) == GetDays(y, m, c.day + days)
  {}

  lemma MonthParts(m: nat)
    ensures Quot(m, 12) >= 0 && 0 <= Rem(m, 12) < 12
  {}

  lemma EraDate(g: nat)
    requires g >= 306
    ensures CodeDate(FromDays(g)) && FromDays(g).year >= 1901
  {
    GetFromDays(g);
    FirstOfEra();
    if FromDays(g).year < 1901 { GetDaysMonotone(FromDays(g), Civil(1901, 1, 1)); }
  }

  lemma FirstOfEra()
    ensures CodeDate(Civil(1901, 1, 1)) && GetDays(1901, 1, 1) == 306
  {}

  lemma DaysInEra(y: int, m: int, d: int)
    requires y >= 1901 && 0 <= m < 12 && d >= 1
    ensures GetDays(y, m, d) >= 306
  {
    assert m == 0 || m == 1 || m == 2 || m >= 3;
  }

  /** The three texts read as these numbers. */
  predicate DatedBy(day: string, month: string, year: string, c: Civil) {
    && day != "" && CastInt(day) == Ok(c.day)
    && month != "" && CastInt(month) == Ok(c.month)
    && year != "" && CastInt(year) == Ok(c.year)
  }

  predicate DatedAs(s: Stamp, c: Civil) { DatedBy(s.day, s.month, s.year, c) }

  /** What `updateDays` makes of the fields when it has found the date `e` in minute `mi`: the month is
      that minute, and a day or year below zero does not read back from its text. */
  function Restamped(s: Stamp, e: Civil, mi: int): (Result<()>, Stamp) {
    var t := s.(day := Two(e.day), month := Two(mi), monthw := MonthName(mi));
    if e.day < 0 then (Throw(BAD_INT), s)
    else if e.year < 0 then (Throw(BAD_INT), t)
    else (Ok(()), t.(year := Two(e.year), dayw := GetDayName(e.day, e.month, e.year)))
  }

  /** The step goes through exactly when day and year of the date found read back from the texts written
      for them, and the fields then read as these and the minute; an unreadable day leaves everything as it
      was, an unreadable year leaves the old one behind the new day and month. */
  lemma RestampedExactly(s: Stamp, e: Civil, mi: nat)
    ensures var (r, t) := Restamped(s, e, mi); var day, year := CastInt(Two(e.day)), CastInt(Two(e.year));
      && (r.Ok? <==> day.Ok? && year.Ok?)
      && (r.Ok? ==> DatedAs(t, Civil(e.year, mi, e.day)))
      && (day.Throw? ==> r == Throw("Conversion exception - string to int") && t == s)
      && (day.Ok? && year.Throw? ==> r == Throw("Conversion exception - string to int")
                                     && DatedBy(t.day, t.month, Two(0), Civil(0, mi, e.day)) && t.year == s.year)
      && t.hh == s.hh && t.mm == s.mm && t.ss == s.ss
  {
    SetterReadsBack(e.day);
    SetterReadsBack(e.year);
    SetterReadsBack(mi);
    SetterReadsBack(0);
  }

  lemma MinuteShown(now: Stamp, n: nat)
    ensures now.mm == Two(n) ==> Minute(now) == n
    ensures CastInt(now.mm).Throw? ==> Minute(now) < 0
  {
    CastTwo(n);
  }

  /** In the present era the step succeeds, and the fields read as the numbers of `DayStep`. */
  lemma StepInEra(s: Stamp, c: Civil, days: nat, mi: nat)
    requires DatedAs(s, c) && InEra(c)
    ensures DayShift(s, days) == Ok(ShiftNumber(c, days))
    ensures var (r, t) := Restamped(s, ShiftedBy(c, days), mi);
      r == Ok(()) && DatedAs(t, DayStep(c, days, mi)) && InEra(DayStep(c, days, mi))
  {
    var e := ShiftedBy(c, days);
    EraStays(c, days, mi);
    SetterReadsBack(e.day);
    SetterReadsBack(e.year);
    SetterReadsBack(mi);
  }

  /** The years in which the code's calendar has another February. */
  predicate LeapAgrees(c: Civil) {
    c.month == 2 && c.day >= 28 ==> IsLeap(c.year) == IsLeap(c.year - EPOCH)
  }

  /** `updateDays(1)` leads to the next day exactly when the month is not December, the minute shown
      meanwhile is the number of the next day's month, and it is not the end of a February that the code's
      calendar has another length for. */
  lemma DayStepExactly(c: Civil, mi: int)
    requires Valid(c, GREGORIAN) && FromEpoch(c)
    ensures var e := Next(c, GREGORIAN);
      DayStep(c, 1, mi) == e <==> c.month != 12 && mi == e.month && LeapAgrees(c)
  {
    if c.month == 12 {
      DecemberStep(c, mi);
    } else {
      StepBeforeDecember(c, mi);
      LeapShift(c.year);
    }
  }

  /** A day step in December lands a year late. */
  lemma DecemberStep(c: Civil, mi: int)
    requires Valid(c, GREGORIAN) && FromEpoch(c) && c.month == 12
    ensures DayStep(c, 1, mi).year == c.year + (if c.day < 31 then 1 else 2)
  {
    var d := Civil(c.year + 1, 12, c.day);
    DecemberNext(d);
    DecemberShift(c);
    AfterDate(d);
    StepIs(c, mi, Next(d, EPOCH));
  }

  lemma DecemberNext(d: Civil)
    requires d.month == 12 && 1 <= d.day <= 31 && d.year > EPOCH
    ensures CodeDate(d) && Next(d, EPOCH).year == d.year + (if d.day < 31 then 0 else 1)
  {}

  lemma AfterDate(d: Civil)
    requires CodeDate(d)
    ensures FromDays(GetDays(d.year, d.month, d.day + 1)) == Next(d, EPOCH)
  {
    DayLater(d.year, d.month, d.day);
    NextNumber(d, GetDays(d.year, d.month, d.day + 1));
  }

  lemma StepIs(c: Civil, mi: int, e: Civil)
    requires ShiftedBy(c, 1) == e
    ensures DayStep(c, 1, mi) == Civil(e.year, mi, e.day)
  {}

  lemma DecemberShift(c: Civil)
    requires c.month == 12
    ensures ShiftedBy(c, 1) == FromDays(GetDays(c.year + 1, 12, c.day + 1))
  {
    DecemberNumber(c.year + 1, c.day + 1);
    ShiftedIs(c, 1, c.year + 1, 0);
  }

  lemma DecemberNumber(y: int, d: int)
    ensures GetDays(y, 0, d) == GetDays(y, 12, d) && Quot(12, 12) == 1 && Rem(12, 12) == 0
  {}

  lemma DayLater(y: int, m: int, d: int)
    ensures GetDays(y, m, d + 1) == GetDays(y, m, d) + 1
  {}

  lemma NextNumber(b: Civil, n: int)
    requires CodeDate(b) && n == GetDays(b.year, b.month, b.day) + 1
    ensures FromDays(n) == Next(b, EPOCH)
  {
    GetDaysNext(b);
    FromGetDays(Next(b, EPOCH));
  }

  lemma StepBeforeDecember(c: Civil, mi: int)
    requires Valid(c, GREGORIAN) && FromEpoch(c) && c.month != 12
    ensures var e := if CodeDate(c) then Next(c, EPOCH) else Civil(c.year, 3, 2);
      DayStep(c, 1, mi) == Civil(e.year, mi, e.day)
  {
    if CodeDate(c) {
      StepOnCodeDate(c, mi);
    } else {
      StepOnLeapDay(c, mi);
    }
  }

  lemma StepOnCodeDate(c: Civil, mi: int)
    requires CodeDate(c) && c.month != 12
    ensures DayStep(c, 1, mi) == Civil(Next(c, EPOCH).year, mi, Next(c, EPOCH).day)
  {
    SameYear(c);
    AfterDate(c);
    StepIs(c, mi, Next(c, EPOCH));
  }

  lemma StepOnLeapDay(c: Civil, mi: int)
    requires Valid(c, GREGORIAN) && FromEpoch(c) && !CodeDate(c)
    ensures DayStep(c, 1, mi) == Civil(c.year, mi, 2)
  {
    LeapDayOnly(c);
    LeapDayStep(c.year, mi);
  }

  lemma LeapDayStep(y: int, mi: int)
    requires y > EPOCH && !IsLeap(y - EPOCH)
    ensures DayStep(Civil(y, 2, 29), 1, mi) == Civil(y, mi, 2)
  {
    SameYear(Civil(y, 2, 29));
    AfterLeapDay(y);
    StepIs(Civil(y, 2, 29), mi, Civil(y, 3, 2));
  }

  lemma SameYear(c: Civil)
    requires 1 <= c.month < 12
    ensures ShiftedBy(c, 1) == FromDays(GetDays(c.year, c.month, c.day + 1))
  {
    assert Quot(c.month, 12) == 0 && Rem(c.month, 12) == c.month;
    ShiftedIs(c, 1, c.year, c.month);
  }

  lemma LeapDayOnly(c: Civil)
    requires Valid(c, GREGORIAN) && FromEpoch(c) && !CodeDate(c)
    ensures c.month == 2 && c.day == 29 && c.year > EPOCH && !IsLeap(c.year - EPOCH)
  {
    LeapShift(c.year);
  }

  lemma AfterLeapDay(y: int)
    requires y > EPOCH && !IsLeap(y - EPOCH)
    ensures FromDays(GetDays(y, 2, 30)) == Civil(y, 3, 2)
  {
    LeapDayNumber(y);
    DayLater(y, 2, 29);
    NextNumber(Civil(y, 3, 1), GetDays(y, 2, 30));
  }

  lemma LeapDayNumber(y: int)
    requires y > EPOCH && !IsLeap(y - EPOCH)
    ensures GetDays(y, 2, 29) == GetDays(y, 3, 1)
  {
    MarchMonth(2);
    MarchMonth(3);
    LeapTermStep(y - 1901);
  }

  /** On 3 April 2024 a day step leads to the 4th of the month whose number is the minute. */
  lemma AprilStep(mi: int)
    ensures Valid(Civil(2024, 4, 3), GREGORIAN) && DayStep(Civil(2024, 4, 3), 1, mi) == Civil(2024, mi, 4)
  {
    var c := Civil(2024, 4, 3);
    assert CodeDate(c) && Next(c, EPOCH) == Civil(2024, 4, 4);
    StepBeforeDecember(c, mi);
  }

  // ---------------------------------------------------------------- the class

  class Date {
    var day: string
    var month: string
    var monthw: string
    var year: string
    var dayw: string
    var hh: string
    var mm: string
    var ss: string
    var nanoseconds: int
    var timeZoneOffset: real
    ghost var clock: Clock  // the time the fields show, and the sum of the amounts handed to UpdateDays
    ghost var date: Civil   // the numbers the date fields show

    /** `Date d;` reads the system clock; the reading is a parameter here. */
    constructor (now: Stamp)
      ensures View() == now
    {
      day, month, monthw, year, dayw := now.day, now.month, now.monthw, now.year, now.dayw;
      hh, mm, ss, nanoseconds, timeZoneOffset := now.hh, now.mm, now.ss, now.nanoseconds, now.timeZoneOffset;
    }

    function View(): Stamp
      reads this
    {
      Stamp(day, month, monthw, year, dayw, hh, mm, ss, nanoseconds, timeZoneOffset)
    }

    method SetDay(d: int)
      modifies this`day
      ensures day == Two(d)
    {
      var t := if d <= 9 then "0" else "";
      day := t + IntToStr(d);
    }

    method SetMonth(m: int)
      modifies this`month, this`monthw
      ensures month == Two(m) && monthw == MonthName(m)
    {
      var t := if m <= 9 then "0" else "";
      month := t + IntToStr(m);
      monthw := GetMonFd(month, 1);
      GetMonFdTwo(m, 1);
    }

    method SetYear(y: int)
      modifies this`year
      ensures year == Two(y)
    {
      var t := if y <= 9 then "0" else "";
      year := t + IntToStr(y);
    }

    /** The arithmetic of getDateFromDays: the year estimate, its one correction, the month estimate. */
    static method EstimateDate(days: int) returns (c: Civil)
      ensures c == FromDays(days)
    {
      var y := YearEstimate(days);
      var ddd := days - LeapTerm(y);
      if ddd < 0 {
        y := y - 1;
        ddd := days - LeapTerm(y);
      }
      var mi := Quot(100 * ddd + 52, 3060);
      var mon := Rem(mi + 2, 12) + 1;
      y := y + Quot(mi + 2, 12) + 1900;
      var dd := ddd - MonthOffset(mi) + 1;
      c := Civil(y, mon, dd);
    }

    /** getDateFromDays */
    static method FromDayNumber(days: int, now: Stamp) returns (d: Date)
      ensures fresh(d) && d.View() == Written(FromDays(days), now)
    {
      var c := EstimateDate(days);
      d := new Date(now);
      d.Write(c);
    }

    method Write(c: Civil)
      modifies this`day, this`month, this`monthw, this`year, this`dayw
      ensures View() == Written(c, old(View()))
    {
      ghost var now := View();
      SetDay(c.day);
      SetMonth(c.month);
      SetYear(c.year);
      dayw := GetDayName(c.day, c.month, c.year);
      WrittenIs(c, now, View());
    }

    /** The day-of-year sum of setDayName, reduced to a weekday. */
    static method WeekdayIndex(yyyy: int, mon: int, day: int) returns (dd: int)
      ensures dd == DayIndex(yyyy, mon, day)
      ensures yyyy >= 1 && Valid(Civil(yyyy, mon, day), GREGORIAN) ==> dd == Ordinal(Civil(yyyy, mon, day)) % 7
    {
      if yyyy >= 1 && Valid(Civil(yyyy, mon, day), GREGORIAN) { WeekdayIsOrdinal(Civil(yyyy, mon, day)); }
      dd := day;
      dd := dd + YearCode(yyyy);
      dd := dd + MonthDays(mon);
      if IsLeap(yyyy) && mon > 2 {
        dd := dd + 1;
      }
      dd := Rem(dd, 7);
    }

    /** setDayName: the weekday computed from the fields as they now read. */
    method SetDayName() returns (r: Result<()>)
      modifies this`dayw
      ensures match Named(old(View()))
        case Ok(v) => r.Ok? && View() == v
        case Throw(e) => r == Throw(e) && View() == old(View())
    {
      var yyyy :- CastInt(year);
      var mon :- MonthOf(View());
      var dd :- CastInt(day);
      var i := WeekdayIndex(yyyy, mon, dd);
      dayw := DayName(i);
      return Ok(());
    }

    static predicate ValidateDate(dd: int, mon: int, yyyy: int)
      ensures ValidateDate(dd, mon, yyyy) <==> Accepted(dd, mon, yyyy)
    {
      && !(dd < 1 || dd > 31 || yyyy < 0)
      && !(mon < 1 || mon > 12)
      && (if mon == 2 then
            (if yyyy % 4 == 0 && (yyyy % 100 != 0 || yyyy % 400 == 0) then !(dd < 1 || dd > 29) else !(dd < 1 || dd > 28))
          else if mon in {1, 3, 5, 7, 8, 10, 12} then !(dd < 1 || dd > 31)
          else if mon in {4, 6, 9, 11} then !(dd < 1 || dd > 30)
          else true)
    }

    /** Date(int yyyy, int mm, int dd) */
    static method Make(yyyy: int, mon: int, dd: int, now: Stamp) returns (r: Result<Date>)
      ensures match Made(yyyy, mon, dd, now)
        case Ok(v) => r.Ok? && fresh(r.value) && r.value.View() == v
        case Throw(e) => r == Throw(e)
    {
      if !ValidateDate(dd, mon, yyyy) { return Throw("Invalid date"); }
      var g := GetDays(yyyy, mon, dd);
      var d := FromDayNumber(g, now);
      d.nanoseconds := 0;
      d.timeZoneOffset := 0.0;
      var _ :- d.SetDayName();
      return Ok(d);
    }

    /** Date(int yyyy, string mmm, int dd) */
    static method MakeByName(yyyy: int, mmm: string, dd: int, now: Stamp) returns (r: Result<Date>)
      ensures match MadeByName(yyyy, mmm, dd, now)
        case Ok(v) => r.Ok? && fresh(r.value) && r.value.View() == v
        case Throw(e) => r == Throw(e)
    {
      var mon := GetMon(mmm);
      if mon == "-1" { return Throw("Invalid month"); }
      var m :- CastInt(mon);
      r := Make(yyyy, m, dd, now);
    }

    method SetTime(h: int, mi: int, s: int) returns (r: Result<()>)
      modifies this`hh, this`mm, this`ss, this`nanoseconds, this`clock
      ensures match Timed(old(View()), h, mi, s)
        case Ok(v) => r.Ok? && View() == v && Ticking() && clock == Clock(old(clock).days, h, mi, s)
        case Throw(e) => r == Throw(e) && View() == old(View())
    {
      if h > 24 || h < 0 || mi < 0 || mi > 60 || s < 0 || s > 60 { return Throw("Invalid Time"); }
      SetHh(h);
      SetMm(mi);
      SetSs(s);
      nanoseconds := 0;
      return Ok(());
    }

    /** compare */
    method Compare(d: Date) returns (r: Result<(int, int)>)
      ensures r == Keys(View(), d.View())
    {
      var mine := Key(View());
      var thisss :- mine;
      var other := Key(d.View());
      var thtsss :- other;
      return Ok((thisss, thtsss));
    }

    /** The casts of one side of compare, and its seconds. */
    static method Key(s: Stamp) returns (r: Result<int>)
      ensures r == CompareKey(s)
    {
      var y :- CastInt(s.year);
      var m :- MonthOf(s);
      var d :- CastInt(s.day);
      var h :- CastInt(s.hh);
      var mi :- CastInt(s.mm);
      var sec :- CastInt(s.ss);
      return Ok(GetSeconds(y, m, d, h, mi, sec) % WORD % LONG_MAX);
    }

    /** operator< */
    method LessThan(d: Date) returns (r: Result<bool>)
      ensures r == Less(View(), d.View())
      ensures forall a: Moment, b: Moment, tz: real, tz': real ::
        Recent(a) && Recent(b) && View() == StampOf(a, tz) && d.View() == StampOf(b, tz') ==> r == Ok(MomentBefore(Carried(a), Carried(b)))
    {
      forall a: Moment, b: Moment, tz: real, tz': real |
        Recent(a) && Recent(b) && View() == StampOf(a, tz) && d.View() == StampOf(b, tz')
        ensures Less(View(), d.View()) == Ok(MomentBefore(Carried(a), Carried(b)))
      {
        OperatorsCarry(a, b, tz, tz');
      }
      var keys := Compare(d);
      var k :- keys;
      return Ok(k.0 < k.1);
    }

    /** operator== */
    method EqualTo(d: Date) returns (r: Result<bool>)
      ensures r == Same(View(), d.View())
      ensures forall a: Moment, b: Moment, tz: real, tz': real ::
        Recent(a) && Recent(b) && View() == StampOf(a, tz) && d.View() == StampOf(b, tz') ==> r == Ok(Carried(a) == Carried(b))
    {
      forall a: Moment, b: Moment, tz: real, tz': real |
        Recent(a) && Recent(b) && View() == StampOf(a, tz) && d.View() == StampOf(b, tz')
        ensures Same(View(), d.View()) == Ok(Carried(a) == Carried(b))
      {
        OperatorsCarry(a, b, tz, tz');
      }
      var keys := Compare(d);
      var k :- keys;
      return Ok(k.0 == k.1);
    }

    // ---- the update methods

    /** The time fields hold the two-digit forms of the clock's numbers. */
    ghost predicate Shown()
      reads this`hh, this`mm, this`ss, this`clock
    {
      hh == Two(clock.h) && mm == Two(clock.mi) && ss == Two(clock.s)
    }

    /** ... and those can be read back. */
    ghost predicate Ticking()
      reads this`hh, this`mm, this`ss, this`clock
    {
      Shown() && clock.h >= 0 && clock.mi >= 0 && clock.s >= 0
    }

    /** The getters cast whatever text is there; on a text a setter wrote that gives the number back. */
    method GetHh() returns (r: Result<int>)
      ensures r == CastInt(hh)
      ensures Ticking() ==> r == Ok(clock.h)
    {
      r := CastInt(hh);
      if hh == Two(clock.h) && clock.h >= 0 { CastTwo(clock.h); }
    }

    method GetMm() returns (r: Result<int>)
      ensures r == CastInt(mm)
      ensures Ticking() ==> r == Ok(clock.mi)
    {
      r := CastInt(mm);
      if mm == Two(clock.mi) && clock.mi >= 0 { CastTwo(clock.mi); }
    }

    method GetSs() returns (r: Result<int>)
      ensures r == CastInt(ss)
      ensures Ticking() ==> r == Ok(clock.s)
    {
      r := CastInt(ss);
      if ss == Two(clock.s) && clock.s >= 0 { CastTwo(clock.s); }
    }

    method Hours() returns (v: int)
      requires Ticking()
      ensures v == clock.h
    {
      var r := GetHh();
      v := r.value;
    }

    method Minutes() returns (v: int)
      requires Ticking()
      ensures v == clock.mi
    {
      var r := GetMm();
      v := r.value;
    }

    method Seconds() returns (v: int)
      requires Ticking()
      ensures v == clock.s
    {
      var r := GetSs();
      v := r.value;
    }

    method SetHh(h: int)
      modifies this`hh, this`clock
      ensures hh == Two(h) && clock == old(clock).(h := h)
    {
      var t := if h <= 9 then "0" else "";
      hh := t + IntToStr(h);
      clock := clock.(h := h);
    }

    method SetMm(mi: int)
      modifies this`mm, this`clock
      ensures mm == Two(mi) && clock == old(clock).(mi := mi)
    {
      var t := if mi <= 9 then "0" else "";
      mm := t + IntToStr(mi);
      clock := clock.(mi := mi);
    }

    method SetSs(s: int)
      modifies this`ss, this`clock
      ensures ss == Two(s) && clock == old(clock).(s := s)
    {
      var t := if s <= 9 then "0" else "";
      ss := t + IntToStr(s);
      clock := clock.(s := s);
    }

    /** The date fields can be read, and hold these numbers. */
    ghost predicate Dated()
      reads this`day, this`month, this`year, this`date
    {
      DatedBy(day, month, year, date)
    }

    /** All that the update methods read: the time, and a date of the present era. */
    ghost predicate Running()
      reads this`day, this`month, this`year, this`hh, this`mm, this`ss, this`clock, this`date
    {
      Ticking() && Dated() && InEra(date)
    }

    /** The number of the day some days on. */
    method NumberAfter(days: int) returns (r: Result<int>)
      ensures r == DayShift(View(), days)
    {
      ghost var s := View();
      assert s.year == year && s.day == day;
      var months :- MonthOf(View());
      var y :- CastInt(year);
      var dd :- CastInt(day);
      ShiftOf(s, days, y, months, dd);
      return Ok(GetDays(y + Quot(months, 12), Rem(months, 12), dd + days));
    }

    /** The first half of updateDays: the date some days on, in a new object. */
    method Shifted(days: int, now: Stamp) returns (r: Result<Date>)
      ensures match DayShift(View(), days)
        case Throw(e) => r == Throw(e)
        case Ok(g) => r.Ok? && fresh(r.value) && r.value.View() == Written(FromDays(g), now)
    {
      var n := NumberAfter(days);
      var g :- n;
      var d := FromDayNumber(g, now);
      return Ok(d);
    }

    /** getDay and getYear of a date just converted: a number below zero does not read back. */
    method DayOf(ghost e: Civil, ghost now: Stamp) returns (r: Result<int>)
      requires View() == Written(e, now)
      ensures r == if e.day >= 0 then Ok(e.day) else Throw(BAD_INT)
    {
      r := CastInt(day);
      CastSetter(e.day);
    }

    method YearOf(ghost e: Civil, ghost now: Stamp) returns (r: Result<int>)
      requires View() == Written(e, now)
      ensures r == if e.year >= 0 then Ok(e.year) else Throw(BAD_INT)
    {
      r := CastInt(year);
      CastSetter(e.year);
    }

    /** The second half: what it reads back from that object goes into the fields, `getMm` into the month. */
    method TakeOver(d: Date, ghost e: Civil, ghost now: Stamp) returns (r: Result<()>)
      requires d != this && d.View() == Written(e, now) && CastInt(now.mm).Ok?
      modifies this`day, this`month, this`monthw, this`year, this`dayw
      ensures (r, View()) == Restamped(old(View()), e, CastInt(now.mm).value)
    {
      var mi := CastInt(d.mm).value;
      var day := d.DayOf(e, now);
      var dd :- day;
      SetDay(dd);
      SetMonth(mi);
      var year := d.YearOf(e, now);
      var y :- year;
      SetYear(y);
      dayw := d.dayw;
      return Ok(());
    }

    /** updateDays. `now` is the clock reading that getDateFromDays starts from. */
    method UpdateDays(days: int, now: Stamp) returns (r: Result<()>)
      requires CastInt(now.mm).Ok?
      modifies this`day, this`month, this`monthw, this`year, this`dayw, this`clock, this`date
      ensures match DayShift(old(View()), days)
        case Throw(e) => r == Throw(e) && View() == old(View())
        case Ok(g) => (r, View()) == Restamped(old(View()), FromDays(g), CastInt(now.mm).value)
      ensures date == DayStep(old(date), days, Minute(now)) && clock == old(clock).(days := old(clock).days + days)
    {
      ghost var g := DayShift(View(), days);
      date := DayStep(date, days, Minute(now));
      clock := clock.(days := clock.days + days);
      var shifted := Shifted(days, now);
      var d :- shifted;
      r := TakeOver(d, FromDays(g.value), now);
    }

    /** updateDays in the present era, as the other update methods call it. */
    method StepDays(days: int, now: Stamp)
      requires Dated() && InEra(date) && days > 0 && Minute(now) >= 0
      modifies this`day, this`month, this`monthw, this`year, this`dayw, this`clock, this`date
      ensures Dated() && InEra(date) && date == Stepped(old(date), days, Minute(now))
      ensures clock == old(clock).(days := old(clock).days + days)
    {
      StepInEra(View(), date, days, Minute(now));
      ghost var t := Restamped(View(), ShiftedBy(date, days), Minute(now)).1;
      var _ := UpdateDays(days, now);
      assert View() == t && DatedAs(t, date);
    }

    method Place(h: int, mi: int)
      requires ss == Two(clock.s)
      modifies this`hh, this`mm, this`clock
      ensures Shown() && clock == old(clock).(h := h, mi := mi)
    {
      SetHh(h);
      SetMm(mi);
    }

    /** The days handed on and the hour and minute left, when some hours are added. */
    method HoursCarried(n: int) returns (days: int, hours: int, extminutes: int)
      requires Ticking()
      ensures AddHours(clock, n) == Clock(clock.days + (if days > 0 then days else 0), hours, extminutes, clock.s)
    {
      hours := n;
      extminutes := Minutes();
      hours := hours + Quot(extminutes, 60);
      extminutes := Rem(extminutes, 60);
      var h := Hours();
      days := Quot(h + hours, 24);
      hours := Rem(h + hours, 24);
    }

    method UpdateHours(n: int, now: Stamp)
      requires Running() && Minute(now) >= 0
      modifies this`day, this`month, this`monthw, this`year, this`dayw, this`hh, this`mm, this`clock, this`date
      ensures Shown() && clock == AddHours(old(clock), n)
      ensures Dated() && InEra(date) && date == Stepped(old(date), clock.days - old(clock.days), Minute(now))
    {
      ghost var d := date;
      var days, hours, extminutes := HoursCarried(n);
      if days > 0 {
        StepDays(days, now);
      } else {
        SteppedNone(d, Minute(now));
      }
      Place(hours, extminutes);
    }

    method Settle(mi: int, s: int)
      requires hh == Two(clock.h)
      modifies this`mm, this`ss, this`clock
      ensures Shown() && clock == old(clock).(mi := mi, s := s)
    {
      SetMm(mi);
      SetSs(s);
    }

    method UpdateMinutes(n: int, now: Stamp)
      requires Running() && Minute(now) >= 0
      modifies this`day, this`month, this`monthw, this`year, this`dayw, this`hh, this`mm, this`ss, this`clock, this`date
      ensures Shown() && clock == AddMinutes(old(clock), n)
      ensures Dated() && InEra(date) && date == Stepped(old(date), clock.days - old(clock.days), Minute(now))
    {
      var minutes := n;
      var extseconds := Seconds();
      minutes := minutes + Quot(extseconds, 60);
      extseconds := Rem(extseconds, 60);
      var mi := Minutes();
      var hours := Quot(mi + minutes, 60);
      minutes := Rem(mi + minutes, 60);
      ghost var c := clock;
      ghost var e := date;
      if hours > 0 {
        UpdateHours(hours, now);
      } else {
        SteppedNone(e, Minute(now));
      }
      ghost var d := clock;
      Settle(minutes, extseconds);
      MinutesAdded(c, n, hours, d, clock);
    }

    method UpdateSeconds(n: int, now: Stamp)
      requires Running() && Minute(now) >= 0
      modifies this`day, this`month, this`monthw, this`year, this`dayw, this`hh, this`mm, this`ss, this`clock, this`date,
               this`nanoseconds
      ensures Shown() && clock == AddSeconds(old(clock), n)
      ensures Dated() && InEra(date) && date == Stepped(old(date), clock.days - old(clock.days), Minute(now))
    {
      var seconds := n;
      var s := Seconds();
      var minutes := Quot(s + seconds, 60);
      seconds := Rem(s + seconds, 60);
      ghost var c := clock;
      if minutes > 0 {
        UpdateMinutes(minutes, now);
      }
      ghost var d := clock;
      SetSs(seconds);
      nanoseconds := 0;
      SecondsAdded(c, n, minutes, d, clock);
    }
  }
}
