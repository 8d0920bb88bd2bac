/** CronTimer: which minutes and hours a parsed cron field admits, and the step from one run to the next. */
module Cron {
  import opened Text
  import opened Decimal
  import opened Calendar
  import opened Dates

  // ---------------------------------------------------------------- parsed fields

  /** CronExpressionPart, with -1 for an unset number. */
  datatype Part = Part(all: bool, from: int, to: int, interval: int, list: string, lstParts: seq<int>)

  /** The forms the constructor parses a field into. */
  datatype CronField =
    | Every
    | Single(v: int)
    | Range(from: int, to: int)
    | Step(from: int, to: int, interval: int)
    | List(vs: seq<int>)

  function ListText(vs: seq<int>): string {
    if vs == [] then "" else "," + IntToStr(vs[0]) + "," + ListText(vs[1..])
  }

  function Compiled(f: CronField): Part {
    match f
    case Every => Part(true, -1, -1, -1, "", [])
    case Single(v) => Part(false, v, -1, -1, "", [])
    case Range(from, to) => Part(false, from, to, -1, "", [])
    case Step(from, to, interval) => Part(false, from, to, interval, "", [])
    case List(vs) => Part(false, -1, -1, -1, ListText(vs), vs)
  }

  predicate Ascending(vs: seq<int>) { forall i, j :: 0 <= i < j < |vs| ==> vs[i] < vs[j] }

  /** What the constructor leaves of a field with values from 0 to `hi`: bounds checked, lists sorted, and
      (what it does not check) a step of at least one, and a range that does not start behind `hi`. */
  predicate Parsed(f: CronField, hi: int) {
    match f
    case Every => true
    case Single(v) => 0 <= v <= hi
    case Range(from, to) => 0 <= from <= hi && 0 <= to <= hi
    case Step(from, to, interval) => 0 <= from && to <= hi && 1 <= interval <= to - from
    case List(vs) => |vs| >= 1 && (forall i, j :: 0 <= i <= j < |vs| ==> 0 <= vs[i] <= vs[j] <= hi)
  }

  /** A list with at least two members, none of them twice. */
  predicate Proper(f: CronField) {
    f.List? ==> |f.vs| >= 2 && Ascending(f.vs)
  }

  /** The values a field stands for; a range that runs backwards keeps its first value. */
  predicate Member(f: CronField, v: int) {
    match f
    case Every => true
    case Single(w) => v == w
    case Range(from, to) => v == from || from <= v <= to
    case Step(from, to, interval) => interval > 0 && from <= v <= to && (v - from) % interval == 0
    case List(vs) => v in vs
  }

  function First(f: CronField): int {
    match f
    case Every => 0
    case Single(v) => v
    case Range(from, _) => from
    case Step(from, _, _) => from
    case List(vs) => if vs == [] then 0 else vs[0]
  }

  // ---------------------------------------------------------------- isValid

  /** Whether a field admits the value `v` read from `cvalue`. */
  predicate Admits(p: Part, v: int, cvalue: string) {
    || (p.interval == -1 && p.from == v)
    || (p.interval == -1 && p.to != -1 && p.from <= v <= p.to)
    || (p.interval > 0 && p.from <= v <= p.to && Rem(v - p.from, p.interval) == 0)
    || Find(p.list, Comma(cvalue)) != -1
  }

  /** The test that opens the gate for one field, on the two-digit strings of two dates. */
  function IsValid(p: Part, cvalue: string, nvalue: string): Result<bool> {
    if cvalue == "" then Ok(false)
    else
      var v :- CastInt(cvalue);
      if !p.all && !Admits(p, v, cvalue) then Ok(false)
      else
        var n :- CastInt(nvalue);
        Ok(v == n)
  }

  function Comma(x: string): string { "," + x + "," }

  lemma {:induction false} ListTextHolds(vs: seq<int>, i: nat)
    requires i < |vs|
    ensures Occurs(ListText(vs), Comma(IntToStr(vs[i])))
  {
    var s, head := ListText(vs), Comma(IntToStr(vs[0]));
    if i == 0 {
      assert s[0..|head|] == head;
      assert MatchAt(s, head, 0);
    } else {
      ListTextHolds(vs[1..], i - 1);
      assert vs[1..][i - 1] == vs[i];
      OccursBehind(head, ListText(vs[1..]), Comma(IntToStr(vs[i])));
    }
  }

  lemma OccursBehind(head: string, rest: string, pat: string)
    requires Occurs(rest, pat)
    ensures Occurs(head + rest, pat)
  {
    var j :| 0 <= j <= |rest| && MatchAt(rest, pat, j);
    assert (head + rest)[|head| + j..|head| + j + |pat|] == rest[j..j + |pat|];
    assert MatchAt(head + rest, pat, |head| + j);
  }

  /** A numeral between commas matches only where a member stands. */
  lemma {:induction false} ListTextOnly(vs: seq<int>, x: string, j: nat) returns (i: nat)
    requires x != "" && AllDigits(x) && forall k :: 0 <= k < |vs| ==> vs[k] >= 0
    requires MatchAt(ListText(vs), Comma(x), j)
    ensures i < |vs| && ToStr(vs[i]) == x
  {
    var w, rest := ToStr(vs[0]), ListText(vs[1..]);
    MatchInList(w, rest, x, j);
    if j == 0 {
      i := 0;
    } else {
      i := ListTextOnly(vs[1..], x, j - |w| - 2);
      i := i + 1;
    }
  }

  lemma MatchInList(w: string, rest: string, x: string, j: nat)
    requires w != "" && AllDigits(w) && x != "" && AllDigits(x) && (rest == "" || rest[0] == ',')
    requires MatchAt(Comma(w) + rest, Comma(x), j)
    ensures (j == 0 && w == x) || (j >= |w| + 2 && MatchAt(rest, Comma(x), j - |w| - 2))
  {
    if j == 0 {
      MatchAtStart(w, rest, x);
    } else if j <= |w| + 1 {
      NoMatchInside(w, rest, x, j);
    } else {
      MatchBehind(Comma(w), rest, Comma(x), j);
    }
  }

  lemma CommaChar(w: string, rest: string, i: nat)
    requires 1 <= i <= |w| && AllDigits(w)
    ensures var s := Comma(w) + rest; |s| == |w| + 2 + |rest| && IsDigit(s[i]) && s[i] == w[i - 1]
  {}

  lemma CommaEnds(w: string, rest: string)
    ensures var s := Comma(w) + rest; |s| == |w| + 2 + |rest| && s[0] == ',' && s[|w| + 1] == ','
    ensures rest != "" ==> (Comma(w) + rest)[|w| + 2] == rest[0]
  {}

  lemma MatchChar(s: string, pat: string, j: nat, i: nat)
    requires MatchAt(s, pat, j) && i < |pat|
    ensures j + |pat| <= |s| && s[j + i] == pat[i]
  {
    assert s[j..j + |pat|][i] == pat[i];
  }

  lemma MatchAtStart(w: string, rest: string, x: string)
    requires AllDigits(w) && AllDigits(x) && MatchAt(Comma(w) + rest, Comma(x), 0)
    ensures w == x
  {
    var s, pat := Comma(w) + rest, Comma(x);
    CommaEnds(w, rest);
    CommaEnds(x, "");
    if |x| < |w| {
      MatchChar(s, pat, 0, |x| + 1);
      CommaChar(w, rest, |x| + 1);
    } else if |x| > |w| {
      MatchChar(s, pat, 0, |w| + 1);
      CommaChar(x, "", |w| + 1);
    } else {
      forall i | 0 <= i < |w| ensures w[i] == x[i] {
        CommaChar(w, rest, i + 1);
        CommaChar(x, "", i + 1);
        MatchChar(s, pat, 0, i + 1);
      }
    }
  }

  lemma NoMatchInside(w: string, rest: string, x: string, j: nat)
    requires AllDigits(w) && x != "" && AllDigits(x) && (rest == "" || rest[0] == ',') && 1 <= j <= |w| + 1
    ensures !MatchAt(Comma(w) + rest, Comma(x), j)
  {
    var s, pat := Comma(w) + rest, Comma(x);
    if MatchAt(s, pat, j) {
      CommaEnds(w, rest);
      CommaEnds(x, "");
      CommaChar(x, "", 1);
      MatchChar(s, pat, j, 1);
      MatchChar(s, pat, j, 0);
      if j <= |w| { CommaChar(w, rest, j); }
    }
  }

  lemma MatchBehind(head: string, rest: string, pat: string, j: nat)
    requires j >= |head| && MatchAt(head + rest, pat, j)
    ensures MatchAt(rest, pat, j - |head|)
  {
    assert rest[j - |head|..j - |head| + |pat|] == (head + rest)[j..j + |pat|];
  }

  /** A text that is empty never opens the gate, and one that is no number throws. */
  lemma UnreadableGate(p: Part, cvalue: string, nvalue: string)
    ensures cvalue == "" ==> IsValid(p, cvalue, nvalue) == Ok(false)
    ensures cvalue != "" && CastInt(cvalue).Throw? ==> IsValid(p, cvalue, nvalue).Throw?
  {}

  /** The gate for one field, on the strings `setMm` and `setHh` write: the times must agree and the
      field must admit them, and a listed value must have two digits to be recognized at all. */
  lemma GateOpensExactly(f: CronField, hi: int, v: nat, n: nat)
    requires Parsed(f, hi)
    ensures IsValid(Compiled(f), Two(v), Two(n)) == Ok(v == n && Member(f, v) && (f.List? ==> v >= 10))
  {
    CastTwo(v);
    CastTwo(n);
    if !f.Every? { AdmitsMembers(f, hi, v); }
  }

  lemma AdmitsMembers(f: CronField, hi: int, v: nat)
    requires Parsed(f, hi) && !f.Every?
    ensures Admits(Compiled(f), v, Two(v)) <==> Member(f, v) && (f.List? ==> v >= 10)
  {
    if f.List? {
      ListGate(f.vs, v);
    } else {
      EmptyList(v);
      if f.Step? && f.from <= v { RemOfNonNegative(v - f.from, f.interval); }
    }
  }

  lemma RemOfNonNegative(a: int, b: int)
    requires a >= 0 && b > 0
    ensures Rem(a, b) == a % b
  {}

  lemma EmptyList(v: nat)
    ensures Find("", Comma(Two(v))) == -1
  {}

  lemma ListGate(vs: seq<int>, v: nat)
    requires forall i :: 0 <= i < |vs| ==> vs[i] >= 0
    ensures Find(ListText(vs), Comma(Two(v))) != -1 <==> v in vs && v >= 10
  {
    var s, pat := ListText(vs), Comma(Two(v));
    CastTwo(v);
    assert v <= 9 ==> |ToStr(v)| == 1;
    if v in vs && v >= 10 {
      var i :| 0 <= i < |vs| && vs[i] == v;
      assert Two(v) == IntToStr(v);
      ListTextHolds(vs, i);
    }
    var r := Find(s, pat);
    if r != -1 {
      var i := ListTextOnly(vs, Two(v), r);
      ToStrVal(vs[i]);
      assert DigitsVal(Two(v)) == vs[i];
      assert vs[i] == v by { assert CastInt(Two(v)) == Ok(v); CastDigits(Two(v)); }
    }
  }

  // ---------------------------------------------------------------- one step

  function IndexOf(vs: seq<int>, v: int): (j: nat)
    ensures j <= |vs|
    ensures j < |vs| ==> vs[j] == v
    ensures j == |vs| <==> v !in vs
  {
    if vs == [] then 0 else if vs[0] == v then 0 else 1 + IndexOf(vs[1..], v)
  }

  /** The amount `tryIncrement` adds to a field that reads `v`. */
  function Increment(p: Part, v: int): int {
    var j := IndexOf(p.lstParts, v);
    var byStep := if p.interval != -1 then p.interval else 1;
    var byList := if j == |p.lstParts| then byStep
                  else (if j == |p.lstParts| - 1 then p.lstParts[0] else p.lstParts[j + 1]) - v;
    if p.interval != -1 && v + byList > p.to then p.from - v else byList
  }

  predicate Increments(p: Part, v: int) {
    p.all || p.interval != -1 || p.from <= v < p.to || v in p.lstParts
  }

  lemma EveryAmount(v: int)
    ensures Increment(Compiled(Every), v) == 1 && Increments(Compiled(Every), v)
  {}

  /** The first and last value `correctNextRunDateTime` works with. */
  function Bounds(p: Part, lo: int, hi: int): (int, int) {
    if |p.lstParts| > 0 then (p.lstParts[0], p.lstParts[|p.lstParts| - 1])
    else
      var end := if p.interval == -1 && p.to == -1 && p.from != -1 && !p.all then p.from else p.to;
      (if p.from == -1 then lo else p.from, if end == -1 then hi else end)
  }

  /** The minute and hour fields; the day field is "every". */
  datatype Schedule = Schedule(minutes: Part, hours: Part)

  function CorrectMinutes(k: Schedule, c: Clock): Clock {
    var (start, end) := Bounds(k.minutes, 0, 59);
    if c.mi >= end then AddMinutes(c, start - c.mi) else c
  }

  lemma CorrectsMinutes(k: Schedule, c: Clock, start: int, end: int)
    requires (start, end) == Bounds(k.minutes, 0, 59) && c.InRange() && 0 <= start <= 59
    ensures CorrectMinutes(k, c) == if c.mi >= end then c.(mi := start) else c
  {
    MinuteMove(c, start - c.mi);
  }

  function ResetHours(k: Schedule, c: Clock): Clock {
    var (start, end) := Bounds(k.hours, 0, 23);
    if c.h >= end then AddHours(c, start - c.h) else c
  }

  lemma ResetsHours(k: Schedule, c: Clock, start: int, end: int)
    requires (start, end) == Bounds(k.hours, 0, 23) && c.InRange() && 0 <= start <= 23
    ensures ResetHours(k, c) == if c.h >= end then c.(h := start) else c
  {
    HourMove(c, start - c.h);
  }

  function CorrectHours(k: Schedule, c: Clock): Clock {
    CorrectMinutes(k, ResetHours(k, c))
  }

  function TryMinutes(k: Schedule, c: Clock): (Clock, bool) {
    var n := Increment(k.minutes, c.mi);
    if Increments(k.minutes, c.mi) then (AddMinutes(c, n), n >= 0) else (c, false)
  }

  function TryHours(k: Schedule, c: Clock): (Clock, bool) {
    var n := Increment(k.hours, c.h);
    if Increments(k.hours, c.h) then (CorrectMinutes(k, AddHours(c, n)), n >= 0) else (c, false)
  }

  function NextDay(k: Schedule, c: Clock): Clock {
    CorrectHours(k, c.(days := c.days + 1))
  }

  lemma NextDayIs(k: Schedule, c: Clock, d: Clock, e: Clock)
    requires d == c.(days := c.days + 1) && e == CorrectHours(k, d)
    ensures e == NextDay(k, c)
  {}

  /** The step `run` takes after it has fired. */
  function Fired(k: Schedule, c: Clock): Clock {
    var (c1, done1) := TryMinutes(k, c);
    if done1 then c1
    else
      var (c2, done2) := TryHours(k, c1);
      if done2 then c2 else NextDay(k, c2)
  }

  /** The gate of `run`: the clock shows the date and time waited for, and both fields admit the time. */
  predicate Opens(k: Schedule, at: Moment, c: Moment) {
    && at.date == c.date
    && IsValid(k.hours, Two(at.h), Two(c.h)) == Ok(true)
    && IsValid(k.minutes, Two(at.mi), Two(c.mi)) == Ok(true)
  }

  /** A firing at a date and time; `late` is the minute the clock shows when a day step reads it. */
  function FiredAt(k: Schedule, c: Moment, late: int): Moment {
    var d := Fired(k, Clock(0, c.h, c.mi, c.s));
    Moment(Stepped(c.date, d.days, late), d.h, d.mi, d.s)
  }

  /** One turn of the loop in `run`, at the clock time `at`. */
  function Turn(k: Schedule, at: Moment, c: Moment, late: int): Moment {
    if Opens(k, at, c) then FiredAt(k, c, late) else c
  }

  /** The gate of a field "every" compares two numbers. */
  lemma EveryGate(cvalue: string, nvalue: string, v: int, n: int)
    requires CastInt(nvalue) == Ok(n) && CastInt(cvalue) == Ok(v) && cvalue != ""
    ensures IsValid(Compiled(Every), cvalue, nvalue) == Ok(true) <==> v == n
  {}

  /** The range of each form of field; of a list, its own ends. */
  lemma BoundsExactly(f: CronField, lo: int, hi: int)
    requires Parsed(f, hi)
    ensures match f
      case Every => Bounds(Compiled(f), lo, hi) == (lo, hi)
      case Single(v) => Bounds(Compiled(f), lo, hi) == (v, v)
      case Range(from, to) => Bounds(Compiled(f), lo, hi) == (from, to)
      case Step(from, to, _) => Bounds(Compiled(f), lo, hi) == (from, to)
      case List(vs) => Bounds(Compiled(f), lo, hi) == (vs[0], vs[|vs| - 1])
  {}

  lemma BoundsInRange(f: CronField, hi: int)
    requires Parsed(f, hi) && hi >= 0
    ensures var (start, end) := Bounds(Compiled(f), 0, hi); 0 <= start <= hi && 0 <= end <= hi && start == First(f)
  {}

  lemma IncrementInRange(f: CronField, hi: int, v: int)
    requires Parsed(f, hi) && v >= 0
    ensures v + Increment(Compiled(f), v) >= 0
  {
    if f.List? { assert forall i :: 0 <= i < |f.vs| ==> f.vs[i] >= 0; }
  }

  // ---------------------------------------------------------------- the class

  class CronTimer {
    var cParts: seq<Part>
    var nextRunDate: Date
    const starts: seq<int> := [0, 0, 1, 1, 0, 1970]
    const ends: seq<int> := [59, 23, 31, 12, 6, 2099]
    ghost var minuteField: CronField
    ghost var hourField: CronField

    /** A timer for a parsed minute and hour field, every other field "every". */
    constructor (minutes: CronField, hours: CronField, date: Date)
      requires Parsed(minutes, 59) && Parsed(hours, 23) && date.Running() && date.clock.InRange()
      ensures Ready() && nextRunDate == date && minuteField == minutes && hourField == hours
    {
      var every := Compiled(Every);
      cParts := [Compiled(minutes), Compiled(hours), every, every, every, every];
      nextRunDate := date;
      minuteField, hourField := minutes, hours;
    }

    /** A parsed minute and hour field, "every" for the rest, and a date whose fields can be read. */
    ghost predicate Ready()
      reads this, nextRunDate
    {
      && |cParts| == 6 && cParts[2] == cParts[3] == cParts[5] == Compiled(Every)
      && cParts[0] == Compiled(minuteField) && Parsed(minuteField, 59)
      && cParts[1] == Compiled(hourField) && Parsed(hourField, 23)
      && nextRunDate.Running() && nextRunDate.clock.InRange()
    }

    function Plan(): Schedule
      requires |cParts| >= 2
      reads this
    {
      Schedule(cParts[0], cParts[1])
    }

    /** The range of values of one field, as correctNextRunDateTime works it out. */
    method RangeOf(index: nat) returns (start: int, end: int)
      requires index < |cParts| && index < 6
      ensures (start, end) == Bounds(cParts[index], starts[index], ends[index])
    {
      start := cParts[index].from;
      end := cParts[index].to;
      if cParts[index].interval == -1 && end == -1 && start != -1 && !cParts[index].all {
        end := start;
      }
      if start == -1 {
        start := starts[index];
      }
      if end == -1 {
        end := ends[index];
      }
      if |cParts[index].lstParts| > 0 {
        start := cParts[index].lstParts[0];
        end := cParts[index].lstParts[|cParts[index].lstParts| - 1];
      }
    }

    method MoveMinute(n: int, now: Stamp)
      requires Ready() && nextRunDate.clock.mi + n >= 0 && Minute(now) >= 0
      modifies nextRunDate
      ensures Ready() && nextRunDate.clock == AddMinutes(old(nextRunDate.clock), n)
      ensures nextRunDate.date == Stepped(old(nextRunDate.date), nextRunDate.clock.days - old(nextRunDate.clock.days), Minute(now))
    {
      AddMinutesConserves(nextRunDate.clock, n);
      nextRunDate.UpdateMinutes(n, now);
    }

    method MoveHour(n: int, now: Stamp)
      requires Ready() && nextRunDate.clock.h + n >= 0 && Minute(now) >= 0
      modifies nextRunDate
      ensures Ready() && nextRunDate.clock == AddHours(old(nextRunDate.clock), n)
      ensures nextRunDate.date == Stepped(old(nextRunDate.date), nextRunDate.clock.days - old(nextRunDate.clock.days), Minute(now))
    {
      AddHoursConserves(nextRunDate.clock, n);
      nextRunDate.UpdateHours(n, now);
    }

    static method MoveDay(d: Date, n: int, now: Stamp)
      requires d.Running() && n > 0 && Minute(now) >= 0
      modifies d
      ensures d.Running() && d.clock == old(d.clock).(days := old(d.clock.days) + n)
      ensures d.date == Stepped(old(d.date), n, Minute(now))
    {
      d.StepDays(n, now);
    }

    method MinuteRange() returns (start: int, end: int, mi: int)
      requires Ready()
      ensures (start, end) == Bounds(Plan().minutes, 0, 59) && 0 <= start <= 59 && mi == nextRunDate.clock.mi
    {
      start, end := RangeOf(0);
      BoundsInRange(minuteField, 59);
      mi := nextRunDate.Minutes();
    }

    method HourRange() returns (start: int, end: int, h: int)
      requires Ready()
      ensures (start, end) == Bounds(Plan().hours, 0, 23) && 0 <= start <= 23 && h == nextRunDate.clock.h
    {
      start, end := RangeOf(1);
      BoundsInRange(hourField, 23);
      h := nextRunDate.Hours();
    }

    static method PutMinute(d: Date, start: int, mi: int, now: Stamp)
      requires d.Running() && d.clock.InRange() && 0 <= start <= 59 && mi == d.clock.mi && Minute(now) >= 0
      modifies d
      ensures d.Running() && d.date == old(d.date) && d.clock == old(d.clock).(mi := start)
    {
      ghost var c, e := d.clock, d.date;
      var n := start - mi;
      SteppedNone(e, Minute(now));
      d.UpdateMinutes(n, now);
      assert d.clock == AddMinutes(c, n);
      MinuteBack(c, start, n);
      assert d.date == Stepped(e, 0, Minute(now));
    }

    method BackToMinute(start: int, end: int, mi: int, now: Stamp)
      requires Ready() && 0 <= start <= 59 && mi == nextRunDate.clock.mi && Minute(now) >= 0
      modifies nextRunDate
      ensures Ready() && nextRunDate.date == old(nextRunDate.date)
      ensures nextRunDate.clock == if mi >= end then old(nextRunDate.clock).(mi := start) else old(nextRunDate.clock)
    {
      if mi >= end {
        PutMinute(nextRunDate, start, mi, now);
      }
    }

    static method PutHour(d: Date, start: int, h: int, now: Stamp)
      requires d.Running() && d.clock.InRange() && 0 <= start <= 23 && h == d.clock.h && Minute(now) >= 0
      modifies d
      ensures d.Running() && d.date == old(d.date) && d.clock == old(d.clock).(h := start)
    {
      ghost var c, e := d.clock, d.date;
      var n := start - h;
      SteppedNone(e, Minute(now));
      d.UpdateHours(n, now);
      assert d.clock == AddHours(c, n);
      HourBack(c, start, n);
      assert d.date == Stepped(e, 0, Minute(now));
    }

    method BackToHour(start: int, end: int, h: int, now: Stamp)
      requires Ready() && 0 <= start <= 23 && h == nextRunDate.clock.h && Minute(now) >= 0
      modifies nextRunDate
      ensures Ready() && nextRunDate.date == old(nextRunDate.date)
      ensures nextRunDate.clock == if h >= end then old(nextRunDate.clock).(h := start) else old(nextRunDate.clock)
    {
      if h >= end {
        PutHour(nextRunDate, start, h, now);
      }
    }

    /** correctNextRunDateTime(1): a minute at or past the last goes back to the first. */
    method CorrectMinute(now: Stamp)
      requires Ready() && Minute(now) >= 0
      modifies nextRunDate
      ensures Ready() && nextRunDate.clock == CorrectMinutes(Plan(), old(nextRunDate.clock))
      ensures nextRunDate.date == old(nextRunDate.date) && nextRunDate.clock.days == old(nextRunDate.clock.days)
    {
      var start, end, mi := MinuteRange();
      CorrectsMinutes(Plan(), nextRunDate.clock, start, end);
      BackToMinute(start, end, mi, now);
    }

    method ResetHour(now: Stamp)
      requires Ready() && Minute(now) >= 0
      modifies nextRunDate
      ensures Ready() && nextRunDate.clock == ResetHours(Plan(), old(nextRunDate.clock))
      ensures nextRunDate.date == old(nextRunDate.date) && nextRunDate.clock.days == old(nextRunDate.clock.days)
    {
      var start, end, h := HourRange();
      ResetsHours(Plan(), nextRunDate.clock, start, end);
      BackToHour(start, end, h, now);
    }

    /** correctNextRunDateTime(2): the same for the hour, then for the minute. */
    method CorrectHour(now: Stamp)
      requires Ready() && Minute(now) >= 0
      modifies nextRunDate
      ensures Ready() && nextRunDate.clock == CorrectHours(Plan(), old(nextRunDate.clock))
      ensures nextRunDate.date == old(nextRunDate.date) && nextRunDate.clock.days == old(nextRunDate.clock.days)
    {
      ResetHour(now);
      CorrectMinute(now);
    }

    /** The amount tryIncrement settles on: one, the step, the way to the next or first list member,
        or the way back to the start of a step range. */
    static method Amount(p: Part, val: int) returns (n: int, listed: bool)
      ensures n == Increment(p, val) && (listed <==> val in p.lstParts)
    {
      var j := 0;
      while j < |p.lstParts| && p.lstParts[j] != val
        invariant j <= |p.lstParts| && IndexOf(p.lstParts, val) == j + IndexOf(p.lstParts[j..], val)
      {
        assert p.lstParts[j..][1..] == p.lstParts[j + 1..];
        j := j + 1;
      }
      listed := j < |p.lstParts|;
      n := if p.interval != -1 then p.interval else 1;
      if listed {
        n := (if j == |p.lstParts| - 1 then p.lstParts[0] else p.lstParts[j + 1]) - val;
      }
      if p.interval != -1 && val + n > p.to {
        n := p.from - val;
      }
    }

    /** Whether tryIncrement moves the field at all. */
    static predicate Moves(p: Part, val: int, listed: bool) {
      var isRangeVal := val >= p.from && val < p.to;
      p.all || p.interval != -1 || isRangeVal || listed
    }

    /** tryIncrement(0, ...) */
    method TryMinute(cvalue: string, now: Stamp) returns (done: bool)
      requires Ready() && cvalue == Two(nextRunDate.clock.mi) && Minute(now) >= 0
      modifies nextRunDate
      ensures Ready() && (nextRunDate.clock, done) == TryMinutes(Plan(), old(nextRunDate.clock))
      ensures nextRunDate.date == Stepped(old(nextRunDate.date), nextRunDate.clock.days - old(nextRunDate.clock.days), Minute(now))
      ensures !done ==> nextRunDate.clock.days == old(nextRunDate.clock.days) && nextRunDate.date == old(nextRunDate.date)
    {
      CastTwo(nextRunDate.clock.mi);
      var val := CastInt(cvalue).value;
      var n, listed := Amount(cParts[0], val);
      ghost var c := nextRunDate.clock;
      done := false;
      if Moves(cParts[0], val, listed) {
        IncrementInRange(minuteField, 59, val);
        if n < 0 { MinuteMove(c, n); }
        MoveMinute(n, now);
        done := n >= 0;
      }
    }

    /** tryIncrement(1, ...) */
    method TryHour(cvalue: string, now: Stamp) returns (done: bool)
      requires Ready() && cvalue == Two(nextRunDate.clock.h) && Minute(now) >= 0
      modifies nextRunDate
      ensures Ready() && (nextRunDate.clock, done) == TryHours(Plan(), old(nextRunDate.clock))
      ensures nextRunDate.date == Stepped(old(nextRunDate.date), nextRunDate.clock.days - old(nextRunDate.clock.days), Minute(now))
      ensures !done ==> nextRunDate.clock.days == old(nextRunDate.clock.days) && nextRunDate.date == old(nextRunDate.date)
    {
      CastTwo(nextRunDate.clock.h);
      var val := CastInt(cvalue).value;
      var n, listed := Amount(cParts[1], val);
      ghost var c := nextRunDate.clock;
      done := false;
      if Moves(cParts[1], val, listed) {
        IncrementInRange(hourField, 23, val);
        if n < 0 { HourMove(c, n); }
        MoveHour(n, now);
        CorrectMinute(now);
        done := n >= 0;
      }
    }

    /** tryIncrement(2, ...) on the day field, which is "every". */
    method TryDay(cvalue: string, now: Stamp) returns (done: bool)
      requires Ready() && CastInt(cvalue).Ok? && Minute(now) >= 0
      modifies nextRunDate
      ensures Ready() && nextRunDate.clock == NextDay(Plan(), old(nextRunDate.clock)) && done
      ensures nextRunDate.date == Stepped(old(nextRunDate.date), 1, Minute(now))
      ensures nextRunDate.clock.days == old(nextRunDate.clock.days) + 1
    {
      var val := CastInt(cvalue).value;
      var n, listed := Amount(cParts[2], val);
      EveryAmount(val);
      ghost var k, c := Plan(), nextRunDate.clock;
      done := false;
      if Moves(cParts[2], val, listed) {
        MoveDay(nextRunDate, n, now);
        ghost var d := nextRunDate.clock;
        assert Plan() == k && d == c.(days := c.days + 1);
        CorrectHour(now);
        NextDayIs(k, c, d, nextRunDate.clock);
        assert Plan() == k;
        done := n >= 0;
      }
    }

    /** The increments `run` makes once the gate has opened; `now` is the clock reading that a day step
        takes the minute of. */
    method Fire(now: Stamp)
      requires Ready() && Minute(now) >= 0
      modifies nextRunDate
      ensures Ready() && nextRunDate.clock == Fired(Plan(), old(nextRunDate.clock))
      ensures nextRunDate.date == Stepped(old(nextRunDate.date), nextRunDate.clock.days - old(nextRunDate.clock.days), Minute(now))
    {
      var done := TryMinute(nextRunDate.mm, now);
      if !done {
        done := TryHour(nextRunDate.hh, now);
      }
      if !done {
        done := TryDay(nextRunDate.day, now);
      }
    }

    /** The date and time waited for. */
    ghost function Awaited(): Moment
      reads this, nextRunDate
    {
      Moment(nextRunDate.date, nextRunDate.clock.h, nextRunDate.clock.mi, nextRunDate.clock.s)
    }

    /** The five tests that `run` makes before it fires. */
    method Gate(d2: Stamp, ghost at: Moment) returns (open: bool)
      requires Ready() && DatedAs(d2, at.date) && d2.hh == Two(at.h) && d2.mm == Two(at.mi)
      ensures open <==> Opens(Plan(), at, Awaited())
    {
      EveryGate(d2.year, nextRunDate.year, at.date.year, nextRunDate.date.year);
      EveryGate(d2.month, nextRunDate.month, at.date.month, nextRunDate.date.month);
      EveryGate(d2.day, nextRunDate.day, at.date.day, nextRunDate.date.day);
      open := IsValid(cParts[5], d2.year, nextRunDate.year) == Ok(true);
      if open {
        open := IsValid(cParts[3], d2.month, nextRunDate.month) == Ok(true);
      }
      if open {
        open := IsValid(cParts[2], d2.day, nextRunDate.day) == Ok(true);
      }
      if open {
        open := IsValid(cParts[1], d2.hh, nextRunDate.hh) == Ok(true);
      }
      if open {
        open := IsValid(cParts[0], d2.mm, nextRunDate.mm) == Ok(true);
      }
    }

    /** One turn of the loop in `run`: `d2` is what the clock read at its start, which shows `at`, and `now`
        what it reads when a day step looks again. */
    method Poll(d2: Stamp, ghost at: Moment, now: Stamp)
      requires Ready() && DatedAs(d2, at.date) && d2.hh == Two(at.h) && d2.mm == Two(at.mi) && Minute(now) >= 0
      modifies nextRunDate
      ensures Ready() && Awaited() == Turn(Plan(), at, old(Awaited()), Minute(now))
    {
      var open := Gate(d2, at);
      nextRunDate.clock := nextRunDate.clock.(days := 0);
      ghost var k, c := Plan(), Awaited();
      if open {
        Fire(now);
        assert Plan() == k && Awaited() == FiredAt(k, c, Minute(now));
      }
    }
  }

  // ---------------------------------------------------------------- what one step does

  /** Minutes since day 0. */
  function Index(c: Clock): int { (c.days * 24 + c.h) * 60 + c.mi }

  /** An in-range time that both fields admit. */
  predicate Admissible(minutes: CronField, hours: CronField, c: Clock) {
    c.InRange() && Member(minutes, c.mi) && Member(hours, c.h)
  }

  predicate IsFirst(f: CronField, hi: int, v: int) {
    Member(f, v) && forall w :: 0 <= w <= hi && Member(f, w) ==> v <= w
  }

  predicate IsLast(f: CronField, hi: int, v: int) {
    Member(f, v) && forall w :: 0 <= w <= hi && Member(f, w) ==> w <= v
  }

  predicate IsNext(f: CronField, hi: int, v: int, n: int) {
    Member(f, n) && v < n <= hi && forall w :: v < w <= hi && Member(f, w) ==> n <= w
  }

  lemma FirstIsFirst(f: CronField, hi: int)
    requires Parsed(f, hi) && hi >= 0
    ensures IsFirst(f, hi, First(f)) && 0 <= First(f) <= hi
  {}

  /** A list that leads from `v` to `v` again: it has no other member, or holds `v` twice. */
  predicate StuckAt(f: CronField, v: int) {
    f.List? && var j := IndexOf(f.vs, v); |f.vs| == 1 || (j + 1 < |f.vs| && f.vs[j + 1] == f.vs[j])
  }

  /** No field that has to move is stuck: the minute, or the hour when the minute is the last. */
  predicate Moving(minutes: CronField, hours: CronField, h: int, mi: int) {
    !StuckAt(minutes, mi) && (IsLast(minutes, 59, mi) ==> !StuckAt(hours, h))
  }

  /** The next multiple of `k` after one is `k` further on. */
  lemma StepGap(a: int, b: int, k: int)
    requires k > 0 && a % k == 0
    ensures (a + k) % k == 0
    ensures a < b && b % k == 0 ==> a + k <= b
  {
    var p, q := a / k, b / k;
    assert a == k * p && b == k * q + b % k;
    MultipleIsMultiple(k, p + 1);
    assert a + k == k * (p + 1);
    if b >= k * (p + 1) {
    } else if b % k == 0 {
      Ordered(k, q, p + 1);
      Ordered(k, p, q);
    }
  }

  lemma MultipleIsMultiple(k: int, q: int)
    requires k > 0
    ensures (k * q) % k == 0
  {
    var x := k * q;
    var d := q - x / k;
    assert x % k == k * d;
    Ordered(k, d, 1);
    Ordered(k, -1, d);
  }

  lemma Ordered(k: int, a: int, b: int)
    requires k > 0
    ensures k * a < k * b <==> a < b
  {}

  /** One field: where `tryIncrement` moves forward it moves to the next value; where it does not, the
      value was the last one, and the correction leads back to the first. */
  lemma FieldStep(f: CronField, hi: int, v: int)
    requires Parsed(f, hi) && !f.Every? && !StuckAt(f, v) && Member(f, v) && 0 <= v <= hi
    ensures var p := Compiled(f); var n := Increment(p, v); var (start, end) := Bounds(p, 0, hi);
      && start == First(f)
      && (Increments(p, v) && n >= 0 ==> IsNext(f, hi, v, v + n))
      && (!(Increments(p, v) && n >= 0) ==>
            var w := if Increments(p, v) then v + n else v;
            IsLast(f, hi, v) && w >= 0 && (if w >= end then start else w) == First(f))
  {
    match f
    case Single(_) =>
    case Range(from, to) =>
    case Step(_, _, _) => StepFieldStep(f, hi, v);
    case List(_) => ListFieldStep(f, hi, v);
  }

  lemma StepFieldStep(f: CronField, hi: int, v: int)
    requires Parsed(f, hi) && f.Step? && Member(f, v) && 0 <= v <= hi
    ensures var n := v + f.interval;
      if n <= f.to then IsNext(f, hi, v, n) else IsLast(f, hi, v)
  {
    var n := v + f.interval;
    forall w | v < w && Member(f, w) ensures n <= w {
      StepGap(v - f.from, w - f.from, f.interval);
    }
    StepGap(v - f.from, v - f.from, f.interval);
    assert (n - f.from) % f.interval == 0;
  }

  lemma ListFieldStep(f: CronField, hi: int, v: int)
    requires Parsed(f, hi) && f.List? && !StuckAt(f, v) && Member(f, v) && 0 <= v <= hi
    ensures var j := IndexOf(f.vs, v);
      if j < |f.vs| - 1 then IsNext(f, hi, v, f.vs[j + 1]) else IsLast(f, hi, v) && f.vs[0] < v
  {
    var j := IndexOf(f.vs, v);
    forall w | Member(f, w) ensures w > v ==> j + 1 < |f.vs| && f.vs[j + 1] <= w {
      var i :| 0 <= i < |f.vs| && f.vs[i] == w;
    }
  }

  // ---------------------------------------------------------------- the step, in terms of members

  lemma MinuteBack(c: Clock, start: int, n: int)
    requires c.InRange() && 0 <= start <= 59 && n == start - c.mi
    ensures AddMinutes(c, n) == c.(mi := start) && c.mi + n >= 0
  {
    MinuteMove(c, n);
  }

  lemma MinuteMove(c: Clock, n: int)
    requires c.InRange() && 0 <= c.mi + n <= 59
    ensures AddMinutes(c, n) == c.(mi := c.mi + n)
  {
    Carry(c.s, 60);
    Carry(c.mi + n, 60);
  }

  lemma HourBack(c: Clock, start: int, n: int)
    requires c.InRange() && 0 <= start <= 23 && n == start - c.h
    ensures AddHours(c, n) == c.(h := start) && c.h + n >= 0
  {
    HourMove(c, n);
  }

  lemma HourMove(c: Clock, n: int)
    requires c.InRange() && 0 <= c.h + n <= 23
    ensures AddHours(c, n) == c.(h := c.h + n)
  {
    Carry(c.mi, 60);
    Carry(c.h + n, 24);
  }

  lemma Midnight(c: Clock)
    requires c.InRange() && c.h == 23
    ensures AddHours(c, 1) == c.(days := c.days + 1, h := 0)
  {
    Carry(c.mi, 60);
    Carry(24, 24);
  }

  function PlanOf(minutes: CronField, hours: CronField): Schedule {
    Schedule(Compiled(minutes), Compiled(hours))
  }

  lemma CorrectMinutesTo(minutes: CronField, hours: CronField, c: Clock)
    requires Parsed(minutes, 59) && c.InRange()
    requires var (start, end) := Bounds(Compiled(minutes), 0, 59); (if c.mi >= end then start else c.mi) == First(minutes)
    ensures CorrectMinutes(PlanOf(minutes, hours), c) == c.(mi := First(minutes))
  {
    BoundsInRange(minutes, 59);
    var (start, end) := Bounds(Compiled(minutes), 0, 59);
    if c.mi >= end { MinuteMove(c, start - c.mi); }
  }

  lemma CorrectHoursTo(minutes: CronField, hours: CronField, c: Clock)
    requires Parsed(minutes, 59) && Parsed(hours, 23) && c.InRange()
    requires var (start, end) := Bounds(Compiled(minutes), 0, 59); (if c.mi >= end then start else c.mi) == First(minutes)
    requires var (start, end) := Bounds(Compiled(hours), 0, 23); (if c.h >= end then start else c.h) == First(hours)
    ensures CorrectHours(PlanOf(minutes, hours), c) == c.(h := First(hours), mi := First(minutes))
  {
    BoundsInRange(hours, 23);
    var (start, end) := Bounds(Compiled(hours), 0, 23);
    if c.h >= end { HourMove(c, start - c.h); }
    CorrectMinutesTo(minutes, hours, c.(h := First(hours)));
  }

  /** The minute field: forward to the next minute, or left where one correction leads to the first. */
  lemma MinutesMove(minutes: CronField, hours: CronField, c: Clock)
    requires Parsed(minutes, 59) && !minutes.Every? && Admissible(minutes, hours, c) && !StuckAt(minutes, c.mi)
    ensures var (c1, done) := TryMinutes(PlanOf(minutes, hours), c); var (start, end) := Bounds(Compiled(minutes), 0, 59);
      && c1.InRange() && c1 == c.(mi := c1.mi)
      && (done ==> IsNext(minutes, 59, c.mi, c1.mi))
      && (!done ==> IsLast(minutes, 59, c.mi) && (if c1.mi >= end then start else c1.mi) == First(minutes))
  {
    FieldStep(minutes, 59, c.mi);
    FirstIsFirst(minutes, 59);
    var p := Compiled(minutes);
    if Increments(p, c.mi) {
      LandsInRange(minutes, 59, c.mi);
      MinuteMove(c, Increment(p, c.mi));
    }
  }

  lemma LandsInRange(f: CronField, hi: int, v: int)
    requires Parsed(f, hi) && !f.Every? && !StuckAt(f, v) && Member(f, v) && 0 <= v <= hi
    requires Increments(Compiled(f), v)
    ensures 0 <= v + Increment(Compiled(f), v) <= hi
  {
    FieldStep(f, hi, v);
    IncrementInRange(f, hi, v);
  }

  /** The minute is ready to go back to the first. */
  predicate MinuteSpent(minutes: CronField, c: Clock) {
    var (start, end) := Bounds(Compiled(minutes), 0, 59);
    c.InRange() && (if c.mi >= end then start else c.mi) == First(minutes)
  }

  lemma EveryHourMoves(minutes: CronField, c: Clock)
    requires Parsed(minutes, 59) && MinuteSpent(minutes, c)
    ensures TryHours(PlanOf(minutes, Every), c)
         == (if c.h == 23 then Clock(c.days + 1, 0, First(minutes), c.s) else c.(h := c.h + 1, mi := First(minutes)), true)
  {
    if c.h == 23 { Midnight(c); } else { HourMove(c, 1); }
    CorrectMinutesTo(minutes, Every, AddHours(c, 1));
  }

  lemma HourIncrements(minutes: CronField, hours: CronField, c: Clock)
    requires Parsed(minutes, 59) && Parsed(hours, 23) && !hours.Every? && Member(hours, c.h) && MinuteSpent(minutes, c)
    requires !StuckAt(hours, c.h) && Increments(Compiled(hours), c.h)
    ensures var n := Increment(Compiled(hours), c.h);
      TryHours(PlanOf(minutes, hours), c) == (c.(h := c.h + n, mi := First(minutes)), n >= 0) && 0 <= c.h + n <= 23
  {
    var n := Increment(Compiled(hours), c.h);
    LandsInRange(hours, 23, c.h);
    HourMove(c, n);
    TriesHours(minutes, hours, c, n);
  }

  lemma TriesHours(minutes: CronField, hours: CronField, c: Clock, n: int)
    requires Parsed(minutes, 59) && MinuteSpent(minutes, c) && 0 <= c.h + n <= 23
    requires n == Increment(Compiled(hours), c.h) && Increments(Compiled(hours), c.h) && AddHours(c, n) == c.(h := c.h + n)
    ensures TryHours(PlanOf(minutes, hours), c) == (c.(h := c.h + n, mi := First(minutes)), n >= 0)
  {
    CorrectMinutesTo(minutes, hours, c.(h := c.h + n));
  }

  /** The hour field: on to the next hour, or on to the next day. */
  lemma HoursMove(minutes: CronField, hours: CronField, c: Clock)
    requires Parsed(minutes, 59) && Parsed(hours, 23) && !hours.Every? && Member(hours, c.h) && MinuteSpent(minutes, c)
    requires !StuckAt(hours, c.h)
    ensures var k := PlanOf(minutes, hours); var (c2, done) := TryHours(k, c);
      if done then c2 == c.(h := c2.h, mi := First(minutes)) && IsNext(hours, 23, c.h, c2.h)
      else IsLast(hours, 23, c.h) && NextDay(k, c2) == Clock(c.days + 1, First(hours), First(minutes), c.s)
  {
    FieldStep(hours, 23, c.h);
    if Increments(Compiled(hours), c.h) {
      HourIncrements(minutes, hours, c);
      var n := Increment(Compiled(hours), c.h);
      if n < 0 { DayMoves(minutes, hours, c.(h := c.h + n, mi := First(minutes))); }
    } else {
      DayMoves(minutes, hours, c);
    }
  }

  lemma DayMoves(minutes: CronField, hours: CronField, d: Clock)
    requires Parsed(minutes, 59) && Parsed(hours, 23) && d.InRange() && (MinuteSpent(minutes, d) || d.mi == First(minutes))
    requires var (start, end) := Bounds(Compiled(hours), 0, 23); (if d.h >= end then start else d.h) == First(hours)
    ensures NextDay(PlanOf(minutes, hours), d) == Clock(d.days + 1, First(hours), First(minutes), d.s)
  {
    BoundsInRange(minutes, 59);
    CorrectHoursTo(minutes, hours, d.(days := d.days + 1));
  }

  /** From an admissible time, one firing leads to the next admissible minute of the hour, else to the
      first minute of the next admissible hour, else to the first admissible time of the next day. */
  lemma FiredIs(minutes: CronField, hours: CronField, c: Clock)
    requires Parsed(minutes, 59) && !minutes.Every? && Parsed(hours, 23) && Admissible(minutes, hours, c)
    requires Moving(minutes, hours, c.h, c.mi)
    ensures var d := Fired(PlanOf(minutes, hours), c);
      || (d == c.(mi := d.mi) && IsNext(minutes, 59, c.mi, d.mi))
      || (d == c.(h := d.h, mi := First(minutes)) && IsLast(minutes, 59, c.mi) && IsNext(hours, 23, c.h, d.h))
      || (d == Clock(c.days + 1, First(hours), First(minutes), c.s) && IsLast(minutes, 59, c.mi) && IsLast(hours, 23, c.h))
  {
    MinutesMove(minutes, hours, c);
    var (c1, done) := TryMinutes(PlanOf(minutes, hours), c);
    if !done {
      if hours.Every? { EveryHourMoves(minutes, c1); } else { HoursMove(minutes, hours, c1); }
    }
  }

  /** `d` is an admissible time after `c`. */
  predicate Onward(minutes: CronField, hours: CronField, c: Clock, d: Clock) {
    Admissible(minutes, hours, d) && Index(c) < Index(d)
  }

  /** `d` is the earliest admissible time after `c`: nothing admissible lies between. */
  ghost predicate Successor(minutes: CronField, hours: CronField, c: Clock, d: Clock) {
    && Admissible(minutes, hours, d) && Index(c) < Index(d)
    && forall t: Clock :: Admissible(minutes, hours, t) ==> Index(t) <= Index(c) || Index(d) <= Index(t)
  }

  lemma FiringMoves(minutes: CronField, hours: CronField, c: Clock)
    requires Parsed(minutes, 59) && !minutes.Every? && Parsed(hours, 23) && Admissible(minutes, hours, c)
    requires Moving(minutes, hours, c.h, c.mi)
    ensures var d := Fired(PlanOf(minutes, hours), c); Successor(minutes, hours, c, d) && d.s == c.s
  {
    FiredIs(minutes, hours, c);
    FirstIsFirst(minutes, 59);
    FirstIsFirst(hours, 23);
    var d := Fired(PlanOf(minutes, hours), c);
    forall t: Clock | Admissible(minutes, hours, t) ensures Index(t) <= Index(c) || Index(d) <= Index(t) {
      NothingBetween(minutes, hours, c, d, t);
    }
  }

  lemma NothingBetween(minutes: CronField, hours: CronField, c: Clock, d: Clock, t: Clock)
    requires Admissible(minutes, hours, c) && Admissible(minutes, hours, t)
    requires IsFirst(minutes, 59, First(minutes)) && IsFirst(hours, 23, First(hours))
    requires
      || (d == c.(mi := d.mi) && IsNext(minutes, 59, c.mi, d.mi))
      || (d == c.(h := d.h, mi := First(minutes)) && IsLast(minutes, 59, c.mi) && IsNext(hours, 23, c.h, d.h))
      || (d == Clock(c.days + 1, First(hours), First(minutes), c.s) && IsLast(minutes, 59, c.mi) && IsLast(hours, 23, c.h))
    ensures Index(t) <= Index(c) || Index(d) <= Index(t)
  {
    if t.days == c.days {
      if t.h == c.h { } else { assert (t.h < c.h ==> Index(t) < Index(c)); }
    }
  }

  /** A stuck minute list leaves the whole time as it is. */
  lemma MinuteSticks(minutes: CronField, hours: CronField, c: Clock)
    requires Parsed(minutes, 59) && Admissible(minutes, hours, c) && StuckAt(minutes, c.mi)
    ensures Fired(PlanOf(minutes, hours), c) == c
  {
    SameAgain(minutes, c.mi);
    MinuteMove(c, 0);
    TriesMinutes(PlanOf(minutes, hours), c, 0);
  }

  lemma TriesMinutes(k: Schedule, c: Clock, n: int)
    requires n == Increment(k.minutes, c.mi) >= 0 && Increments(k.minutes, c.mi)
    ensures Fired(k, c) == AddMinutes(c, n)
  {}

  lemma SameAgain(f: CronField, v: int)
    requires StuckAt(f, v) && Member(f, v)
    ensures Increment(Compiled(f), v) == 0 && Increments(Compiled(f), v)
  {}

  /** A stuck hour list sends the last minute of its hour back to the first minute of the same hour. */
  lemma HourSticks(minutes: CronField, hours: CronField, c: Clock)
    requires Parsed(minutes, 59) && !minutes.Every? && Parsed(hours, 23) && Admissible(minutes, hours, c)
    requires !StuckAt(minutes, c.mi) && IsLast(minutes, 59, c.mi) && StuckAt(hours, c.h)
    ensures Fired(PlanOf(minutes, hours), c) == c.(mi := First(minutes)) && First(minutes) <= c.mi
  {
    MinutesMove(minutes, hours, c);
    FirstIsFirst(minutes, 59);
    var (c1, done) := TryMinutes(PlanOf(minutes, hours), c);
    SameAgain(hours, c1.h);
    HourMove(c1, 0);
    TriesHours(minutes, hours, c1, 0);
  }

  /** One firing moves to the least admissible later time, keeping the seconds, exactly when no field
      that has to move is stuck; otherwise it does not move forward at all. */
  lemma FiringIsSuccessor(minutes: CronField, hours: CronField, c: Clock)
    requires Parsed(minutes, 59) && !minutes.Every? && Parsed(hours, 23) && Admissible(minutes, hours, c)
    ensures var d := Fired(PlanOf(minutes, hours), c);
      && d.InRange() && d.s == c.s && d.days >= c.days
      && (Moving(minutes, hours, c.h, c.mi) <==> Successor(minutes, hours, c, d))
      && (Moving(minutes, hours, c.h, c.mi) <==> Onward(minutes, hours, c, d))
  {
    if Moving(minutes, hours, c.h, c.mi) {
      FiringMoves(minutes, hours, c);
    } else if StuckAt(minutes, c.mi) {
      MinuteSticks(minutes, hours, c);
    } else {
      HourSticks(minutes, hours, c);
    }
  }

  /** A minute field "every" never consults the hour field: from the last minute of an hour the step is
      right exactly when the following hour happens to be admitted. */
  lemma EveryMinuteExactly(hours: CronField, c: Clock)
    requires Parsed(hours, 23) && Admissible(Every, hours, c)
    ensures var d := Fired(PlanOf(Every, hours), c);
      && d.InRange() && d.s == c.s && d.days >= c.days
      && (Successor(Every, hours, c, d) <==> c.mi < 59 || Member(hours, (c.h + 1) % 24))
      && (Onward(Every, hours, c, d) <==> c.mi < 59 || Member(hours, (c.h + 1) % 24))
  {
    assert Fired(PlanOf(Every, hours), c) == AddMinutes(c, 1);
    OneMinute(c);
  }

  lemma OneMinute(c: Clock)
    requires c.InRange()
    ensures var d := AddMinutes(c, 1);
      d.InRange() && Index(d) == Index(c) + 1 && d.s == c.s && d.h == if c.mi == 59 then (c.h + 1) % 24 else c.h
  {
    AddMinutesConserves(c, 1);
  }

  // ---------------------------------------------------------------- schedules that keep going

  /** Whether a listed value has the two digits that `isValid` looks for. */
  predicate Legible(f: CronField, v: int) { f.List? ==> v >= 10 }

  lemma GateReads(f: CronField, hi: int, v: nat, n: nat)
    requires Parsed(f, hi)
    ensures IsValid(Compiled(f), Two(v), Two(n)) == Ok(true) <==> v == n && Member(f, n) && Legible(f, n)
  {
    GateOpensExactly(f, hi, v, n);
  }

  /** The schedules on which nothing is ever blocked: with every minute, every hour; else lists of at
      least two values, none below 10 and none twice. */
  predicate Keeps(minutes: CronField, hours: CronField) {
    if minutes.Every? then !hours.List? && forall h :: 0 <= h < 24 ==> Member(hours, h)
    else Lasting(minutes) && Lasting(hours)
  }

  predicate Lasting(f: CronField) {
    Proper(f) && (f.List? ==> forall i :: 0 <= i < |f.vs| ==> f.vs[i] >= 10)
  }

  lemma LastingMoves(f: CronField, v: int)
    requires Lasting(f) && Member(f, v)
    ensures Legible(f, v) && !StuckAt(f, v)
  {}

  /** A list that is not lasting has a value it is stuck at, or one that is not legible. */
  lemma Culprit(f: CronField, hi: int) returns (v: int)
    requires Parsed(f, hi) && !Lasting(f)
    ensures Member(f, v) && 0 <= v <= hi && (StuckAt(f, v) || !Legible(f, v))
  {
    if i :| 0 <= i < |f.vs| && f.vs[i] < 10 {
      v := f.vs[i];
    } else if |f.vs| == 1 {
      v := f.vs[0];
    } else {
      var i, j :| 0 <= i < j < |f.vs| && f.vs[i] >= f.vs[j];
      v := f.vs[i];
      TwiceSticks(f, hi, i, j);
    }
  }

  lemma TwiceSticks(f: CronField, hi: int, i: nat, j: nat)
    requires f.List? && Parsed(f, hi) && i < j < |f.vs| && f.vs[i] >= f.vs[j]
    ensures StuckAt(f, f.vs[i])
  {
    FirstIndex(f.vs, i);
    var k := IndexOf(f.vs, f.vs[i]);
    assert f.vs[k] <= f.vs[k + 1] <= f.vs[j];
  }

  lemma {:induction false} FirstIndex(vs: seq<int>, i: nat)
    requires i < |vs|
    ensures IndexOf(vs, vs[i]) <= i
  {
    if i > 0 && vs[0] != vs[i] {
      assert vs[1..][i - 1] == vs[i];
      FirstIndex(vs[1..], i - 1);
    }
  }

  lemma {:induction false} LastExists(f: CronField, hi: nat, top: nat) returns (v: int)
    requires Parsed(f, hi) && top <= hi && forall w :: top < w <= hi ==> !Member(f, w)
    ensures IsLast(f, hi, v) && 0 <= v <= hi
  {
    FirstIsFirst(f, hi);
    if Member(f, top) { v := top; } else { v := LastExists(f, hi, top - 1); }
  }

  /** An admitted hour that the hour after it is not. */
  lemma {:induction false} Gap(f: CronField, from: nat, to: nat) returns (h: nat)
    requires from < 24 && to < 24 && Member(f, from) && !Member(f, to)
    ensures h < 24 && Member(f, h) && !Member(f, (h + 1) % 24)
    decreases (to - from) % 24
  {
    var next := (from + 1) % 24;
    if Member(f, next) {
      h := Gap(f, next, to);
    } else {
      h := from;
    }
  }
}
