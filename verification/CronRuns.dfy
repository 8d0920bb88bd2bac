/** CronTimer::run: whole runs of the timer, over dates and against the clock. */
module CronRuns {
  import opened Text
  import opened Decimal
  import opened Calendar
  import opened Dates
  import opened Cron

  // ---------------------------------------------------------------- a run in minutes alone

  /** `y` is the first minute after `x` that is due. */
  ghost predicate Succeeds(ok: int -> bool, x: int, y: int) {
    ok(y) && x < y && forall z :: ok(z) ==> z <= x || y <= z
  }

  /** A run seen in minutes: the minutes that are due, those with the digits the gate can read, and those
      from which the timer gets on to the next; then turn by turn what the clock shows, what is waited
      for, and whether the timer fires. */
  datatype Trace = Trace(ok: int -> bool, legible: int -> bool, free: int -> bool,
                         shown: nat -> int, awaited: nat -> int, fires: nat -> bool)
  {
    ghost predicate TurnAt(i: nat) {
      && shown(i) <= shown(i + 1) <= shown(i) + 1
      && (fires(i) <==> shown(i) == awaited(i) && ok(shown(i)) && legible(shown(i)))
      && (if fires(i) then free(shown(i)) <==> Succeeds(ok, shown(i), awaited(i + 1)) else awaited(i + 1) == awaited(i))
    }

    ghost predicate Turns() {
      (forall i: nat :: TurnAt(i)) && (forall x :: free(x) ==> legible(x)) && awaited(0) <= shown(0)
    }

    /** What is waited for at first is the minute shown, due and readable. */
    predicate Starts() { awaited(0) == shown(0) && ok(shown(0)) && legible(shown(0)) }

    ghost predicate FiredBefore(x: int, n: nat) { exists j: nat :: j < n && fires(j) && shown(j) == x }

    /** The timer gets on from every due minute from `a` to before `t`. */
    ghost predicate Clear(a: int, t: int) { forall u :: ok(u) && a <= u < t ==> free(u) }

    ghost predicate FiredUpTo(t: int, n: nat) { forall u :: ok(u) && shown(0) <= u <= t ==> FiredBefore(u, n) }

    /** Waiting for a minute up to `t`, with all due minutes before it fired in. */
    ghost predicate OnTrack(t: int, i: nat) {
      && shown(i) <= awaited(i) <= t && ok(awaited(i))
      && forall u :: ok(u) && shown(0) <= u < awaited(i) ==> FiredBefore(u, i)
    }
  }

  lemma {:induction false} ShownGrows(tr: Trace, i: nat, j: nat)
    requires tr.Turns() && i <= j
    ensures tr.shown(i) <= tr.shown(j)
  {
    if i < j {
      ShownGrows(tr, i, j - 1);
      assert tr.TurnAt(j - 1);
    }
  }

  lemma FiredStays(tr: Trace, x: int, i: nat)
    requires tr.FiredBefore(x, i)
    ensures tr.FiredBefore(x, i + 1)
  {
    var j: nat :| j < i && tr.fires(j) && tr.shown(j) == x;
  }

  /** Turn by turn, the timer stays on track until it has fired in minute `t`. */
  lemma {:induction false} StaysOnTrack(tr: Trace, t: int, i: nat)
    requires tr.Turns() && tr.ok(t) && tr.shown(0) <= t && tr.Starts() && tr.legible(t) && tr.Clear(tr.shown(0), t)
    ensures tr.FiredUpTo(t, i) || tr.OnTrack(t, i)
  {
    if i > 0 {
      StaysOnTrack(tr, t, i - 1);
      assert tr.TurnAt(i - 1);
      forall u | tr.FiredBefore(u, i - 1) ensures tr.FiredBefore(u, i) { FiredStays(tr, u, i - 1); }
      if !tr.FiredUpTo(t, i - 1) {
        ShownGrows(tr, 0, i - 1);
        TrackStep(tr, t, i - 1);
      }
    }
  }

  lemma TrackStep(tr: Trace, t: int, i: nat)
    requires tr.Turns() && tr.ok(t) && tr.legible(t) && tr.Clear(tr.shown(0), t) && tr.OnTrack(t, i)
    requires tr.shown(0) <= tr.shown(i) && tr.TurnAt(i)
    ensures tr.FiredUpTo(t, i + 1) || tr.OnTrack(t, i + 1)
  {
    var x := tr.awaited(i);
    forall u | tr.FiredBefore(u, i) ensures tr.FiredBefore(u, i + 1) { FiredStays(tr, u, i); }
    if tr.shown(i) == x {
      assert x < t ==> tr.free(x);
      assert tr.fires(i) && tr.FiredBefore(x, i + 1);
    }
  }

  /** The first due minute after `u`, found by looking at one after the other. */
  lemma {:induction false} NextDue(ok: int -> bool, u: int, from: int, t: int) returns (s: int)
    requires u < from <= t && ok(t) && forall z :: ok(z) && u < z ==> from <= z
    ensures Succeeds(ok, u, s) && s <= t
    decreases t - from
  {
    if ok(from) { s := from; } else { s := NextDue(ok, u, from + 1, t); }
  }

  /** After firing in a minute it does not get on from, the timer does not come to wait for the next one
      before that has passed. */
  lemma {:induction false} NeverAwaits(tr: Trace, u: int, s: int, i: nat, m: nat)
    requires tr.Turns() && tr.fires(i) && tr.shown(i) == u && !tr.free(u) && Succeeds(tr.ok, u, s)
    requires i < m && tr.shown(m) <= s
    ensures tr.awaited(m) != s
  {
    assert tr.TurnAt(m - 1);
    if m > i + 1 {
      ShownGrows(tr, i, m - 1);
      NeverAwaits(tr, u, s, i, m - 1);
    }
  }

  lemma FiredIsClear(tr: Trace, t: int, n: nat, u: int)
    requires tr.Turns() && tr.ok(t) && tr.FiredUpTo(t, n) && tr.ok(u) && tr.shown(0) <= u < t
    ensures tr.free(u)
  {
    if !tr.free(u) {
      var s := NextDue(tr.ok, u, u + 1, t);
      assert tr.FiredBefore(u, n) && tr.FiredBefore(s, n);
      var i: nat :| i < n && tr.fires(i) && tr.shown(i) == u;
      var j: nat :| j < n && tr.fires(j) && tr.shown(j) == s;
      assert tr.TurnAt(j);
      if j <= i { ShownGrows(tr, j, i); } else { NeverAwaits(tr, u, s, i, j); }
    }
  }

  /** A timer that starts late, or in a minute that is not due or cannot be read, waits for it ever after. */
  lemma {:induction false} StaysLate(tr: Trace, i: nat)
    requires tr.Turns() && !tr.Starts()
    ensures tr.awaited(i) == tr.awaited(0) && !tr.fires(i)
  {
    if i > 0 {
      StaysLate(tr, i - 1);
      assert tr.TurnAt(i - 1);
    }
    assert tr.TurnAt(i);
    ShownGrows(tr, 0, i);
  }

  /** The timer fires in all due minutes up to `t` exactly when it waits for the very first minute shown,
      can read `t`, and gets on from every due minute before it. */
  lemma TraceExactly(tr: Trace, t: int, n: nat)
    requires tr.Turns() && tr.ok(t) && tr.shown(0) <= t <= tr.shown(n)
    ensures tr.FiredUpTo(t, n + 1) <==> tr.Starts() && tr.legible(t) && tr.Clear(tr.shown(0), t)
  {
    if tr.FiredUpTo(t, n + 1) {
      assert tr.FiredBefore(t, n + 1);
      var i: nat :| i < n + 1 && tr.fires(i) && tr.shown(i) == t;
      assert tr.TurnAt(i);
      if !tr.Starts() { StaysLate(tr, i); }
      forall u | tr.ok(u) && tr.shown(0) <= u < t ensures tr.free(u) { FiredIsClear(tr, t, n + 1, u); }
    }
    if tr.Starts() && tr.legible(t) && tr.Clear(tr.shown(0), t) {
      StaysOnTrack(tr, t, n + 1);
      assert tr.TurnAt(n);
    }
  }

  /** From a minute it gets on from, the timer does not fire in that minute again. */
  lemma FiresOnce(tr: Trace, i: nat, j: nat)
    requires tr.Turns() && i < j && tr.fires(i) && tr.free(tr.shown(i)) && tr.fires(j)
    ensures tr.shown(i) < tr.shown(j)
  {
    ShownGrows(tr, i, j);
    assert tr.TurnAt(i) && tr.TurnAt(j);
    if tr.shown(j) == tr.shown(i) { AheadInMinute(tr, i, j); }
  }

  lemma {:induction false} AheadInMinute(tr: Trace, i: nat, j: nat)
    requires tr.Turns() && i < j && tr.fires(i) && tr.free(tr.shown(i)) && tr.shown(j) == tr.shown(i)
    ensures tr.awaited(j) > tr.shown(i)
  {
    assert tr.TurnAt(j - 1);
    if j > i + 1 {
      ShownGrows(tr, i, j - 1);
      AheadInMinute(tr, i, j - 1);
    }
  }

  // ---------------------------------------------------------------- a run looked at on time, in minutes

  ghost predicate WalkAt(ok: int -> bool, r: nat -> int, i: nat) { Succeeds(ok, r(i), r(i + 1)) }

  /** Each of the first `n` steps leads to the very next due minute. */
  ghost predicate Walks(ok: int -> bool, r: nat -> int, n: nat) { forall i: nat :: i < n ==> WalkAt(ok, r, i) }

  ghost predicate WalksTo(ok: int -> bool, r: nat -> int, t: int) { exists n: nat :: Walks(ok, r, n) && r(n) == t }

  ghost predicate GetsOn(ok: int -> bool, free: int -> bool, r: nat -> int, i: nat) {
    ok(r(i)) ==> (free(r(i)) <==> WalkAt(ok, r, i))
  }

  lemma {:induction false} WalkOn(ok: int -> bool, free: int -> bool, r: nat -> int, t: int, i: nat)
    requires (forall j: nat :: GetsOn(ok, free, r, j)) && ok(t) && forall u :: ok(u) && r(0) <= u < t ==> free(u)
    requires Walks(ok, r, i) && ok(r(i)) && r(0) <= r(i) <= t
    ensures WalksTo(ok, r, t)
    decreases t - r(i)
  {
    assert GetsOn(ok, free, r, i);
    if r(i) < t {
      assert free(r(i)) && WalkAt(ok, r, i);
      WalkOn(ok, free, r, t, i + 1);
    }
  }

  /** A walk passes every due minute on its way. */
  lemma {:induction false} WalkVisits(ok: int -> bool, r: nat -> int, n: nat, u: int) returns (i: nat)
    requires Walks(ok, r, n) && ok(u) && r(0) <= u < r(n)
    ensures i < n && r(i) == u
  {
    assert WalkAt(ok, r, n - 1);
    if u < r(n - 1) { i := WalkVisits(ok, r, n - 1, u); } else { i := n - 1; }
  }

  lemma WalkExactly(ok: int -> bool, free: int -> bool, r: nat -> int, t: int)
    requires (forall j: nat :: GetsOn(ok, free, r, j)) && ok(r(0)) && ok(t) && r(0) <= t
    ensures WalksTo(ok, r, t) <==> forall u :: ok(u) && r(0) <= u < t ==> free(u)
  {
    if forall u :: ok(u) && r(0) <= u < t ==> free(u) { WalkOn(ok, free, r, t, 0); }
    if WalksTo(ok, r, t) {
      var n: nat :| Walks(ok, r, n) && r(n) == t;
      forall u | ok(u) && r(0) <= u < t ensures free(u) {
        var i := WalkVisits(ok, r, n, u);
        assert GetsOn(ok, free, r, i) && WalkAt(ok, r, i);
      }
    }
  }

  // ---------------------------------------------------------------- what the clock shows

  const START := Civil(1970, 1, 1)

  function DayAt(n: nat): Civil {
    if n == 0 then START else Next(DayAt(n - 1), GREGORIAN)
  }

  /** What the clock shows in minute `x` of the time that begins with the year 1970. */
  function ShownAt(x: nat): Moment { Moment(DayAt(x / 1440), x / 60 % 24, x % 60, 0) }

  /** The clock shows `m` in minute `x`, at some second of it. */
  predicate Shows(x: nat, m: Moment) { 0 <= m.s <= 59 && m.(s := 0) == ShownAt(x) }

  lemma {:induction false} DayAtIs(n: nat)
    ensures Valid(DayAt(n), GREGORIAN) && DayAt(n).year >= 1970 && Ordinal(DayAt(n)) == Ordinal(START) + n
  {
    if n > 0 {
      DayAtIs(n - 1);
      OrdinalNext(DayAt(n - 1));
    }
  }

  lemma SplitMinute(x: int)
    ensures x == (x / 1440 * 24 + x / 60 % 24) * 60 + x % 60 && 0 <= x / 60 % 24 < 24 && 0 <= x % 60 < 60
  {
    assert x / 60 / 24 == x / 1440;
  }

  lemma JoinMinute(x: int, days: int, h: int, mi: int)
    requires 0 <= h < 24 && 0 <= mi < 60 && x == (days * 24 + h) * 60 + mi
    ensures x / 1440 == days && x / 60 % 24 == h && x % 60 == mi
  {
    assert x / 60 == days * 24 + h && x / 60 / 24 == x / 1440;
  }

  lemma ShowsOnce(x: nat, y: nat, m: Moment)
    requires Shows(x, m) && Shows(y, m)
    ensures x == y
  {
    DayAtIs(x / 1440);
    DayAtIs(y / 1440);
    SplitMinute(x);
    SplitMinute(y);
  }

  /** The minute in which the clock shows `m`, -1 if it never does. */
  ghost function MinuteOf(m: Moment): int {
    if exists x: nat :: Shows(x, m) then (var x: nat :| Shows(x, m); x) else -1
  }

  lemma MinuteIs(x: nat, m: Moment)
    ensures MinuteOf(m) == x <==> Shows(x, m)
  {
    if Shows(x, m) {
      var y: nat := MinuteOf(m);
      ShowsOnce(x, y, m);
    }
  }

  // ---------------------------------------------------------------- due minutes and one turn

  predicate Due(minutes: CronField, hours: CronField, x: int) {
    x >= 0 && Member(minutes, x % 60) && Member(hours, x / 60 % 24)
  }

  function DueIn(minutes: CronField, hours: CronField): int -> bool { x => Due(minutes, hours, x) }

  /** The gate can read the minute's digits. */
  predicate Readable(minutes: CronField, hours: CronField, x: int) {
    Legible(minutes, x % 60) && Legible(hours, x / 60 % 24)
  }

  /** The last due minute of its day. */
  predicate EndsDay(minutes: CronField, hours: CronField, x: int) {
    IsLast(minutes, 59, x % 60) && IsLast(hours, 23, x / 60 % 24)
  }

  /** When the day step leads from a date to the next, as `DayStepExactly` says: the minute shown meanwhile
      is the number of the month. */
  predicate DayPasses(c: Civil, late: int) {
    c.month != 12 && late == Next(c, GREGORIAN).month && LeapAgrees(c)
  }

  /** The due minutes from which the timer does not get on to the next. */
  predicate Blocked(minutes: CronField, hours: CronField, x: nat, late: int) {
    || !Readable(minutes, hours, x)
    || Halts(minutes, hours, x / 60 % 24, x % 60)
    || (EndsDay(minutes, hours, x) && !DayPasses(DayAt(x / 1440), late))
  }

  predicate Halts(minutes: CronField, hours: CronField, h: int, mi: int) {
    if minutes.Every? then mi == 59 && !Member(hours, (h + 1) % 24) else !Moving(minutes, hours, h, mi)
  }

  lemma OpensExactly(minutes: CronField, hours: CronField, x: nat, c: Moment)
    requires Parsed(minutes, 59) && Parsed(hours, 23) && InDay(c.h, c.mi, c.s)
    ensures Opens(PlanOf(minutes, hours), ShownAt(x), c) <==> Shows(x, c) && Due(minutes, hours, x) && Readable(minutes, hours, x)
  {
    GateReads(hours, 23, x / 60 % 24, c.h);
    GateReads(minutes, 59, x % 60, c.mi);
  }

  /** The step on the time of day alone: right unless it halts. */
  lemma FiredExactly(minutes: CronField, hours: CronField, c: Clock)
    requires Parsed(minutes, 59) && Parsed(hours, 23) && Admissible(minutes, hours, c)
    ensures var d := Fired(PlanOf(minutes, hours), c);
      && d.InRange() && d.days >= c.days
      && (!Halts(minutes, hours, c.h, c.mi) <==> Successor(minutes, hours, c, d))
      && (!Halts(minutes, hours, c.h, c.mi) <==> Onward(minutes, hours, c, d))
  {
    var d := Fired(PlanOf(minutes, hours), c);
    if minutes.Every? {
      EveryMinuteExactly(hours, c);
      Agree(minutes, hours, c, d, c.mi < 59 || Member(hours, (c.h + 1) % 24));
    } else {
      FiringIsSuccessor(minutes, hours, c);
      Agree(minutes, hours, c, d, Moving(minutes, hours, c.h, c.mi));
    }
  }

  lemma Agree(minutes: CronField, hours: CronField, c: Clock, d: Clock, free: bool)
    requires c.InRange() && (free <==> Successor(minutes, hours, c, d)) && (free <==> Onward(minutes, hours, c, d))
    requires free <==> if minutes.Every? then c.mi < 59 || Member(hours, (c.h + 1) % 24) else Moving(minutes, hours, c.h, c.mi)
    ensures !Halts(minutes, hours, c.h, c.mi) <==> Successor(minutes, hours, c, d)
    ensures !Halts(minutes, hours, c.h, c.mi) <==> Onward(minutes, hours, c, d)
  {}

  /** The earliest later time is on the next day exactly after the last time of a day. */
  lemma DaysTo(minutes: CronField, hours: CronField, c: Clock, d: Clock)
    requires Parsed(minutes, 59) && Parsed(hours, 23) && Admissible(minutes, hours, c) && Successor(minutes, hours, c, d)
    ensures d.days == c.days + if IsLast(minutes, 59, c.mi) && IsLast(hours, 23, c.h) then 1 else 0
  {
    FirstIsFirst(minutes, 59);
    FirstIsFirst(hours, 23);
    DaysFrom(minutes, hours, c, d, First(minutes), First(hours), IsLast(minutes, 59, c.mi) && IsLast(hours, 23, c.h));
  }

  lemma DaysFrom(minutes: CronField, hours: CronField, c: Clock, d: Clock, mi: int, h: int, ends: bool)
    requires Admissible(minutes, hours, Clock(c.days, h, mi, 0)) && Admissible(minutes, hours, c) && Successor(minutes, hours, c, d)
    requires ends <==> IsLast(minutes, 59, c.mi) && IsLast(hours, 23, c.h)
    ensures d.days == c.days + if ends then 1 else 0
  {
    Before(minutes, hours, c, d, Clock(c.days + 1, h, mi, 0));
    if ends {
      Beyond(minutes, hours, c, d);
    } else {
      var t := LaterToday(minutes, hours, c, mi);
      Before(minutes, hours, c, d, t);
    }
  }

  lemma LaterToday(minutes: CronField, hours: CronField, c: Clock, mi: int) returns (t: Clock)
    requires Admissible(minutes, hours, c) && Member(minutes, mi) && 0 <= mi <= 59
    requires !(IsLast(minutes, 59, c.mi) && IsLast(hours, 23, c.h))
    ensures Admissible(minutes, hours, t) && t.days == c.days && Index(c) < Index(t)
  {
    if w :| 0 <= w <= 59 && Member(minutes, w) && c.mi < w {
      t := c.(mi := w);
    } else {
      var w :| 0 <= w <= 23 && Member(hours, w) && c.h < w;
      t := Clock(c.days, w, mi, 0);
    }
  }

  lemma Before(minutes: CronField, hours: CronField, c: Clock, d: Clock, t: Clock)
    requires c.InRange() && Successor(minutes, hours, c, d) && Admissible(minutes, hours, t) && Index(c) < Index(t)
    ensures c.days <= d.days <= t.days
  {}

  lemma Beyond(minutes: CronField, hours: CronField, c: Clock, d: Clock)
    requires Admissible(minutes, hours, c) && Admissible(minutes, hours, d) && Index(c) < Index(d)
    requires IsLast(minutes, 59, c.mi) && IsLast(hours, 23, c.h)
    ensures c.days < d.days
  {
    assert d.mi <= c.mi && d.h <= c.h;
  }

  /** The time of day in minute `x`, on day 0. */
  function TimeIn(x: nat, s: int): Clock { Clock(0, x / 60 % 24, x % 60, s) }

  lemma NextMinute(minutes: CronField, hours: CronField, x: nat, s: int, d: Clock, y: int)
    requires Successor(minutes, hours, TimeIn(x, s), d) && y == x / 1440 * 1440 + Index(d)
    ensures Succeeds(DueIn(minutes, hours), x, y)
  {
    var ok := DueIn(minutes, hours);
    SplitMinute(x);
    JoinMinute(y, x / 1440 + d.days, d.h, d.mi);
    forall z | ok(z) ensures z <= x || y <= z {
      SplitMinute(z);
      assert Admissible(minutes, hours, Clock(z / 1440 - x / 1440, z / 60 % 24, z % 60, 0));
    }
  }

  /** `d` is what the clock shows in the first due minute after `x`. */
  ghost predicate Follows(minutes: CronField, hours: CronField, x: nat, d: Moment) {
    Succeeds(DueIn(minutes, hours), x, MinuteOf(d))
  }

  lemma OneSuccessor(ok: int -> bool, x: int, y: int, z: int)
    requires Succeeds(ok, x, y) && Succeeds(ok, x, z)
    ensures y == z
  {}

  lemma FollowsBy(minutes: CronField, hours: CronField, x: nat, y: nat, e: Moment)
    requires Succeeds(DueIn(minutes, hours), x, y)
    ensures Follows(minutes, hours, x, e) <==> Shows(y, e)
  {
    MinuteIs(y, e);
    if Follows(minutes, hours, x, e) { OneSuccessor(DueIn(minutes, hours), x, y, MinuteOf(e)); }
  }

  lemma ShowsByDate(y: nat, n: nat, e: Moment)
    requires InDay(e.h, e.mi, e.s) && y == (n * 24 + e.h) * 60 + e.mi
    ensures Shows(y, e) <==> e.date == DayAt(n)
  {
    JoinMinute(y, n, e.h, e.mi);
  }

  /** The date `e` that `days` handed to the day step lead to from day `n`. */
  predicate Lands(n: nat, days: int, e: Civil, passes: bool) {
    && (days <= 0 ==> e == DayAt(n))
    && (days == 1 ==> (e == DayAt(n + 1) <==> passes))
  }

  lemma DateLands(n: nat, days: int, late: int)
    ensures Lands(n, days, Stepped(DayAt(n), days, late), DayPasses(DayAt(n), late))
  {
    DayAtIs(n);
    if days == 1 { DayStepExactly(DayAt(n), late); }
  }

  lemma FollowsDay(minutes: CronField, hours: CronField, x: nat, s: int, d: Clock, e: Moment, n: nat)
    requires Due(minutes, hours, x) && d.InRange() && Successor(minutes, hours, TimeIn(x, s), d)
    requires n == x / 1440 + d.days && (e.h, e.mi, e.s) == (d.h, d.mi, d.s)
    ensures Follows(minutes, hours, x, e) <==> e.date == DayAt(n)
  {
    var y := x / 1440 * 1440 + Index(d);
    NextMinute(minutes, hours, x, s, d, y);
    FollowsBy(minutes, hours, x, y, e);
    ShowsByDate(y, n, e);
  }

  /** A step that is right by the time of day is right by the date unless the day step fails. */
  lemma FollowsDate(minutes: CronField, hours: CronField, x: nat, s: int, d: Clock, e: Moment, passes: bool)
    requires Parsed(minutes, 59) && Parsed(hours, 23) && Due(minutes, hours, x) && d.InRange() && 0 <= s <= 59
    requires Successor(minutes, hours, TimeIn(x, s), d) && (e.h, e.mi, e.s) == (d.h, d.mi, d.s)
    requires Lands(x / 1440, d.days, e.date, passes)
    ensures Follows(minutes, hours, x, e) <==> !EndsDay(minutes, hours, x) || passes
  {
    DaysTo(minutes, hours, TimeIn(x, s), d);
    FollowsDay(minutes, hours, x, s, d, e, x / 1440 + d.days);
  }

  /** A step that is not onward by the time of day is not right by any date. */
  lemma NotOnward(minutes: CronField, hours: CronField, x: nat, s: int, d: Clock, e: Moment, passes: bool)
    requires d.InRange() && d.days >= 0 && !Onward(minutes, hours, TimeIn(x, s), d)
    requires (e.h, e.mi, e.s) == (d.h, d.mi, d.s) && Lands(x / 1440, d.days, e.date, passes)
    ensures !Follows(minutes, hours, x, e)
  {
    if Follows(minutes, hours, x, e) {
      var y: nat := MinuteOf(e);
      MinuteIs(y, e);
      SplitMinute(x);
      SplitMinute(y);
      assert Admissible(minutes, hours, d);
      DayAtIs(x / 1440);
      DayAtIs(y / 1440);
    }
  }

  /** Where a firing leads, from where it leads by the time of day and by the date. */
  lemma FiringExactly(minutes: CronField, hours: CronField, x: nat, s: int, d: Clock, e: Moment, passes: bool)
    requires Parsed(minutes, 59) && Parsed(hours, 23) && Due(minutes, hours, x) && 0 <= s <= 59
    requires d == Fired(PlanOf(minutes, hours), TimeIn(x, s))
    requires (e.h, e.mi, e.s) == (d.h, d.mi, d.s) && Lands(x / 1440, d.days, e.date, passes)
    ensures Follows(minutes, hours, x, e) <==>
      !Halts(minutes, hours, x / 60 % 24, x % 60) && (!EndsDay(minutes, hours, x) || passes)
  {
    FiredExactly(minutes, hours, TimeIn(x, s));
    if Halts(minutes, hours, x / 60 % 24, x % 60) {
      NotOnward(minutes, hours, x, s, d, e, passes);
    } else {
      FollowsDate(minutes, hours, x, s, d, e, passes);
    }
  }

  /** When the clock reaches a due minute that the timer waits for, the turn leads to the very next due
      minute, date included, exactly when that minute is not blocked. */
  lemma TurnExactly(minutes: CronField, hours: CronField, x: nat, c: Moment, late: int)
    requires Parsed(minutes, 59) && Parsed(hours, 23) && Shows(x, c) && Due(minutes, hours, x)
    ensures Follows(minutes, hours, x, Turn(PlanOf(minutes, hours), ShownAt(x), c, late)) <==> !Blocked(minutes, hours, x, late)
  {
    OpensExactly(minutes, hours, x, c);
    MinuteIs(x, c);
    if Readable(minutes, hours, x) {
      var d := Fired(PlanOf(minutes, hours), TimeIn(x, c.s));
      DateLands(x / 1440, d.days, late);
      FiringExactly(minutes, hours, x, c.s, d, FiredAt(PlanOf(minutes, hours), c, late), DayPasses(DayAt(x / 1440), late));
    }
  }

  /** What is waited for keeps its time of day in range. */
  lemma TurnInDay(minutes: CronField, hours: CronField, x: nat, c: Moment, late: int)
    requires Parsed(minutes, 59) && Parsed(hours, 23) && InDay(c.h, c.mi, c.s)
    ensures var d := Turn(PlanOf(minutes, hours), ShownAt(x), c, late); InDay(d.h, d.mi, d.s)
  {
    OpensExactly(minutes, hours, x, c);
    if Opens(PlanOf(minutes, hours), ShownAt(x), c) { FiredExactly(minutes, hours, TimeIn(x, c.s)); }
  }

  // ---------------------------------------------------------------- a run looked at on time

  /** The times waited for when the clock is read in each of them; `late(x)` is the minute of the hour it
      shows when the firing in minute `x` looks again. */
  ghost function Run(k: Schedule, start: Moment, late: int -> int, n: nat): Moment {
    if n == 0 then start
    else
      var c := Run(k, start, late, n - 1);
      Turn(k, c, c, late(MinuteOf(c)))
  }

  ghost function RunMinutes(k: Schedule, start: Moment, late: int -> int): nat -> int {
    (n: nat) => MinuteOf(Run(k, start, late, n))
  }

  /** The minutes the timer gets on from. */
  function FreeIn(minutes: CronField, hours: CronField, late: int -> int): int -> bool {
    x => x >= 0 && !Blocked(minutes, hours, x, late(x))
  }

  /** No due minute from `a` to before `t` is blocked. */
  ghost predicate Unblocked(minutes: CronField, hours: CronField, late: int -> int, a: nat, t: nat) {
    forall u: nat :: Due(minutes, hours, u) && a <= u < t ==> !Blocked(minutes, hours, u, late(u))
  }

  lemma FreeIs(minutes: CronField, hours: CronField, late: int -> int, a: nat, t: nat)
    ensures var ok, free := DueIn(minutes, hours), FreeIn(minutes, hours, late);
      Unblocked(minutes, hours, late, a, t) <==> forall u :: ok(u) && a <= u < t ==> free(u)
  {
    var ok, free := DueIn(minutes, hours), FreeIn(minutes, hours, late);
    if forall u :: ok(u) && a <= u < t ==> free(u) {
      forall u: nat | Due(minutes, hours, u) && a <= u < t ensures !Blocked(minutes, hours, u, late(u)) {
        assert ok(u) && free(u);
      }
    }
  }

  lemma SameTurn(k: Schedule, x: nat, c: Moment, late: int)
    requires Shows(x, c)
    ensures Turn(k, c, c, late) == Turn(k, ShownAt(x), c, late)
  {}

  lemma RunGetsOn(minutes: CronField, hours: CronField, start: Moment, late: int -> int, i: nat)
    requires Parsed(minutes, 59) && Parsed(hours, 23)
    ensures GetsOn(DueIn(minutes, hours), FreeIn(minutes, hours, late), RunMinutes(PlanOf(minutes, hours), start, late), i)
  {
    var k := PlanOf(minutes, hours);
    var c := Run(k, start, late, i);
    var x := MinuteOf(c);
    if Due(minutes, hours, x) {
      MinuteIs(x, c);
      SameTurn(k, x, c, late(x));
      TurnExactly(minutes, hours, x, c, late(x));
      assert Run(k, start, late, i + 1) == Turn(k, c, c, late(x));
    }
  }

  /** From one due minute a run comes to a later one, with no due minute between left out, exactly when
      none on the way is blocked. */
  lemma RunSkipsNothing(minutes: CronField, hours: CronField, start: Moment, late: int -> int, x: nat, t: nat)
    requires Parsed(minutes, 59) && Parsed(hours, 23) && Shows(x, start)
    requires Due(minutes, hours, x) && Due(minutes, hours, t) && x <= t
    ensures WalksTo(DueIn(minutes, hours), RunMinutes(PlanOf(minutes, hours), start, late), t) <==>
      Unblocked(minutes, hours, late, x, t)
  {
    var ok, free, r := DueIn(minutes, hours), FreeIn(minutes, hours, late), RunMinutes(PlanOf(minutes, hours), start, late);
    forall i: nat ensures GetsOn(ok, free, r, i) { RunGetsOn(minutes, hours, start, late, i); }
    MinuteIs(x, start);
    WalkExactly(ok, free, r, t);
    FreeIs(minutes, hours, late, x, t);
  }

  // ---------------------------------------------------------------- the loop against the clock

  /** A timer started in minute `begun`, at a second of it; the minutes in which the clock is read, one turn
      of the loop after the other; and `late` as above (a minute has one day step at most). */
  datatype Course = Course(begun: nat, second: nat, wall: nat -> nat, late: int -> int)

  function Start(q: Course): Moment { ShownAt(q.begun).(s := q.second) }

  predicate TickAt(wall: nat -> nat, i: nat) { wall(i) <= wall(i + 1) <= wall(i) + 1 }

  /** Readings that come after the start and leave out no minute. */
  ghost predicate Ticks(q: Course) {
    q.second <= 59 && q.begun <= q.wall(0) && forall i: nat :: TickAt(q.wall, i)
  }

  /** The time waited for after `i` turns. */
  function Waiting(k: Schedule, q: Course, i: nat): Moment {
    if i == 0 then Start(q)
    else Turn(k, ShownAt(q.wall(i - 1)), Waiting(k, q, i - 1), q.late(q.wall(i - 1)))
  }

  /** Whether the timer fires on turn `i`. */
  predicate Fires(k: Schedule, q: Course, i: nat) { Opens(k, ShownAt(q.wall(i)), Waiting(k, q, i)) }

  lemma {:induction false} WaitingInDay(minutes: CronField, hours: CronField, q: Course, i: nat)
    requires Parsed(minutes, 59) && Parsed(hours, 23) && Ticks(q)
    ensures var c := Waiting(PlanOf(minutes, hours), q, i); InDay(c.h, c.mi, c.s)
  {
    if i > 0 {
      WaitingInDay(minutes, hours, q, i - 1);
      TurnInDay(minutes, hours, q.wall(i - 1), Waiting(PlanOf(minutes, hours), q, i - 1), q.late(q.wall(i - 1)));
    }
  }

  lemma FiresExactly(minutes: CronField, hours: CronField, q: Course, i: nat)
    requires Parsed(minutes, 59) && Parsed(hours, 23) && Ticks(q)
    ensures var x := q.wall(i); var c := Waiting(PlanOf(minutes, hours), q, i);
      Fires(PlanOf(minutes, hours), q, i) <==> MinuteOf(c) == x && Due(minutes, hours, x) && Readable(minutes, hours, x)
  {
    WaitingInDay(minutes, hours, q, i);
    OpensExactly(minutes, hours, q.wall(i), Waiting(PlanOf(minutes, hours), q, i));
    MinuteIs(q.wall(i), Waiting(PlanOf(minutes, hours), q, i));
  }

  ghost function TraceOf(minutes: CronField, hours: CronField, q: Course): Trace {
    Trace(DueIn(minutes, hours), x => Readable(minutes, hours, x), FreeIn(minutes, hours, q.late),
          (i: nat) => q.wall(i), (i: nat) => MinuteOf(Waiting(PlanOf(minutes, hours), q, i)),
          (i: nat) => Fires(PlanOf(minutes, hours), q, i))
  }

  lemma TraceTurnAt(minutes: CronField, hours: CronField, q: Course, i: nat)
    requires Parsed(minutes, 59) && Parsed(hours, 23) && Ticks(q)
    ensures TraceOf(minutes, hours, q).TurnAt(i)
  {
    var k := PlanOf(minutes, hours);
    var x, c := q.wall(i), Waiting(k, q, i);
    assert TickAt(q.wall, i);
    FiresExactly(minutes, hours, q, i);
    assert Waiting(k, q, i + 1) == Turn(k, ShownAt(x), c, q.late(x));
    if Fires(k, q, i) {
      MinuteIs(x, c);
      TurnExactly(minutes, hours, x, c, q.late(x));
    }
  }

  lemma TraceTurns(minutes: CronField, hours: CronField, q: Course)
    requires Parsed(minutes, 59) && Parsed(hours, 23) && Ticks(q)
    ensures TraceOf(minutes, hours, q).Turns() && TraceOf(minutes, hours, q).awaited(0) == q.begun
  {
    var tr := TraceOf(minutes, hours, q);
    forall i: nat ensures tr.TurnAt(i) { TraceTurnAt(minutes, hours, q, i); }
    forall x | tr.free(x) ensures tr.legible(x) { FreeIsReadable(minutes, hours, q.late, x); }
    MinuteIs(q.begun, Start(q));
    assert Waiting(PlanOf(minutes, hours), q, 0) == Start(q);
    assert tr.awaited(0) == q.begun && tr.shown(0) == q.wall(0);
  }

  lemma FreeIsReadable(minutes: CronField, hours: CronField, late: int -> int, x: int)
    requires FreeIn(minutes, hours, late)(x)
    ensures Readable(minutes, hours, x)
  {
    assert x >= 0 && !Blocked(minutes, hours, x, late(x));
  }

  lemma TraceReads(minutes: CronField, hours: CronField, q: Course, t: nat)
    requires TraceOf(minutes, hours, q).awaited(0) == q.begun
    ensures var tr := TraceOf(minutes, hours, q);
      && (tr.Starts() <==> q.begun == q.wall(0) && Due(minutes, hours, q.begun) && Readable(minutes, hours, q.begun))
      && tr.ok(t) == Due(minutes, hours, t) && tr.legible(t) == Readable(minutes, hours, t)
      && (tr.Clear(tr.shown(0), t) <==> Unblocked(minutes, hours, q.late, q.wall(0), t))
  {
    FreeIs(minutes, hours, q.late, q.wall(0), t);
  }

  ghost predicate FiredIn(k: Schedule, q: Course, u: nat, n: nat) {
    exists j: nat :: j <= n && Fires(k, q, j) && q.wall(j) == u
  }

  /** By turn `n` the timer has fired in every due minute from the first reading to `t`. */
  ghost predicate Punctual(minutes: CronField, hours: CronField, q: Course, t: nat, n: nat) {
    forall u: nat :: Due(minutes, hours, u) && q.wall(0) <= u <= t ==> FiredIn(PlanOf(minutes, hours), q, u, n)
  }

  lemma FiredInIs(minutes: CronField, hours: CronField, q: Course, u: nat, n: nat)
    ensures FiredIn(PlanOf(minutes, hours), q, u, n) <==> TraceOf(minutes, hours, q).FiredBefore(u, n + 1)
  {
    var k, tr := PlanOf(minutes, hours), TraceOf(minutes, hours, q);
    if FiredIn(k, q, u, n) {
      var j: nat :| j <= n && Fires(k, q, j) && q.wall(j) == u;
      assert tr.fires(j) && tr.shown(j) == u;
    }
    if tr.FiredBefore(u, n + 1) {
      var j: nat :| j < n + 1 && tr.fires(j) && tr.shown(j) == u;
      assert Fires(k, q, j) && q.wall(j) == u;
    }
  }

  lemma PunctualIs(minutes: CronField, hours: CronField, q: Course, t: nat, n: nat)
    ensures Punctual(minutes, hours, q, t, n) <==> TraceOf(minutes, hours, q).FiredUpTo(t, n + 1)
  {
    var k, tr := PlanOf(minutes, hours), TraceOf(minutes, hours, q);
    if Punctual(minutes, hours, q, t, n) {
      forall u | tr.ok(u) && tr.shown(0) <= u <= t ensures tr.FiredBefore(u, n + 1) {
        FiredInIs(minutes, hours, q, u, n);
      }
    }
    if tr.FiredUpTo(t, n + 1) {
      forall u: nat | Due(minutes, hours, u) && q.wall(0) <= u <= t ensures FiredIn(k, q, u, n) {
        assert tr.ok(u) && tr.shown(0) <= u;
        FiredInIs(minutes, hours, q, u, n);
      }
    }
  }

  /** The timer has fired in every due minute up to a due minute `t` the clock has reached exactly when it
      was started in the minute of its first reading, that minute is due, it and `t` can be read, and no due
      minute before `t` is blocked. */
  lemma PunctualExactly(minutes: CronField, hours: CronField, q: Course, t: nat, n: nat)
    requires Parsed(minutes, 59) && Parsed(hours, 23) && Ticks(q)
    requires Due(minutes, hours, t) && q.wall(0) <= t <= q.wall(n)
    ensures Punctual(minutes, hours, q, t, n) <==>
      && q.begun == q.wall(0) && Due(minutes, hours, q.begun) && Readable(minutes, hours, q.begun)
      && Readable(minutes, hours, t) && Unblocked(minutes, hours, q.late, q.wall(0), t)
  {
    TraceTurns(minutes, hours, q);
    TraceReads(minutes, hours, q, t);
    PunctualIs(minutes, hours, q, t, n);
    TraceExactly(TraceOf(minutes, hours, q), t, n);
  }

  /** It fires in due minutes only, and, where it gets on, in none of them twice. */
  lemma FiresWhenDue(minutes: CronField, hours: CronField, q: Course, i: nat, j: nat)
    requires Parsed(minutes, 59) && Parsed(hours, 23) && Ticks(q) && i < j
    requires Fires(PlanOf(minutes, hours), q, i) && Fires(PlanOf(minutes, hours), q, j)
    ensures Due(minutes, hours, q.wall(i)) && Due(minutes, hours, q.wall(j))
    ensures !Blocked(minutes, hours, q.wall(i), q.late(q.wall(i))) ==> q.wall(i) < q.wall(j)
  {
    FiresExactly(minutes, hours, q, i);
    FiresExactly(minutes, hours, q, j);
    TraceTurns(minutes, hours, q);
    if !Blocked(minutes, hours, q.wall(i), q.late(q.wall(i))) { FiresOnce(TraceOf(minutes, hours, q), i, j); }
  }

  // ---------------------------------------------------------------- timers that never fire

  /** The timer fires at all exactly when the clock still shows the minute it was started in when it is
      first read, and that minute is due and can be read. */
  lemma FiresAtAll(minutes: CronField, hours: CronField, q: Course)
    requires Parsed(minutes, 59) && Parsed(hours, 23) && Ticks(q)
    ensures (exists i: nat :: Fires(PlanOf(minutes, hours), q, i)) <==>
      q.begun == q.wall(0) && Due(minutes, hours, q.begun) && Readable(minutes, hours, q.begun)
  {
    var tr := TraceOf(minutes, hours, q);
    TraceTurns(minutes, hours, q);
    FiresExactly(minutes, hours, q, 0);
    if !tr.Starts() {
      forall i: nat ensures !Fires(PlanOf(minutes, hours), q, i) {
        StaysLate(tr, i);
        assert tr.fires(i) == Fires(PlanOf(minutes, hours), q, i);
      }
    }
  }

  /** Every minute of every hour, started at 10:00:59 and first read at 10:01: the timer never fires. */
  lemma TenOClockPasses(q: Course, i: nat)
    requires Ticks(q) && Start(q).h == 10 && Start(q).mi == 0 && q.second == 59 && q.wall(0) == q.begun + 1
    ensures !Fires(PlanOf(Every, Every), q, i)
  {
    FiresAtAll(Every, Every, q);
  }

  /** Minutes 5 and 20, started at a minute 5: the gate never opens. */
  lemma MinuteFiveStops(q: Course, i: nat)
    requires Ticks(q) && Start(q).mi == 5
    ensures !Fires(PlanOf(List([5, 20]), Every), q, i)
  {
    FiresAtAll(List([5, 20]), Every, q);
    assert !Legible(List([5, 20]), 5);
  }

  /** Every minute of hour 10, the only one listed: after the last minute the timer waits for the first
      minute of that hour, which has passed. */
  lemma HourTenGoesBack(minutes: CronField, hours: CronField, x: nat, c: Moment, late: int)
    requires minutes == Range(0, 59) && hours == List([10]) && Shows(x + 59, c) && c.h == 10 && c.mi == 59
    ensures var d := Turn(PlanOf(minutes, hours), ShownAt(x + 59), c, late); d == c.(mi := 0) && Shows(x, d)
  {
    HourBefore(x, c);
    HourSticks(minutes, hours, Clock(0, c.h, 59, c.s));
    TurnsSameDay(minutes, hours, x + 59, c, late, 0);
  }

  lemma TurnsSameDay(minutes: CronField, hours: CronField, x: nat, c: Moment, late: int, mi: int)
    requires Parsed(minutes, 59) && Parsed(hours, 23) && Shows(x, c) && Due(minutes, hours, x) && Readable(minutes, hours, x)
    requires Fired(PlanOf(minutes, hours), Clock(0, c.h, c.mi, c.s)) == Clock(0, c.h, mi, c.s)
    ensures Turn(PlanOf(minutes, hours), ShownAt(x), c, late) == c.(mi := mi)
  {
    SplitMinute(x);
    OpensExactly(minutes, hours, x, c);
  }

  lemma HourBefore(x: nat, c: Moment)
    requires Shows(x + 59, c) && c.mi == 59
    ensures Shows(x, c.(mi := 0)) && Due(Range(0, 59), List([c.h]), x + 59) && TimeIn(x + 59, c.s) == Clock(0, c.h, 59, c.s)
  {
    SplitMinute(x + 59);
    JoinMinute(x, (x + 59) / 1440, c.h, 0);
  }

  // ---------------------------------------------------------------- which schedules keep going, and until when

  /** On a schedule that keeps going nothing but the end of a day blocks, and on no other. */
  lemma KeepsExactly(minutes: CronField, hours: CronField)
    requires Parsed(minutes, 59) && Parsed(hours, 23)
    ensures Keeps(minutes, hours) <==>
      forall x: nat, late: int :: Due(minutes, hours, x) && Blocked(minutes, hours, x, late) ==>
        EndsDay(minutes, hours, x) && !DayPasses(DayAt(x / 1440), late)
  {
    if Keeps(minutes, hours) {
      forall x: nat, late: int | Due(minutes, hours, x) && Blocked(minutes, hours, x, late)
        ensures EndsDay(minutes, hours, x) && !DayPasses(DayAt(x / 1440), late)
      {
        KeepsOn(minutes, hours, x);
      }
    } else {
      var x := Obstacle(minutes, hours);
      assert DayPasses(DayAt(0), 1);
      assert Due(minutes, hours, x) && Blocked(minutes, hours, x, 1);
    }
  }

  lemma KeepsOn(minutes: CronField, hours: CronField, x: nat)
    requires Keeps(minutes, hours) && Due(minutes, hours, x)
    ensures Readable(minutes, hours, x) && !Halts(minutes, hours, x / 60 % 24, x % 60)
  {
    if !minutes.Every? {
      LastingMoves(minutes, x % 60);
      LastingMoves(hours, x / 60 % 24);
    }
  }

  /** On any other schedule every day has a time at which it stops; here that of the first day. */
  lemma Obstacle(minutes: CronField, hours: CronField) returns (x: nat)
    requires Parsed(minutes, 59) && Parsed(hours, 23) && !Keeps(minutes, hours)
    ensures x < 1440 && Due(minutes, hours, x)
    ensures !Readable(minutes, hours, x) || Halts(minutes, hours, x / 60 % 24, x % 60)
  {
    FirstIsFirst(minutes, 59);
    FirstIsFirst(hours, 23);
    var h, mi := First(hours), First(minutes);
    if minutes.Every? {
      if g :| 0 <= g < 24 && !Member(hours, g) {
        h := Gap(hours, First(hours), g);
        mi := 59;
      } else {
        h := 0;
      }
    } else if !Lasting(minutes) {
      mi := Culprit(minutes, 59);
    } else {
      h := Culprit(hours, 23);
      mi := LastExists(minutes, 59, 59);
    }
    x := h * 60 + mi;
    JoinMinute(x, 0, h, mi);
  }

  /** Every day that ends between the two minutes is one the day step gets past. */
  ghost predicate PassesMidnights(minutes: CronField, hours: CronField, late: int -> int, a: nat, t: nat) {
    forall u: nat :: Due(minutes, hours, u) && a <= u < t && EndsDay(minutes, hours, u) ==> DayPasses(DayAt(u / 1440), late(u))
  }

  /** A schedule that keeps going, started on time, is punctual until the first midnight that the day step
      does not get past. */
  lemma PunctualUntilMidnight(minutes: CronField, hours: CronField, q: Course, t: nat, n: nat)
    requires Parsed(minutes, 59) && Parsed(hours, 23) && Ticks(q) && Keeps(minutes, hours)
    requires Due(minutes, hours, t) && q.wall(0) <= t <= q.wall(n)
    ensures Punctual(minutes, hours, q, t, n) <==>
      q.begun == q.wall(0) && Due(minutes, hours, q.begun) && PassesMidnights(minutes, hours, q.late, q.wall(0), t)
  {
    PunctualExactly(minutes, hours, q, t, n);
    KeepsOn(minutes, hours, t);
    if Due(minutes, hours, q.begun) { KeepsOn(minutes, hours, q.begun); }
    UnblockedIs(minutes, hours, q.late, q.wall(0), t);
  }

  lemma UnblockedIs(minutes: CronField, hours: CronField, late: int -> int, a: nat, t: nat)
    requires Parsed(minutes, 59) && Parsed(hours, 23) && Keeps(minutes, hours)
    ensures Unblocked(minutes, hours, late, a, t) <==> PassesMidnights(minutes, hours, late, a, t)
  {
    forall u: nat | Due(minutes, hours, u)
      ensures Blocked(minutes, hours, u, late(u)) <==> EndsDay(minutes, hours, u) && !DayPasses(DayAt(u / 1440), late(u))
    {
      KeepsOn(minutes, hours, u);
    }
  }

  /** The firing in minute `u` looks at the clock again in that minute or the next. */
  predicate Prompt(late: int -> int, u: nat) { late(u) == u % 60 || late(u) == (u + 1) % 60 }

  /** When the last minute of the hour is past 12, that is no midnight at all. */
  lemma PunctualForADay(minutes: CronField, hours: CronField, q: Course, t: nat, n: nat, last: int)
    requires Parsed(minutes, 59) && Parsed(hours, 23) && Ticks(q) && Keeps(minutes, hours)
    requires Due(minutes, hours, t) && q.wall(0) <= t <= q.wall(n)
    requires IsLast(minutes, 59, last) && 12 < last <= 59 && forall u: nat :: Prompt(q.late, u)
    ensures Punctual(minutes, hours, q, t, n) <==>
      q.begun == q.wall(0) && Due(minutes, hours, q.begun) && NoDayEnds(minutes, hours, q.wall(0), t)
  {
    PunctualUntilMidnight(minutes, hours, q, t, n);
    if PassesMidnights(minutes, hours, q.late, q.wall(0), t) {
      forall u: nat | Due(minutes, hours, u) && q.wall(0) <= u < t ensures !EndsDay(minutes, hours, u) {
        assert Prompt(q.late, u);
        if EndsDay(minutes, hours, u) { PastTwelve(minutes, hours, u, q.late(u), last); }
      }
    }
  }

  ghost predicate NoDayEnds(minutes: CronField, hours: CronField, a: nat, t: nat) {
    forall u: nat :: Due(minutes, hours, u) && a <= u < t ==> !EndsDay(minutes, hours, u)
  }

  lemma PastTwelve(minutes: CronField, hours: CronField, u: nat, late: int, last: int)
    requires EndsDay(minutes, hours, u) && IsLast(minutes, 59, last) && 12 < last <= 59
    requires late == u % 60 || late == (u + 1) % 60
    ensures !DayPasses(DayAt(u / 1440), late)
  {
    LateMinute(u, last, late);
    DayAtIs(u / 1440);
    NoSuchMonth(DayAt(u / 1440), late);
  }

  lemma LateMinute(u: nat, last: int, late: int)
    requires u % 60 == last > 12 && (late == u % 60 || late == (u + 1) % 60)
    ensures late > 12 || late == 0
  {}

  lemma NoSuchMonth(c: Civil, late: int)
    requires Valid(c, GREGORIAN) && (late > 12 || late == 0)
    ensures !DayPasses(c, late)
  {}

  lemma {:induction false} December(n: nat) returns (m: nat)
    ensures n <= m && DayAt(m).month == 12
    decreases 12 - DayAt(n).month, 31 - DayAt(n).day
  {
    DayAtIs(n);
    if DayAt(n).month == 12 {
      m := n;
    } else {
      DayAtIs(n + 1);
      m := December(n + 1);
    }
  }

  lemma LastOfDay(minutes: CronField, hours: CronField, n: nat) returns (u: nat)
    requires Parsed(minutes, 59) && Parsed(hours, 23)
    ensures Due(minutes, hours, u) && EndsDay(minutes, hours, u) && u / 1440 == n
  {
    var h := LastExists(hours, 23, 23);
    var mi := LastExists(minutes, 59, 59);
    u := (n * 24 + h) * 60 + mi;
    JoinMinute(u, n, h, mi);
  }

  lemma FirstOfDay(minutes: CronField, hours: CronField, n: nat) returns (t: nat)
    requires Parsed(minutes, 59) && Parsed(hours, 23)
    ensures Due(minutes, hours, t) && t / 1440 == n
  {
    FirstIsFirst(minutes, 59);
    FirstIsFirst(hours, 23);
    t := (n * 24 + First(hours)) * 60 + First(minutes);
    JoinMinute(t, n, First(hours), First(minutes));
  }

  /** No timer is punctual for ever: there is a due minute up to which it cannot be, whatever the schedule
      and whatever the clock shows at the day steps, for it does not get past a day of December. */
  lemma NeverForEver(minutes: CronField, hours: CronField, q: Course) returns (t: nat)
    requires Parsed(minutes, 59) && Parsed(hours, 23) && Ticks(q)
    ensures Due(minutes, hours, t) && q.wall(0) < t
    ensures forall n: nat :: t <= q.wall(n) ==> !Punctual(minutes, hours, q, t, n)
  {
    var m := December(q.wall(0) / 1440 + 1);
    var u := LastOfDay(minutes, hours, m);
    t := FirstOfDay(minutes, hours, m + 1);
    assert q.wall(0) < u < t;
    assert Blocked(minutes, hours, u, q.late(u));
    forall n: nat | t <= q.wall(n) ensures !Punctual(minutes, hours, q, t, n) {
      PunctualExactly(minutes, hours, q, t, n);
    }
  }

  /** Every date from 1970 on is shown on some day. */
  lemma {:induction false} DayShown(c: Civil) returns (n: nat)
    requires Valid(c, GREGORIAN) && c.year >= 1970
    ensures DayAt(n) == c
    decreases c.year, c.month, c.day
  {
    if c == START {
      n := 0;
    } else {
      var p := if c.day > 1 then c.(day := c.day - 1)
               else if c.month > 1 then Civil(c.year, c.month - 1, MonthLength(c.month - 1, IsLeap(c.year)))
               else Civil(c.year - 1, 12, 31);
      n := DayShown(p);
      n := n + 1;
    }
  }

  /** Every time of day of every date from 1970 on is shown in some minute. */
  lemma MinuteShown(c: Moment) returns (x: nat)
    requires Valid(c.date, GREGORIAN) && c.date.year >= 1970 && InDay(c.h, c.mi, c.s)
    ensures Shows(x, c)
  {
    var n := DayShown(c.date);
    x := (n * 24 + c.h) * 60 + c.mi;
    JoinMinute(x, n, c.h, c.mi);
  }

  /** Where a firing leads at the end of a day. */
  lemma TurnsDay(minutes: CronField, hours: CronField, x: nat, c: Moment, late: int, h: int, mi: int)
    requires Parsed(minutes, 59) && Parsed(hours, 23) && Shows(x, c) && Due(minutes, hours, x) && Readable(minutes, hours, x)
    requires Fired(PlanOf(minutes, hours), Clock(0, c.h, c.mi, c.s)) == Clock(1, h, mi, c.s)
    ensures Turn(PlanOf(minutes, hours), ShownAt(x), c, late) == Moment(DayStep(c.date, 1, late), h, mi, c.s)
  {
    SplitMinute(x);
    OpensExactly(minutes, hours, x, c);
  }

  /** Every minute of every hour: on 3 April 2024 the last firing, at 23:59, writes 59 for the month, and
      no reading of the clock opens the gate again. */
  lemma AprilStops(c: Moment) returns (x: nat)
    requires c == Moment(Civil(2024, 4, 3), 23, 59, c.s) && 0 <= c.s <= 59
    ensures var k := PlanOf(Every, Every); var d := Turn(k, ShownAt(x), c, 59);
      Shows(x, c) && d == Moment(Civil(2024, 59, 4), 0, 0, c.s) && forall y: nat :: !Opens(k, ShownAt(y), d)
  {
    AprilStep(59);
    x := MinuteShown(c);
    LastMinute(c.s);
    TurnsDay(Every, Every, x, c, 59, 0, 0);
    forall y: nat ensures ShownAt(y).date.month != 59 { DayAtIs(y / 1440); }
  }

  lemma LastMinute(s: int)
    requires 0 <= s <= 59
    ensures Fired(PlanOf(Every, Every), Clock(0, 23, 59, s)) == Clock(1, 0, 0, s)
  {
    var c := Clock(0, 23, 59, s);
    assert Fired(PlanOf(Every, Every), c) == AddMinutes(c, 1);
    AddMinutesConserves(c, 1);
    TotalIsInjective(AddMinutes(c, 1), Clock(1, 0, 0, s));
  }

  /** The first ten minutes of every hour: after 23:10 on 3 April the timer waits for 4 October. */
  lemma OctoberNext(c: Moment) returns (x: nat)
    requires c == Moment(Civil(2024, 4, 3), 23, 10, c.s) && 0 <= c.s <= 59
    ensures Shows(x, c)
    ensures Turn(PlanOf(Range(0, 10), Every), ShownAt(x), c, 10) == Moment(Civil(2024, 10, 4), 0, 0, c.s)
  {
    AprilStep(10);
    x := MinuteShown(c);
    LastOfTen(c.s);
    TurnsDay(Range(0, 10), Every, x, c, 10, 0, 0);
  }

  lemma LastOfTen(s: int)
    requires 0 <= s <= 59
    ensures Fired(PlanOf(Range(0, 10), Every), Clock(0, 23, 10, s)) == Clock(1, 0, 0, s)
  {
    FiredIs(Range(0, 10), Every, Clock(0, 23, 10, s));
  }
}
