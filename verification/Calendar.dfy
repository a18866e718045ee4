/** The next run of a daily, weekly or monthly task (framework/taskmanager/taskmanager_calc.c), with
    localtime and mktime modelled as the Gregorian calendar at a fixed offset from UTC. */
module Calendar {
  import opened Arith

  const DAY := 86400

  // ----- the calendar

  /** Months are counted from January 1970, days from its first day. */
  predicate IsLeap(year: int)
  {
    year % 4 == 0 && (year % 100 != 0 || year % 400 == 0)
  }

  function MonthLength(month: int): (n: int)
    ensures 28 <= n <= 31
  {
    var m := month % 12;
    if m == 1 then (if IsLeap(1970 + month / 12) then 29 else 28)
    else if m == 3 || m == 5 || m == 8 || m == 10 then 30 else 31
  }

  function FirstDay(month: int): int
    decreases if month >= 0 then month else -month
  {
    if month == 0 then 0
    else if month > 0 then FirstDay(month - 1) + MonthLength(month - 1)
    else FirstDay(month + 1) - MonthLength(month)
  }

  lemma NextMonth(month: int)
    ensures FirstDay(month + 1) == FirstDay(month) + MonthLength(month)
  {
  }

  lemma {:induction false} MonthsOrdered(a: int, b: int)
    requires a <= b
    ensures FirstDay(a) + 28 * (b - a) <= FirstDay(b)
    decreases b - a
  {
    if a < b {
      NextMonth(a);
      MonthsOrdered(a + 1, b);
    }
  }

  /** The month of a day, looked for from a starting month. */
  function MonthFrom(day: int, month: int): (m: int)
    ensures FirstDay(m) <= day < FirstDay(m + 1)
    decreases if day < FirstDay(month) then 1 else 0, if day < FirstDay(month) then FirstDay(month) - day else day - FirstDay(month)
  {
    NextMonth(month);
    NextMonth(month - 1);
    if day < FirstDay(month) then MonthFrom(day, month - 1)
    else if day >= FirstDay(month + 1) then MonthFrom(day, month + 1)
    else month
  }

  function MonthOf(day: int): (m: int)
    ensures FirstDay(m) <= day < FirstDay(m + 1)
  {
    MonthFrom(day, 0)
  }

  lemma MonthUnique(day: int, m: int)
    requires FirstDay(m) <= day < FirstDay(m + 1)
    ensures MonthOf(day) == m
  {
    var n := MonthOf(day);
    if n < m {
      MonthsOrdered(n + 1, m);
    } else if m < n {
      MonthsOrdered(m + 1, n);
    }
  }

  // ----- the calendar in closed form

  /** The days of an ordinary year before each of its months, and its length. */
  const DAYS_BEFORE := [0, 31, 59, 90, 120, 151, 181, 212, 243, 273, 304, 334, 365]

  /** The leap days before a year, by the rule of the Gregorian calendar. */
  function LeapDays(year: int): int
  {
    (year - 1) / 4 - (year - 1) / 100 + (year - 1) / 400
  }

  lemma LeapStep(y: int)
    ensures LeapDays(y + 1) - LeapDays(y) == if IsLeap(y) then 1 else 0
  {
    MultipleStep(y, 4);
    MultipleStep(y, 100);
    MultipleStep(y, 400);
  }

  lemma MultipleStep(y: int, d: int)
    requires d > 1
    ensures y / d - (y - 1) / d == if y % d == 0 then 1 else 0
  {
    Divides(y, d);
    if y % d == 0 {
      Distribute(y / d, -1, d);
      DivUnique(y - 1, d, y / d - 1, d - 1);
    } else {
      DivUnique(y - 1, d, y / d, y % d - 1);
    }
  }

  lemma LengthOf(k: int, m: nat)
    requires m < 12
    ensures MonthLength(12 * k + m) == DAYS_BEFORE[m + 1] - DAYS_BEFORE[m] + if m == 1 && IsLeap(1970 + k) then 1 else 0
  {
    hide IsLeap;
    DivUnique(12 * k + m, 12, k, m);
  }

  lemma {:induction false} MonthsOfYear(k: int, m: nat)
    requires m <= 12
    ensures FirstDay(12 * k + m) == FirstDay(12 * k) + DAYS_BEFORE[m] + if m >= 2 && IsLeap(1970 + k) then 1 else 0
  {
    hide IsLeap, MonthLength, FirstDay;
    if m > 0 {
      MonthsOfYear(k, m - 1);
      NextMonth(12 * k + (m - 1));
      LengthOf(k, m - 1);
    }
  }

  lemma {:induction false} YearsFrom1970(k: int)
    ensures FirstDay(12 * k) == 365 * k + LeapDays(1970 + k) - LeapDays(1970)
    decreases if k >= 0 then k else -k
  {
    hide IsLeap, LeapDays, FirstDay, MonthLength;
    if k > 0 {
      YearsFrom1970(k - 1);
      MonthsOfYear(k - 1, 12);
      LeapStep(1970 + k - 1);
    } else if k < 0 {
      YearsFrom1970(k + 1);
      MonthsOfYear(k, 12);
      LeapStep(1970 + k);
    } else {
      FirstIsZero();
    }
  }

  lemma FirstIsZero()
    ensures FirstDay(0) == 0
  {
  }

  /** The day, counted from January 1, 1970, on which a month of a year starts. */
  lemma MonthStarts(year: int, m: nat)
    requires m < 12
    ensures FirstDay(12 * (year - 1970) + m)
         == 365 * (year - 1970) + LeapDays(year) - LeapDays(1970) + DAYS_BEFORE[m] + if m >= 2 && IsLeap(year) then 1 else 0
  {
    hide IsLeap, LeapDays, FirstDay, MonthLength;
    MonthsOfYear(year - 1970, m);
    YearsFrom1970(year - 1970);
  }

  /** January 1, 2000 was day 10957, a Saturday. */
  lemma Millennium()
    ensures FirstDay(360) == 10957 && Weekday(10957 * 86400, 0) == 6 && Weekday(10957 * 86400 - 1, 0) == 5
  {
    hide FirstDay, MonthLength, IsLeap;
    MonthStarts(2000, 0);
    InstantParts(10957, 0, 0);
    InstantParts(10956, DAY - 1, 0);
  }

  // ----- instants

  /** Instants are seconds since 1970 in UTC; zone is the offset of local time. */
  function LocalDay(t: int, zone: int): int
  {
    (t + zone) / DAY
  }

  function TimeOfDay(t: int, zone: int): int
  {
    (t + zone) % DAY
  }

  /** Sunday is 0; the first of January 1970 was a Thursday. */
  function Weekday(t: int, zone: int): int
  {
    (LocalDay(t, zone) + 4) % 7
  }

  function DayOfMonth(t: int, zone: int): int
  {
    LocalDay(t, zone) - FirstDay(MonthOf(LocalDay(t, zone))) + 1
  }

  function Instant(day: int, time: int, zone: int): int
  {
    day * DAY + time - zone
  }

  lemma InstantParts(day: int, time: int, zone: int)
    requires 0 <= time < DAY
    ensures LocalDay(Instant(day, time, zone), zone) == day && TimeOfDay(Instant(day, time, zone), zone) == time
  {
    DivUnique(Instant(day, time, zone) + zone, DAY, day, time);
  }

  lemma InstantOf(t: int, zone: int)
    ensures t == Instant(LocalDay(t, zone), TimeOfDay(t, zone), zone) && 0 <= TimeOfDay(t, zone) < DAY
  {
  }

  /** struct tm; year and month are one count of months. */
  datatype Tm = Tm(month: int, mday: int, hour: int, min: int, sec: int, wday: int)

  function LocalTime(t: int, zone: int): Tm
  {
    var day, time := LocalDay(t, zone), TimeOfDay(t, zone);
    Tm(MonthOf(day), DayOfMonth(t, zone), time / 3600, time / 60 % 60, time % 60, Weekday(t, zone))
  }

  /** What mktime returns. It takes any day number, counted on from the first day of the month, and
      also rewrites its argument to the local time of the result. */
  function MkTime(tm: Tm, zone: int): int
  {
    Instant(FirstDay(tm.month) + tm.mday - 1, tm.hour * 3600 + tm.min * 60 + tm.sec, zone)
  }

  lemma ClockParts(time: int)
    requires 0 <= time < DAY
    ensures time / 3600 * 3600 + time / 60 % 60 * 60 + time % 60 == time
  {
    Divides(time, 3600);
    Divides(time, 60);
    DivDiv(time, 60, 60);
    Divides(time / 60, 60);
  }

  /** mktime of a local time whose day was moved. */
  lemma MovedDay(t: int, zone: int, days: int)
    ensures var tm := LocalTime(t, zone);
            MkTime(tm.(mday := tm.mday + days), zone) == Instant(LocalDay(t, zone) + days, TimeOfDay(t, zone), zone)
  {
    hide FirstDay, MonthOf;
    ClockParts(TimeOfDay(t, zone));
  }

  lemma MkTimeMoved(tm: Tm, days: int, zone: int)
    ensures MkTime(tm.(mday := tm.mday + days), zone) == MkTime(tm, zone) + days * DAY
  {
    Distribute(FirstDay(tm.month) + tm.mday - 1, days, DAY);
  }

  lemma MovedMonth(t: int, zone: int)
    ensures var tm := LocalTime(t, zone);
            MkTime(tm.(month := tm.month + 1), zone) == Instant(FirstDay(tm.month + 1) + tm.mday - 1, TimeOfDay(t, zone), zone)
  {
    hide FirstDay, MonthOf;
    ClockParts(TimeOfDay(t, zone));
  }

  /** mktime of today's date at another time. */
  lemma SetClock(t: int, zone: int, hour: int, minute: int)
    ensures MkTime(LocalTime(t, zone).(hour := hour, min := minute, sec := 0), zone)
         == Instant(LocalDay(t, zone), hour * 3600 + minute * 60, zone)
  {
    hide FirstDay, MonthOf;
  }

  // ----- the least instant with a property

  ghost predicate At(t: int, zone: int, hour: int, minute: int)
  {
    TimeOfDay(t, zone) == hour * 3600 + minute * 60
  }

  /** Instants with one time of day are ordered as their days. */
  lemma SameTimeOrder(s: int, t: int, zone: int)
    requires TimeOfDay(s, zone) == TimeOfDay(t, zone)
    ensures s <= t <==> LocalDay(s, zone) <= LocalDay(t, zone)
  {
    InstantOf(s, zone);
    InstantOf(t, zone);
  }

  lemma LaterDay(s: int, t: int, zone: int)
    requires s <= t
    ensures LocalDay(s, zone) <= LocalDay(t, zone)
  {
  }

  /** taskmanager_calc_next_daily: the least instant after now at that time of day. */
  method NextDaily(base: int, clock: int, zone: int, hour: int, minute: int) returns (r: int)
    requires 0 <= hour < 24 && 0 <= minute < 60
    ensures var now := if base > 0 then base else clock;
            r > now && At(r, zone, hour, minute) && forall t :: t > now && At(t, zone, hour, minute) ==> r <= t
  {
    hide LocalTime, MkTime, LocalDay, TimeOfDay;
    var now := if base > 0 then base else clock;
    var tm := LocalTime(now, zone);
    tm := tm.(hour := hour, min := minute, sec := 0);
    ghost var day, time := LocalDay(now, zone), hour * 3600 + minute * 60;
    SetClock(now, zone, hour, minute);
    r := MkTime(tm, zone);
    MovedDay(r, zone, 1);
    InstantParts(day, time, zone);
    InstantParts(day + 1, time, zone);
    InstantOf(now, zone);
    tm := LocalTime(r, zone);
    if r <= now {
      tm := tm.(mday := tm.mday + 1);
      r := MkTime(tm, zone);
    }
    forall t | t > now && At(t, zone, hour, minute)
      ensures r <= t
    {
      InstantOf(t, zone);
      SameTimeOrder(r, t, zone);
    }
  }

  /** taskmanager_calc_next_weekly: the least instant after now on that weekday at that time of day. */
  method NextWeekly(base: int, clock: int, zone: int, weekday: int, hour: int, minute: int) returns (r: int)
    requires 0 <= hour < 24 && 0 <= minute < 60 && 0 <= weekday < 7
    ensures var now := if base > 0 then base else clock;
            && r > now && At(r, zone, hour, minute) && Weekday(r, zone) == weekday
            && forall t :: t > now && At(t, zone, hour, minute) && Weekday(t, zone) == weekday ==> r <= t
  {
    hide MkTime, LocalDay, TimeOfDay, FirstDay, MonthOf;
    var now := if base > 0 then base else clock;
    var tm := LocalTime(now, zone);
    var wday := tm.wday;
    assert wday == Weekday(now, zone);
    hide LocalTime;
    tm := tm.(hour := hour, min := minute, sec := 0);
    ghost var day, time := LocalDay(now, zone), hour * 3600 + minute * 60;
    var ahead := weekday - wday;
    SetClock(now, zone, hour, minute);
    InstantOf(now, zone);
    InstantParts(day, time, zone);
    if ahead < 0 {
      ahead := ahead + 7;
    } else if ahead == 0 {
      var target := MkTime(tm, zone);
      MovedDay(target, zone, 0);
      tm := LocalTime(target, zone);
      assert tm == tm.(mday := tm.mday + 0);
      if target <= now {
        ahead := 7;
      }
    }
    DaysAhead(day, weekday, ahead);
    MkTimeMoved(tm, ahead, zone);
    tm := tm.(mday := tm.mday + ahead);
    r := MkTime(tm, zone);
    InstantParts(day + ahead, time, zone);
    forall t | t > now && At(t, zone, hour, minute) && Weekday(t, zone) == weekday
      ensures r <= t
    {
      InstantOf(t, zone);
      SameTimeOrder(r, t, zone);
      LaterDay(now, t, zone);
      WeekdaysApart(day, LocalDay(t, zone), ahead);
    }
  }

  lemma DaysAhead(day: int, weekday: int, ahead: int)
    requires 0 <= weekday < 7
    requires ahead == weekday - (day + 4) % 7 || ahead == weekday - (day + 4) % 7 + 7
    ensures (day + ahead + 4) % 7 == weekday
  {
  }

  /** Days of one weekday are whole weeks apart. */
  lemma WeekdaysApart(day: int, d: int, ahead: int)
    requires day <= d && (d + 4) % 7 == (day + ahead + 4) % 7 && 0 <= ahead <= 7
    ensures day + ahead <= d || (ahead == 7 && d == day)
  {
  }

  // ----- monthly

  ghost predicate Monthly(t: int, zone: int, day: int, hour: int, minute: int)
  {
    At(t, zone, hour, minute) && DayOfMonth(t, zone) == day
  }

  ghost predicate LeastMonthly(r: int, now: int, zone: int, day: int, hour: int, minute: int)
  {
    r > now && Monthly(r, zone, day, hour, minute) && forall t :: t > now && Monthly(t, zone, day, hour, minute) ==> r <= t
  }

  /** The month the run falls in: that of now, if the day and time are still to come there. */
  function TargetMonth(now: int, zone: int, day: int, hour: int, minute: int): int
  {
    var month := MonthOf(LocalDay(now, zone));
    if Instant(FirstDay(month) + day - 1, hour * 3600 + minute * 60, zone) <= now then month + 1 else month
  }

  /** That day counted from the first of the target month: past its end it is in the month after. */
  function MonthlyInstant(now: int, zone: int, day: int, hour: int, minute: int): int
  {
    Instant(FirstDay(TargetMonth(now, zone, day, hour, minute)) + day - 1, hour * 3600 + minute * 60, zone)
  }

  /** taskmanager_calc_next_monthly: always after now, and the least instant on that day of the month
      at that time exactly when the month it falls in has that day; every month has days 1 to 28. */
  method NextMonthly(base: int, clock: int, zone: int, day: int, hour: int, minute: int) returns (r: int)
    requires 0 <= hour < 24 && 0 <= minute < 60 && 1 <= day <= 31
    ensures var now := if base > 0 then base else clock;
            && r == MonthlyInstant(now, zone, day, hour, minute) && r > now
            && (LeastMonthly(r, now, zone, day, hour, minute) <==> day <= MonthLength(TargetMonth(now, zone, day, hour, minute)))
            && (day <= 28 ==> LeastMonthly(r, now, zone, day, hour, minute))
  {
    hide FirstDay, MonthOf, MonthLength;
    var now := if base > 0 then base else clock;
    var tm := LocalTime(now, zone);
    ghost var month, time := tm.month, hour * 3600 + minute * 60;
    tm := tm.(hour := hour, min := minute, sec := 0, mday := day);
    var target := MkTime(tm, zone);
    tm := LocalTime(target, zone);
    InstantParts(FirstDay(month) + day - 1, time, zone);
    InstantParts(FirstDay(month + 1) + day - 1, time, zone);
    NextMonth(month);
    NextMonth(month + 1);
    if target <= now {
      LaterDay(target, now, zone);
      MonthUnique(FirstDay(month) + day - 1, month);
      MovedMonth(target, zone);
      tm := tm.(month := tm.month + 1);
      target := MkTime(tm, zone);
    }
    r := target;
    MonthlyLeast(r, now, zone, day, hour, minute);
  }

  /** The day and time in the target month, where days past its end run on into the next month. */
  lemma MonthlyLeast(r: int, now: int, zone: int, day: int, hour: int, minute: int)
    requires 0 <= hour < 24 && 0 <= minute < 60 && 1 <= day <= 31
    requires var m := TargetMonth(now, zone, day, hour, minute);
             r == Instant(FirstDay(m) + day - 1, hour * 3600 + minute * 60, zone)
    ensures r > now
    ensures LeastMonthly(r, now, zone, day, hour, minute) <==> day <= MonthLength(TargetMonth(now, zone, day, hour, minute))
  {
    hide FirstDay, MonthOf, MonthLength;
    var m, time := TargetMonth(now, zone, day, hour, minute), hour * 3600 + minute * 60;
    var month := MonthOf(LocalDay(now, zone));
    var d := FirstDay(m) + day - 1;
    InstantParts(d, time, zone);
    InstantOf(now, zone);
    NextMonth(m);
    NextMonth(m + 1);
    assert r > now;
    if day <= MonthLength(m) {
      MonthUnique(d, m);
      forall t | t > now && Monthly(t, zone, day, hour, minute)
        ensures r <= t
      {
        LaterDay(now, t, zone);
        SameTimeOrder(r, t, zone);
        MonthlyAfter(now, t, zone, day, hour, minute);
      }
    } else {
      MonthUnique(d, m + 1);
    }
  }

  /** An instant after now on that day is in the target month or later. */
  lemma MonthlyAfter(now: int, t: int, zone: int, day: int, hour: int, minute: int)
    requires t > now && Monthly(t, zone, day, hour, minute)
    ensures FirstDay(TargetMonth(now, zone, day, hour, minute)) + day - 1 <= LocalDay(t, zone)
  {
    hide FirstDay, MonthOf, MonthLength;
    var month, m := MonthOf(LocalDay(now, zone)), MonthOf(LocalDay(t, zone));
    var target := TargetMonth(now, zone, day, hour, minute);
    LaterDay(now, t, zone);
    InstantOf(t, zone);
    if m < month {
      MonthsOrdered(m + 1, month);
    }
    assert m >= month;
    assert LocalDay(t, zone) == FirstDay(m) + day - 1;
    if m == month {
      assert t == Instant(FirstDay(month) + day - 1, hour * 3600 + minute * 60, zone);
    }
    assert m >= target;
    MonthsOrdered(target, m);
  }

  /** At noon of January 31, 1970, a task for day 31 at midnight is next run on March 3. */
  lemma ShortMonth()
    ensures var now := 30 * DAY + 43200;
            var r := MonthlyInstant(now, 0, 31, 0, 0);
            r == 61 * DAY && DayOfMonth(r, 0) == 3 && MonthOf(LocalDay(r, 0)) == 2 && !LeastMonthly(r, now, 0, 31, 0, 0)
  {
    var now := 30 * DAY + 43200;
    assert FirstDay(1) == 31;
    assert FirstDay(2) == 59;
    assert FirstDay(3) == 90;
    assert LocalDay(now, 0) == 30 && LocalDay(61 * DAY, 0) == 61;
    MonthUnique(30, 0);
    MonthUnique(61, 2);
    assert TargetMonth(now, 0, 31, 0, 0) == 1;
    MonthlyLeast(61 * DAY, now, 0, 31, 0, 0);
  }
}
