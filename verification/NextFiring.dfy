/**
 `Schedule.next` (internal/scriptrunner/cron.go): the first minute after a given time at
 which a schedule fires, looked for over 366 days.
 */
module NextFiring {
  import opened Wrappers
  import opened Calendar
  import opened Cron

  /** The first firing minute from `k` up to and including `last`. */
  ghost function Search(s: Schedule, k: nat, last: nat): Option<nat>
    requires s.WellFormed()
    decreases last - k
  {
    if k > last then None
    else if s.Fires(k) then Some(k)
    else if k == last then None
    else Search(s, k + 1, last)
  }

  /** The minute holding time `t`. */
  function MinuteOf(t: nat): nat {
    t / MINUTE
  }

  /** The start of minute `k`. */
  function TimeOf(k: nat): nat {
    k * MINUTE
  }

  /** `t.Truncate(time.Minute)`. */
  function Truncate(t: nat): nat {
    t - t % MINUTE
  }

  /** The time found, or `None` for Go's zero time. */
  ghost function NextOf(s: Schedule, after: nat): Option<nat>
    requires s.WellFormed()
  {
    match Search(s, MinuteOf(after) + 1, MinuteOf(after + HORIZON))
    case None => None
    case Some(k) => Some(TimeOf(k))
  }

  lemma MinuteOfDay(day: nat, clock: nat)
    requires clock < DAY_MINUTES
    ensures var k := day * DAY_MINUTES + clock;
      k / DAY_MINUTES == day && k % DAY_MINUTES == clock && k % 60 == clock % 60
  {
    MinuteOfHour(24 * day + clock / 60, clock % 60);
  }

  lemma MinuteOfHour(hours: nat, minute: nat)
    requires minute < 60
    ensures (60 * hours + minute) % 60 == minute
  {
  }

  lemma TruncateToMinute(t: nat)
    ensures Truncate(t) == TimeOf(MinuteOf(t))
  {
  }

  lemma MinuteGrid(k: nat, t: nat)
    ensures MinuteOf(TimeOf(k)) == k
    ensures TimeOf(k) <= t <==> k <= MinuteOf(t)
    ensures TimeOf(k + 1) == TimeOf(k) + MINUTE
  {
  }

  lemma HorizonMinutes(after: nat)
    ensures MinuteOf(after + HORIZON) == MinuteOf(after) + 366 * DAY_MINUTES
  {
  }

  method Next(s: Schedule, after: nat) returns (r: Option<nat>)
    requires s.WellFormed()
    ensures r == NextOf(s, after)
  {
    hide Schedule.WellFormed, Schedule.Fires, Search, MinuteOf, Truncate, TimeOf;
    var limit := after + HORIZON;
    var t := Truncate(after) + MINUTE;
    TruncateToMinute(after);
    MinuteGrid(MinuteOf(after), after);
    ghost var k: nat := MinuteOf(after) + 1;
    while t <= limit
      invariant t == TimeOf(k)
      invariant Search(s, k, MinuteOf(limit)) == Search(s, MinuteOf(after) + 1, MinuteOf(limit))
    {
      MinuteGrid(k, limit);
      SearchTurn(s, k, MinuteOf(limit));
      var found := Matching(s, MinuteOf(t));
      if found {
        return Some(t);
      }
      t := t + MINUTE;
      k := k + 1;
    }
    MinuteGrid(k, limit);
    SearchTurn(s, k, MinuteOf(limit));
    return None;
  }

  lemma SearchTurn(s: Schedule, k: nat, last: nat)
    requires s.WellFormed()
    ensures Search(s, k, last)
            == if k > last then None else if s.Fires(k) then Some(k) else Search(s, k + 1, last)
  {
    hide Schedule.WellFormed, Schedule.Fires;
  }

  /** The test of the search loop, cut short at the first part that does not match. */
  method Matching(s: Schedule, k: nat) returns (r: bool)
    requires s.WellFormed()
    ensures r == s.Fires(k)
  {
    var day, clock := k / DAY_MINUTES, k % DAY_MINUTES;
    MinuteOfDay(day, clock);
    r := s.months.Match(Civil(day).month);
    if r {
      r := s.MatchDay(day);
    }
    if r {
      r := s.hours.Match(clock / 60);
    }
    if r {
      r := s.minutes.Match(clock % 60);
    }
  }

  lemma {:induction false} SearchIsLeast(s: Schedule, k: nat, last: nat)
    requires s.WellFormed()
    ensures match Search(s, k, last)
      case None => forall j :: k <= j <= last ==> !s.Fires(j)
      case Some(n) => k <= n <= last && s.Fires(n) && forall j :: k <= j < n ==> !s.Fires(j)
    decreases last - k
  {
    hide Schedule.Fires, Schedule.WellFormed;
    if k >= last {
    } else {
      SearchIsLeast(s, k + 1, last);
    }
  }

  /** The answer is the least firing minute strictly after `after` and within 366 days, or there is none. */
  lemma NextIsLeast(s: Schedule, after: nat)
    requires s.WellFormed()
    ensures match NextOf(s, after)
      case None => forall k: nat :: after < TimeOf(k) <= after + HORIZON ==> !s.Fires(k)
      case Some(t) =>
        && t == TimeOf(MinuteOf(t)) && after < t <= after + HORIZON && s.Fires(MinuteOf(t))
        && forall k: nat :: after < TimeOf(k) < t ==> !s.Fires(k)
  {
    hide Schedule.Fires, Schedule.WellFormed, Search, MinuteOf, TimeOf;
    SearchIsLeast(s, MinuteOf(after) + 1, MinuteOf(after + HORIZON));
    forall k: nat ensures TimeOf(k) <= after <==> k <= MinuteOf(after) {
      MinuteGrid(k, after);
    }
    forall k: nat ensures TimeOf(k) <= after + HORIZON <==> k <= MinuteOf(after + HORIZON) {
      MinuteGrid(k, after + HORIZON);
    }
    match Search(s, MinuteOf(after) + 1, MinuteOf(after + HORIZON))
    case None =>
    case Some(n) =>
      forall k: nat ensures TimeOf(k) < TimeOf(n) <==> k < n {
        MinuteGrid(n, TimeOf(k));
        MinuteGrid(k, TimeOf(k));
      }
      MinuteGrid(n, after);
  }

  /** In nanoseconds: minutes of sixty seconds, looked for over 366 days. */
  lemma NextInNanoseconds(s: Schedule, after: nat)
    requires s.WellFormed()
    ensures match NextOf(s, after)
      case None =>
        forall k: nat :: s.Fires(k) ==> !(after < k * 60_000_000_000 <= after + 366 * 86_400_000_000_000)
      case Some(t) =>
        && t % 60_000_000_000 == 0 && after < t <= after + 366 * 86_400_000_000_000 && s.Fires(t / 60_000_000_000)
        && forall k: nat :: s.Fires(k) ==> !(after < k * 60_000_000_000 < t)
  {
    hide Schedule.Fires, Schedule.WellFormed, NextOf;
    NextIsLeast(s, after);
    forall k: nat ensures TimeOf(k) == k * 60_000_000_000 {
    }
  }

  // ---- when a firing always exists ----

  /** A date every year has, in a month and on a day the schedule names. */
  ghost predicate NamesYearlyDate(s: Schedule, m: nat, d: nat)
    requires s.WellFormed()
  {
    1 <= m <= 12 && 1 <= d <= CommonMonthDays(m) && s.months.Matches(m) && s.days.Matches(d)
  }

  /**
   Only days restricted and weekdays not can starve a schedule: then it must name a date
   that every year has, so not only 29 February, 31 April and the like.
   */
  ghost predicate FiresEveryYear(s: Schedule)
    requires s.WellFormed()
  {
    (s.days.Restricted() && !s.weekdays.Restricted()) ==> exists m: nat, d: nat :: NamesYearlyDate(s, m, d)
  }

  /** Any 366 days in a row hold seven days in a row within any given month. */
  lemma WeekInMonth(from: nat, m: nat) returns (n: nat)
    requires 1 <= m <= 12
    ensures from <= n && n + 6 < from + 366
    ensures forall k :: n <= k < n + 7 ==> Civil(k).month == m
  {
    hide Civil, Date.Number;
    var mid := DateRecurs(from, m, 22);
    var date := Civil(mid);
    n := if mid >= from + 6 then mid - 6 else mid;
    forall k | n <= k < n + 7 ensures Civil(k).month == m {
      DayMoved(date, k - mid);
    }
  }

  /** Six days either way from the 22nd are in the same month. */
  lemma DayMoved(date: Date, shift: int)
    requires date.Valid() && date.day == 22 && -6 <= shift <= 6
    ensures date.Number() + shift >= 0 && Civil(date.Number() + shift).month == date.month
  {
    var moved := Date(date.year, date.month, date.day + shift);
    assert moved.Valid() && moved.Number() == date.Number() + shift;
    CivilOfNumber(moved);
  }

  lemma WeekdayRecurs(n: nat, w: nat) returns (k: nat)
    requires w < 7
    ensures n <= k < n + 7 && Weekday(k) == w
  {
    k := n + (w + 6 - n) % 7;
  }

  /** A schedule that fires every year has a matching day among any 366 in a row. */
  lemma DayWithinYear(s: Schedule, from: nat) returns (n: nat)
    requires s.WellFormed() && FiresEveryYear(s)
    ensures from <= n < from + 366 && s.months.Matches(Civil(n).month) && s.MatchesDay(n)
  {
    hide Field.Matches, Field.WellFormed, Field.Restricted, Civil, Weekday;
    if s.days.Restricted() && !s.weekdays.Restricted() {
      var m: nat, d: nat :| NamesYearlyDate(s, m, d);
      n := DateRecurs(from, m, d);
      UnrestrictedMatchesAll(s.weekdays, Weekday(n));
    } else {
      var m := SomethingMatches(s.months);
      var w := SomethingMatches(s.weekdays);
      var week := WeekInMonth(from, m);
      n := WeekdayRecurs(week, w);
      if !s.days.Restricted() {
        UnrestrictedMatchesAll(s.days, Civil(n).day);
      }
    }
  }

  /** The first day on which the time of day `clock` comes after minute `k0`. */
  function FirstDay(k0: nat, clock: nat): nat {
    if clock > k0 % DAY_MINUTES then k0 / DAY_MINUTES else k0 / DAY_MINUTES + 1
  }

  /** The minutes searched are those of 366 days at any fixed time of day. */
  lemma WindowHoldsClock(k0: nat, clock: nat, day: nat)
    requires clock < DAY_MINUTES && FirstDay(k0, clock) <= day < FirstDay(k0, clock) + 366
    ensures k0 + 1 <= day * DAY_MINUTES + clock <= k0 + 366 * DAY_MINUTES
  {
  }

  /** A schedule fires at `h:mi` of a day exactly if month, day, hour and minute all match. */
  lemma FiresOn(s: Schedule, day: nat, h: nat, mi: nat)
    requires s.WellFormed() && h < 24 && mi < 60
    ensures s.Fires(1440 * day + (60 * h + mi))
            <==> s.months.Matches(Civil(day).month) && s.MatchesDay(day) && s.hours.Matches(h) && s.minutes.Matches(mi)
  {
    hide Field.Matches, Field.WellFormed, Civil, Schedule.MatchesDay;
    MinuteOfDay(day, 60 * h + mi);
    MinuteOfHour(h, mi);
  }

  lemma FiringWithinYear(s: Schedule, k0: nat) returns (k: nat)
    requires s.WellFormed() && FiresEveryYear(s)
    ensures k0 + 1 <= k <= k0 + 366 * DAY_MINUTES && s.Fires(k)
  {
    hide Field.Matches, Field.WellFormed, Civil, Schedule.MatchesDay, Schedule.Fires, FiresEveryYear, FirstDay;
    var h: nat := SomethingMatches(s.hours);
    var mi: nat := SomethingMatches(s.minutes);
    var clock := 60 * h + mi;
    var day := DayWithinYear(s, FirstDay(k0, clock));
    WindowHoldsClock(k0, clock, day);
    FiresOn(s, day, h, mi);
    k := day * DAY_MINUTES + clock;
  }

  lemma FiringExists(s: Schedule, after: nat)
    requires s.WellFormed() && FiresEveryYear(s)
    ensures NextOf(s, after).Some?
  {
    hide Schedule.Fires, Schedule.WellFormed, FiresEveryYear, Search, MinuteOf;
    var k := FiringWithinYear(s, MinuteOf(after));
    HorizonMinutes(after);
    SearchIsLeast(s, MinuteOf(after) + 1, MinuteOf(after + HORIZON));
  }

  /** There are two common years in a row as late as one likes. */
  lemma CommonYearsAfter(day: nat) returns (y: nat)
    ensures y >= 1 && !Leap(y) && !Leap(y + 1) && DaysBeforeYear(y) >= day
  {
    y := 4 * day + 1;
    YearsGrow(1, y);
  }

  /** A date in a common year is one that every year has. */
  lemma CommonDate(y: nat, m: nat)
    requires 1 <= m <= 12 && !Leap(y)
    ensures MonthDays(y, m) == CommonMonthDays(m)
  {
  }

  /** So a schedule found firing in two common years in a row names a yearly date. */
  lemma FiringInCommonYears(s: Schedule, y: nat, k: nat)
    requires s.WellFormed() && s.Fires(k) && y >= 1 && !Leap(y) && !Leap(y + 1)
    requires DaysBeforeYear(y) <= k / DAY_MINUTES < DaysBeforeYear(y) + 730
    requires s.days.Restricted() && !s.weekdays.Restricted()
    ensures exists m: nat, d: nat :: NamesYearlyDate(s, m, d)
  {
    var date := Civil(k / DAY_MINUTES);
    assert DaysBeforeYear(y + 2) == DaysBeforeYear(y) + 730;
    hide DaysBeforeYear, DaysBeforeMonth, Date.Number, Field.Matches, Field.WellFormed;
    DayInYear(date);
    if date.year < y {
      YearsGrow(date.year + 1, y);
    } else if date.year >= y + 2 {
      YearsGrow(y + 2, date.year);
    }
    CommonDate(date.year, date.month);
    assert NamesYearlyDate(s, date.month, date.day);
  }

  /** A schedule that does not fire every year is not found firing from the start of such years. */
  lemma StarvesInCommonYears(s: Schedule, y: nat)
    requires s.WellFormed() && !FiresEveryYear(s) && y >= 1 && !Leap(y) && !Leap(y + 1)
    ensures NextOf(s, TimeOf(DaysBeforeYear(y) * DAY_MINUTES)).None?
  {
    hide Schedule.Fires, Schedule.WellFormed, TimeOf, MinuteOf, DaysBeforeYear, Search;
    var k0 := DaysBeforeYear(y) * DAY_MINUTES;
    NextIsLeast(s, TimeOf(k0));
    if NextOf(s, TimeOf(k0)).Some? {
      var k := MinuteOf(NextOf(s, TimeOf(k0)).value);
      WithinHorizon(k0, k);
      FiringInCommonYears(s, y, k);
    }
  }

  lemma WithinHorizon(k0: nat, k: nat)
    requires TimeOf(k0) < TimeOf(k) <= TimeOf(k0) + HORIZON
    ensures k0 / DAY_MINUTES <= k / DAY_MINUTES <= k0 / DAY_MINUTES + 366 + 1
  {
  }

  /**
   The search succeeds from every starting time exactly when the schedule fires every year,
   and it makes no difference to leave out all starting times before some `from`.
   */
  lemma NeverZeroExactly(s: Schedule, from: nat)
    requires s.WellFormed()
    ensures (forall after: nat :: from <= after ==> NextOf(s, after).Some?) <==> FiresEveryYear(s)
  {
    if FiresEveryYear(s) {
      forall after: nat ensures NextOf(s, after).Some? {
        FiringExists(s, after);
      }
    } else {
      var y := CommonYearsAfter(from);
      StarvesInCommonYears(s, y);
      var after := TimeOf(DaysBeforeYear(y) * DAY_MINUTES);
      assert from <= after && NextOf(s, after).None?;
    }
  }

  /** So a schedule open to every month never finds nothing: January has 31 days. */
  lemma EveryMonthNeverZero(s: Schedule, after: nat)
    requires s.WellFormed() && !s.months.Restricted()
    ensures NextOf(s, after).Some?
  {
    UnrestrictedMatchesAll(s.months, 1);
    var d: nat := SomethingMatches(s.days);
    assert NamesYearlyDate(s, 1, d);
    FiringExists(s, after);
  }

  lemma OnlyStep(f: Field, v: int)
    requires f.WellFormed() && |f.steps| == 1 && f.Matches(v)
    ensures f.steps[0].Matches(v)
  {
  }

  /** Fires once, at one time of day, on 29 February. */
  ghost predicate LeapDayOnly(s: Schedule)
    requires s.WellFormed()
  {
    && !s.weekdays.Restricted()
    && s.days.steps == [Step(29, 29, 1)] && s.months.steps == [Step(2, 2, 1)]
    && |s.hours.steps| == 1 && s.hours.steps[0].start == s.hours.steps[0].end
    && |s.minutes.steps| == 1 && s.minutes.steps[0].start == s.minutes.steps[0].end
  }

  lemma LeapDayDate(s: Schedule, k: nat)
    requires s.WellFormed() && LeapDayOnly(s) && s.Fires(k)
    ensures Civil(k / DAY_MINUTES).month == 2 && Civil(k / DAY_MINUTES).day == 29
    ensures k % DAY_MINUTES == 60 * s.hours.steps[0].start + s.minutes.steps[0].start
  {
    hide Civil, Weekday, Field.WellFormed, Field.Matches;
    var date := Civil(k / DAY_MINUTES);
    OnlyStep(s.months, date.month);
    OnlyStep(s.days, date.day);
    OnlyStep(s.hours, k % DAY_MINUTES / 60);
    OnlyStep(s.minutes, k % 60);
    MinuteOfHour(24 * (k / DAY_MINUTES) + k % DAY_MINUTES / 60, k % DAY_MINUTES % 60);
  }

  lemma LeapDayPlace(d: Date)
    requires d.Valid() && d.month == 2 && d.day == 29
    ensures Leap(d.year) && d.Number() == DaysBeforeYear(d.year) + 59
  {
    MonthStart(d.year, 2);
    hide DaysBeforeYear, DaysBeforeMonth;
  }

  /** Four years at least from one leap year to the next. */
  lemma LeapYearsApart(y: nat, z: nat)
    requires 1 <= y < z && Leap(y) && Leap(z)
    ensures DaysBeforeYear(y) + 1461 <= DaysBeforeYear(z)
  {
    assert z >= y + 4;
    assert DaysBeforeYear(y + 2) == DaysBeforeYear(y) + 731;
    assert DaysBeforeYear(y + 4) == DaysBeforeYear(y) + 1461;
    YearsGrow(y + 4, z);
  }

  lemma LeapDaysApart(a: Date, b: Date)
    requires a.Valid() && b.Valid() && a.month == b.month == 2 && a.day == b.day == 29
    ensures a == b || a.Number() + 1461 <= b.Number() || b.Number() + 1461 <= a.Number()
  {
    hide Date.Number, DaysBeforeYear, DaysBeforeMonth;
    LeapDayPlace(a);
    LeapDayPlace(b);
    if a.year < b.year {
      LeapYearsApart(a.year, b.year);
    } else if b.year < a.year {
      LeapYearsApart(b.year, a.year);
    }
  }

  /** From one 29 February until the next is at most 366 days away, at the earliest. */
  const LEAP_GAP := (1461 - 366) * DAY_MINUTES * MINUTE

  /** For almost three years after such a firing, no next one is found. */
  lemma LeapDayNeverAgain(s: Schedule, k: nat, after: nat)
    requires s.WellFormed() && LeapDayOnly(s) && s.Fires(k)
    requires TimeOf(k) <= after < TimeOf(k) + LEAP_GAP
    ensures NextOf(s, after).None?
  {
    hide Schedule.WellFormed, Schedule.Fires, LeapDayOnly, Search, TimeOf, MinuteOf, Civil, Date.Number;
    NextIsLeast(s, after);
    if NextOf(s, after).Some? {
      var j := MinuteOf(NextOf(s, after).value);
      LeapDayDate(s, k);
      LeapDayDate(s, j);
      LeapDaysApart(Civil(k / DAY_MINUTES), Civil(j / DAY_MINUTES));
      LaterMinute(k, j);
    }
  }

  lemma LaterMinute(k: nat, j: nat)
    requires TimeOf(k) < TimeOf(j) < TimeOf(k) + LEAP_GAP + HORIZON
    ensures k < j < k + 1461 * DAY_MINUTES
    ensures k % DAY_MINUTES == j % DAY_MINUTES ==> k / DAY_MINUTES < j / DAY_MINUTES < k / DAY_MINUTES + 1461
  {
  }

  // ---- `0 0 29 2 *` ----

  /** The schedule of `LEAP_DAY`. */
  ghost predicate IsLeapDay(s: Schedule) {
    ScheduleOf(LEAP_DAY) == Some(s)
  }

  lemma LeapDayIsOnly(s: Schedule)
    requires IsLeapDay(s)
    ensures s.WellFormed() && LeapDayOnly(s) && !FiresEveryYear(s) && s.raw == LEAP_DAY
  {
    LeapDayParses();
    hide ScheduleOf;
    forall m: nat, d: nat ensures !NamesYearlyDate(s, m, d) {
      if NamesYearlyDate(s, m, d) {
        OnlyStep(s.months, m);
        OnlyStep(s.days, d);
      }
    }
  }

  lemma FirstStepMatches(f: Field, v: int)
    requires f.WellFormed() && f.steps[0].step > 0 && f.steps[0].Matches(v)
    ensures f.Matches(v)
  {
  }

  lemma LeapDayMatches(s: Schedule, n: nat)
    requires IsLeapDay(s) && s.WellFormed() && Civil(n).month == 2 && Civil(n).day == 29
    ensures s.months.Matches(2) && s.MatchesDay(n) && s.hours.Matches(0) && s.minutes.Matches(0)
  {
    LeapDayParses();
    hide ScheduleOf, Civil, Weekday, Field.Matches;
    FirstStepMatches(s.months, 2);
    FirstStepMatches(s.days, 29);
    FirstStepMatches(s.hours, 0);
    FirstStepMatches(s.minutes, 0);
    UnrestrictedMatchesAll(s.weekdays, Weekday(n));
  }

  /** It fires at the start of every 29 February. */
  lemma LeapDayFires(s: Schedule, y: nat)
    requires IsLeapDay(s) && y >= 1 && Leap(y)
    ensures Date(y, 2, 29).Valid() && s.WellFormed() && s.Fires(Date(y, 2, 29).Number() * DAY_MINUTES)
  {
    hide IsLeapDay, Date.Number, Civil, Field.WellFormed, Field.Matches, Schedule.Fires, Schedule.MatchesDay;
    var date := Date(y, 2, 29);
    CivilOfNumber(date);
    LeapDayIsOnly(s);
    LeapDayMatches(s, date.Number());
    FiresOn(s, date.Number(), 0, 0);
  }

  // ---- `32 16 * * *` ----

  /** The example of the documentation is accepted and fires once a day, at 16:32. */
  lemma DailyFires(k: nat)
    ensures var s := ScheduleOf("32 16 * * *");
      s.Some? && (s.value.Fires(k) <==> k % 1440 == 60 * 16 + 32)
  {
    hide ScheduleOf, Schedule.Fires;
    DailyParses();
    var day, clock := k / 1440, k % 1440;
    DailyFiresOn(ScheduleOf("32 16 * * *").value, day, clock / 60, clock % 60);
    assert k == 1440 * day + (60 * (clock / 60) + clock % 60);
  }

  lemma DailyFiresOn(s: Schedule, day: nat, h: nat, mi: nat)
    requires s.WellFormed() && h < 24 && mi < 60
    requires s.minutes == Field(0, 59, [Step(32, 32, 1)]) && s.hours == Field(0, 23, [Step(16, 16, 1)])
    requires s.days == Field(1, 31, [Step(1, 31, 1)]) && s.months == Field(1, 12, [Step(1, 12, 1)])
    requires s.weekdays == Field(0, 6, [Step(0, 6, 1)])
    ensures s.Fires(1440 * day + (60 * h + mi)) <==> h == 16 && mi == 32
  {
    hide Civil, Weekday, Schedule.MatchesDay, Schedule.Fires, Field.WellFormed, Field.Matches;
    FiresOn(s, day, h, mi);
    UnrestrictedMatchesAll(s.days, Civil(day).day);
    UnrestrictedMatchesAll(s.months, Civil(day).month);
    DayRule(s, day);
    SingleMatches(s.hours, 16, h);
    SingleMatches(s.minutes, 32, mi);
  }

  lemma SingleMatches(f: Field, v: int, value: int)
    requires f.WellFormed() && f.steps == [Step(v, v, 1)]
    ensures f.Matches(value) <==> value == v
  {
    if f.Matches(value) {
      OnlyStep(f, value);
    }
    if value == v {
      assert f.steps[0].Matches(v);
    }
  }

  /**
   For 1095 days, to the minute: a leap year followed by another four years later gets its
   next firing found again from the day on that is 366 days before it.
   */
  lemma LeapGapIsExact(s: Schedule, y: nat)
    requires IsLeapDay(s) && s.WellFormed() && y >= 1 && Leap(y) && Leap(y + 4)
    ensures Date(y, 2, 29).Valid() && Date(y + 4, 2, 29).Valid() && LEAP_GAP == 1095 * 86_400_000_000_000
    ensures var t := TimeOf(Date(y, 2, 29).Number() * DAY_MINUTES);
      var next := TimeOf(Date(y + 4, 2, 29).Number() * DAY_MINUTES);
      && next == t + 1461 * 86_400_000_000_000
      && (forall after: nat :: t <= after < t + LEAP_GAP ==> NextOf(s, after).None?)
      && NextOf(s, t + LEAP_GAP) == Some(next)
  {
    hide IsLeapDay, Date.Number, Civil, Field.WellFormed, Field.Matches, Schedule.Fires, Schedule.WellFormed;
    hide LeapDayOnly, FiresEveryYear, Leap;
    var a, b := Date(y, 2, 29), Date(y + 4, 2, 29);
    LeapDayFires(s, y);
    LeapDayFires(s, y + 4);
    LeapDayIsOnly(s);
    FourYears(y);
    var k, n := a.Number() * DAY_MINUTES, b.Number() * DAY_MINUTES;
    forall after: nat | TimeOf(k) <= after < TimeOf(k) + LEAP_GAP ensures NextOf(s, after).None? {
      LeapDayNeverAgain(s, k, after);
    }
    assert n == k + 1461 * DAY_MINUTES;
    FoundAtGap(s, k, n);
  }

  lemma FourYears(y: nat)
    requires y >= 1 && Leap(y) && Leap(y + 4)
    ensures Date(y, 2, 29).Valid() && Date(y + 4, 2, 29).Valid()
    ensures Date(y + 4, 2, 29).Number() == Date(y, 2, 29).Number() + 1461
  {
    FourYearDays(y);
    hide DaysBeforeYear, Date.Number;
    LeapDayPlace(Date(y, 2, 29));
    LeapDayPlace(Date(y + 4, 2, 29));
  }

  lemma FourYearDays(y: nat)
    requires y >= 1 && Leap(y)
    ensures DaysBeforeYear(y + 4) == DaysBeforeYear(y) + 1461
  {
    assert !Leap(y + 1) && !Leap(y + 2) && !Leap(y + 3);
    assert DaysBeforeYear(y + 2) == DaysBeforeYear(y) + 731;
  }

  lemma FoundAtGap(s: Schedule, k: nat, n: nat)
    requires s.WellFormed() && LeapDayOnly(s) && s.Fires(k) && s.Fires(n) && n == k + 1461 * DAY_MINUTES
    ensures NextOf(s, TimeOf(k) + LEAP_GAP) == Some(TimeOf(n))
  {
    hide Schedule.Fires, Schedule.WellFormed, LeapDayOnly, Search, NextOf, MinuteOf;
    var after := TimeOf(k) + LEAP_GAP;
    assert TimeOf(n) == after + HORIZON;
    NextIsLeast(s, after);
    hide TimeOf;
    assert NextOf(s, after).Some?;
    var t := NextOf(s, after).value;
    var j := MinuteOf(t);
    if t < TimeOf(n) {
      NoneBetween(s, k, j, n);
    }
  }

  lemma NoneBetween(s: Schedule, k: nat, j: nat, n: nat)
    requires s.WellFormed() && LeapDayOnly(s) && s.Fires(k) && s.Fires(j) && n == k + 1461 * DAY_MINUTES
    requires TimeOf(k) < TimeOf(j)
    ensures TimeOf(n) <= TimeOf(j)
  {
    hide Schedule.WellFormed, Schedule.Fires, LeapDayOnly, Civil, Date.Number;
    LeapDayDate(s, k);
    LeapDayDate(s, j);
    LeapDaysApart(Civil(k / DAY_MINUTES), Civil(j / DAY_MINUTES));
    SameClock(k, j);
  }

  lemma SameClock(k: nat, j: nat)
    requires TimeOf(k) < TimeOf(j) && k % DAY_MINUTES == j % DAY_MINUTES
    ensures k / DAY_MINUTES < j / DAY_MINUTES
    ensures j / DAY_MINUTES >= k / DAY_MINUTES + 1461 ==> j >= k + 1461 * DAY_MINUTES
  {
  }
}
