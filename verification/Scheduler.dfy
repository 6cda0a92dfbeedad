/**
 The scheduler of internal/scriptrunner/runner.go: the table of schedules, the timer loop
 with its one-place wake channel, and the callers that change the table beside it.

 The clock counts nanoseconds since the Unix epoch; stored firing times are Unix seconds.
 A zone is its offset in seconds, a whole number of minutes.
 */
module Scheduler {
  import opened Wrappers
  import opened Calendar
  import opened Cron
  import opened NextFiring

  type Zone = z: int | -86400 < z < 86400 && z % 60 == 0

  const SECOND := 1_000_000_000
  const MAX_DELAY := 60 * SECOND
  /** Seconds from 1 January of year 1 to the Unix epoch, both in UTC. */
  const UNIX_EPOCH := 62_135_596_800

  datatype Entry = Entry(cron: string, next: int)

  type Table = map<string, Entry>

  /** Unix time as local time since year 1. */
  function Local(z: Zone, now: nat): nat {
    now + (UNIX_EPOCH + z) * SECOND
  }

  function UnixSeconds(z: Zone, t: nat): int {
    t / SECOND - (UNIX_EPOCH + z)
  }

  /** The Unix second a schedule fires at next, `None` where `next` gives Go's zero time. */
  ghost function NextUnix(z: Zone, cron: string, now: nat): Option<int> {
    match ScheduleOf(cron)
    case None => None
    case Some(s) =>
      match NextOf(s, Local(z, now))
      case None => None
      case Some(t) => Some(UnixSeconds(z, t))
  }

  /** At this Unix second the stored expression fires. */
  ghost predicate FiresAt(z: Zone, cron: string, second: int) {
    var t := second + UNIX_EPOCH + z;
    ScheduleOf(cron).Some? && t >= 0 && t % 60 == 0 && ScheduleOf(cron).value.Fires(t / 60)
  }

  lemma MinutesAreSeconds(z: Zone, k: nat, now: nat)
    ensures UnixSeconds(z, TimeOf(k)) + UNIX_EPOCH + z == 60 * k
    ensures Local(z, now) < TimeOf(k) ==> now < UnixSeconds(z, TimeOf(k)) * SECOND
  {
    hide ScheduleOf;
    assert TimeOf(k) == 60 * k * SECOND;
    assert 60 * k * SECOND / SECOND == 60 * k;
  }

  /** What `next` gives is a firing of the schedule, later than the time asked about. */
  lemma NextUnixFires(z: Zone, cron: string, now: nat)
    requires NextUnix(z, cron, now).Some?
    ensures FiresAt(z, cron, NextUnix(z, cron, now).value)
    ensures NextUnix(z, cron, now).value * SECOND > now
  {
    hide TimeOf, MinuteOf, UnixSeconds, Local, Schedule.Fires, ScheduleOf, NextOf;
    var s := ScheduleOf(cron).value;
    NextIsLeast(s, Local(z, now));
    var k := MinuteOf(NextOf(s, Local(z, now)).value);
    MinutesAreSeconds(z, k, now);
  }

  // ---- what the loop reads and the callers write ----

  /** The smallest positive firing time stored, 0 when there is none. */
  ghost predicate IsEarliest(table: Table, e: int) {
    if e == 0 then forall n :: n in table ==> table[n].next <= 0
    else e > 0 && (exists n :: n in table && table[n].next == e)
         && forall n :: n in table && table[n].next > 0 ==> e <= table[n].next
  }

  lemma EarliestUnique(table: Table, d: int, e: int)
    requires IsEarliest(table, d) && IsEarliest(table, e)
    ensures d == e
  {
  }

  /** The wait computed from that time when the clock shows `at`. */
  function Delay(earliest: int, at: nat): (d: nat)
    ensures d <= MAX_DELAY
  {
    if earliest == 0 then MAX_DELAY
    else
      var delay := earliest * SECOND - at;
      if delay < 0 then 0 else if delay > MAX_DELAY then MAX_DELAY else delay
  }

  predicate IsDue(entry: Entry, now: nat) {
    entry.next > 0 && now / SECOND >= entry.next
  }

  /** The names a tick launches, in any order: due and not running. */
  ghost predicate IsDueList(table: Table, running: set<string>, now: nat, due: seq<string>) {
    && (forall i :: 0 <= i < |due| ==> due[i] in table && IsDue(table[due[i]], now) && due[i] !in running)
    && (forall n :: n in table && IsDue(table[n], now) && n !in running ==> n in due)
    && forall i, j :: 0 <= i < j < |due| ==> due[i] != due[j]
  }

  /** The table after a launch at tick time `now`: a missing entry reads as an empty one. */
  ghost function Advanced(z: Zone, table: Table, name: string, now: nat): (after: Table)
    ensures name in table ==> name in after
  {
    var entry := if name in table then table[name] else Entry("", 0);
    match NextUnix(z, entry.cron, now)
    case None => table
    case Some(t) => table[name := entry.(next := t)]
  }

  /** The expression accepted by `SetSchedule` at time `at`, as it is stored. */
  ghost function Accepted(z: Zone, cron: string, at: nat): Option<Entry> {
    match NextUnix(z, cron, at)
    case None => None
    case Some(t) => Some(Entry(ScheduleOf(cron).value.raw, t))
  }

  /** An accepted expression is stored with a firing of what is stored. */
  lemma AcceptedFires(z: Zone, cron: string, at: nat)
    requires Accepted(z, cron, at).Some?
    ensures var e := Accepted(z, cron, at).value; FiresAt(z, e.cron, e.next) && at < e.next * SECOND
  {
    hide ScheduleOf, NextUnix, FiresAt;
    NextUnixFires(z, cron, at);
    RawOfAccepted(z, cron, at);
    SameScheduleFires(z, cron, ScheduleOf(cron).value.raw, NextUnix(z, cron, at).value);
  }

  lemma RawOfAccepted(z: Zone, cron: string, at: nat)
    requires NextUnix(z, cron, at).Some?
    ensures ScheduleOf(cron).Some? && ScheduleOf(ScheduleOf(cron).value.raw) == ScheduleOf(cron)
  {
    hide ScheduleOf;
    RawReparses(cron);
  }

  lemma SameScheduleFires(z: Zone, cron: string, raw: string, second: int)
    requires ScheduleOf(cron) == ScheduleOf(raw) && FiresAt(z, cron, second)
    ensures FiresAt(z, raw, second)
  {
    hide ScheduleOf, Schedule.Fires;
  }

  /** A tick never creates an entry, and one it moves goes past the tick's time. */
  lemma AdvancedMoves(z: Zone, table: Table, name: string, now: nat)
    ensures var after := Advanced(z, table, name, now);
      && after.Keys == table.Keys
      && (forall n :: n in table && n != name ==> after[n] == table[n])
      && (name in table ==> after[name].cron == table[name].cron)
      && (name in table && NextUnix(z, table[name].cron, now).Some? ==>
            after[name].next == NextUnix(z, table[name].cron, now).value)
      && (name in table && NextUnix(z, table[name].cron, now).Some? ==>
            now < after[name].next * SECOND && FiresAt(z, after[name].cron, after[name].next))
      && (name in table && NextUnix(z, table[name].cron, now).None? ==> after == table)
  {
    EmptyIsNoSchedule();
    hide ScheduleOf, FiresAt;
    if name in table && NextUnix(z, table[name].cron, now).Some? {
      NextUnixFires(z, table[name].cron, now);
    }
  }

  lemma DueUntilMoved(entry: Entry, now: nat)
    ensures IsDue(entry, now) <==> 0 < entry.next && entry.next * SECOND <= now
  {
  }

  /**
   After a launch the entry is no longer due at the tick's time, so the firings missed so far
   come to one launch, exactly when a next firing is found. Where none is found within 366
   days the entry stays due, and every later tick launches the script again.
   */
  lemma CoalescesExactly(z: Zone, table: Table, name: string, now: nat)
    requires name in table && IsDue(table[name], now)
    ensures !IsDue(Advanced(z, table, name, now)[name], now) <==> NextUnix(z, table[name].cron, now).Some?
  {
    hide NextUnix;
    AdvancedMoves(z, table, name, now);
    hide Advanced;
    DueUntilMoved(Advanced(z, table, name, now)[name], now);
  }

  // ---- which expressions always coalesce ----

  /** A next firing is found at all times from `from` on exactly when the schedule fires every year. */
  lemma NextUnixAlwaysExactly(z: Zone, cron: string, from: nat)
    requires ScheduleOf(cron).Some?
    ensures (forall now: nat :: from <= now ==> NextUnix(z, cron, now).Some?)
            <==> FiresEveryYear(ScheduleOf(cron).value)
  {
    hide ScheduleOf, NextOf, FiresEveryYear, UnixSeconds;
    var s := ScheduleOf(cron).value;
    NeverZeroExactly(s, Local(z, from));
    if FiresEveryYear(s) {
      forall now: nat | from <= now ensures NextUnix(z, cron, now).Some? {
        assert Local(z, from) <= Local(z, now);
      }
    } else {
      var after: nat :| Local(z, from) <= after && NextOf(s, after).None?;
      var now: nat := after - (UNIX_EPOCH + z) * SECOND;
      assert Local(z, now) == after && from <= now;
      assert NextUnix(z, cron, now).None?;
    }
  }

  /** An entry with this expression, found due at `now`, is moved by the launch. */
  ghost predicate LaunchMoves(z: Zone, entry: Entry, now: nat) {
    IsDue(entry, now) ==> forall table: Table, name: string ::
      name in table && table[name] == entry ==> !IsDue(Advanced(z, table, name, now)[name], now)
  }

  lemma LaunchMovesExactly(z: Zone, entry: Entry, now: nat)
    requires IsDue(entry, now)
    ensures LaunchMoves(z, entry, now) <==> NextUnix(z, entry.cron, now).Some?
  {
    hide NextUnix, Advanced, IsDue;
    forall table: Table, name: string | name in table && table[name] == entry
      ensures !IsDue(Advanced(z, table, name, now)[name], now) <==> NextUnix(z, entry.cron, now).Some?
    {
      CoalescesExactly(z, table, name, now);
    }
    var table: Table := map["" := entry];
    assert "" in table && table[""] == entry;
  }

  /**
   Every launch of a due entry, whenever it comes, moves the entry, so that missed firings
   come to one launch, if and only if the expression fires every year.
   */
  lemma EveryLaunchMovesExactly(z: Zone, cron: string)
    requires ScheduleOf(cron).Some?
    ensures (forall next: int, now: nat :: LaunchMoves(z, Entry(cron, next), now))
            <==> FiresEveryYear(ScheduleOf(cron).value)
  {
    hide ScheduleOf, NextUnix, FiresEveryYear, LaunchMoves, IsDue;
    NextUnixAlwaysExactly(z, cron, SECOND);
    if FiresEveryYear(ScheduleOf(cron).value) {
      forall next: int, now: nat ensures LaunchMoves(z, Entry(cron, next), now) {
        if IsDue(Entry(cron, next), now) {
          DueSinceEpoch(Entry(cron, next), now);
          LaunchMovesExactly(z, Entry(cron, next), now);
        } else {
          NotDueMoves(z, Entry(cron, next), now);
        }
      }
    } else {
      var now: nat :| SECOND <= now && NextUnix(z, cron, now).None?;
      DueSinceEpoch(Entry(cron, 1), now);
      LaunchMovesExactly(z, Entry(cron, 1), now);
      assert !LaunchMoves(z, Entry(cron, 1), now);
    }
  }

  lemma DueSinceEpoch(entry: Entry, now: nat)
    ensures IsDue(entry, now) ==> SECOND <= now
    ensures entry.next == 1 && SECOND <= now ==> IsDue(entry, now)
  {
    DueUntilMoved(entry, now);
  }

  lemma NotDueMoves(z: Zone, entry: Entry, now: nat)
    requires !IsDue(entry, now)
    ensures LaunchMoves(z, entry, now)
  {
    hide Advanced, IsDue;
  }

  /** A schedule open to every month always coalesces. */
  lemma EveryMonthCoalesces(z: Zone, table: Table, name: string, now: nat)
    requires name in table && IsDue(table[name], now)
    requires ScheduleOf(table[name].cron).Some? && !ScheduleOf(table[name].cron).value.months.Restricted()
    ensures !IsDue(Advanced(z, table, name, now)[name], now)
  {
    EveryMonthNeverZero(ScheduleOf(table[name].cron).value, Local(z, now));
    CoalescesExactly(z, table, name, now);
  }

  /**
   But one meant for 29 February alone never does: from the firing on, for almost three
   years, every tick finds it due again.
   */
  lemma LeapDayNeverCoalesces(z: Zone, table: Table, name: string, k: nat, now: nat)
    requires name in table && ScheduleOf(table[name].cron).Some?
    requires var s := ScheduleOf(table[name].cron).value; LeapDayOnly(s) && s.Fires(k)
    requires 0 < table[name].next == UnixSeconds(z, TimeOf(k)) && TimeOf(k) <= Local(z, now) < TimeOf(k) + LEAP_GAP
    ensures IsDue(table[name], now) && Advanced(z, table, name, now) == table
  {
    LeapDayStaysDue(z, k, now, table[name]);
    hide Schedule.Fires, LeapDayOnly, UnixSeconds, Local, TimeOf;
    LeapDayNeverAgain(ScheduleOf(table[name].cron).value, k, Local(z, now));
    hide ScheduleOf;
  }

  lemma LeapDayStaysDue(z: Zone, k: nat, now: nat, entry: Entry)
    requires 0 < entry.next == UnixSeconds(z, TimeOf(k)) && TimeOf(k) <= Local(z, now)
    ensures IsDue(entry, now)
  {
    MinutesAreSeconds(z, k, now);
    DueUntilMoved(entry, now);
  }

  // ---- `0 0 29 2 *` ----

  /** `0 0 29 2 *` is accepted at some times, at others it finds no next firing. */
  lemma LeapDayCanBeMissed(z: Zone, from: nat)
    ensures ScheduleOf(LEAP_DAY).Some?
    ensures exists now: nat :: from <= now && NextUnix(z, LEAP_DAY, now).None?
  {
    LeapDayParses();
    hide ScheduleOf, NextUnix;
    LeapDayIsOnly(ScheduleOf(LEAP_DAY).value);
    NextUnixAlwaysExactly(z, LEAP_DAY, from);
  }

  /** The minute at which it fires in leap year `y`, and the Unix second of that minute. */
  function LeapMinute(y: nat): nat
    requires y >= 1 && Leap(y)
  {
    Date(y, 2, 29).Number() * DAY_MINUTES
  }

  function LeapSecond(z: Zone, y: nat): int
    requires y >= 1 && Leap(y)
  {
    UnixSeconds(z, TimeOf(LeapMinute(y)))
  }

  lemma LeapSecondIsLate(z: Zone, y: nat)
    requires y >= 1972 && Leap(y)
    ensures LeapSecond(z, y) > 0
    ensures var next := LeapSecond(z, y);
      forall now: nat :: Local(z, now) == TimeOf(LeapMinute(y)) + (now - next * SECOND)
  {
    YearsGrow(1, y);
    var date := Date(y, 2, 29);
    hide DaysBeforeYear, DaysBeforeMonth;
    MonthStart(y, 2);
    assert date.Number() >= 365 * 1971 + 59 && UNIX_EPOCH == 719162 * 86400;
    hide Date.Number;
    MinutesAreSeconds(z, LeapMinute(y), 0);
    hide UnixSeconds;
    assert TimeOf(LeapMinute(y)) == 60 * LeapMinute(y) * SECOND;
  }

  /**
   In every leap year from 1972 on, a second before that firing the expression is accepted
   and stored with it; from the firing on, the entry stays due and every tick launches the
   script again, for 1095 days.
   */
  lemma LeapDayRelaunched(z: Zone, y: nat, table: Table, name: string, now: nat)
    requires y >= 1972 && Leap(y)
    requires var next := LeapSecond(z, y); next * SECOND <= now < next * SECOND + LEAP_GAP
    requires name in table && table[name] == Entry(LEAP_DAY, LeapSecond(z, y))
    ensures var next := LeapSecond(z, y);
      next > 0 && Accepted(z, LEAP_DAY, next * SECOND - SECOND) == Some(Entry(LEAP_DAY, next))
    ensures IsDue(table[name], now) && Advanced(z, table, name, now) == table
  {
    hide ScheduleOf, LeapSecond, LeapMinute, Local, TimeOf, LeapDayOnly, Schedule.Fires, NextUnix, Advanced, IsDue;
    hide Schedule.WellFormed, FiresEveryYear, Accepted, Date.Number, UnixSeconds, Leap;
    LeapDayParses();
    LeapSecondIsLate(z, y);
    var s, next, k := ScheduleOf(LEAP_DAY).value, LeapSecond(z, y), LeapMinute(y);
    LeapDayIsOnly(s);
    LeapDayFires(s, y);
    assert s.Fires(k) by { LeapMinuteIs(y); }
    assert next == UnixSeconds(z, TimeOf(k)) by { LeapSecondIs(z, y); }
    LeapDayAccepted(z, s, next, k);
    LeapDayNeverCoalesces(z, table, name, k, now);
  }

  lemma LeapMinuteIs(y: nat)
    requires y >= 1 && Leap(y)
    ensures LeapMinute(y) == Date(y, 2, 29).Number() * DAY_MINUTES
  {
  }

  lemma LeapSecondIs(z: Zone, y: nat)
    requires y >= 1 && Leap(y)
    ensures LeapSecond(z, y) == UnixSeconds(z, TimeOf(LeapMinute(y)))
  {
    hide LeapMinute, UnixSeconds;
  }

  /** A firing one second away is the next one: firings are whole minutes. */
  lemma LeapDayAccepted(z: Zone, s: Schedule, next: int, k: nat)
    requires ScheduleOf(LEAP_DAY) == Some(s) && s.raw == LEAP_DAY && s.Fires(k)
    requires 0 < next == UnixSeconds(z, TimeOf(k))
    requires Local(z, next * SECOND - SECOND) == TimeOf(k) - SECOND
    ensures Accepted(z, LEAP_DAY, next * SECOND - SECOND) == Some(Entry(LEAP_DAY, next))
  {
    hide ScheduleOf, Schedule.Fires, Local, UnixSeconds;
    var after: nat := TimeOf(k) - SECOND;
    assert NextOf(s, after) == Some(TimeOf(k)) by {
      NextIsLeast(s, after);
      hide NextOf, MinuteOf;
      NothingBefore(k, after);
    }
    hide NextOf;
  }

  lemma NothingBefore(k: nat, after: nat)
    requires after + SECOND == TimeOf(k)
    ensures forall j: nat :: after < TimeOf(j) ==> k <= j
  {
  }

  // ---- in seconds ----

  /** The epoch is 1 January 1970, and local time is Unix time moved by the zone. */
  lemma EpochIs(z: Zone, second: nat)
    ensures Date(1970, 1, 1).Valid() && UNIX_EPOCH == Date(1970, 1, 1).Number() * 86400
    ensures Local(z, 1_000_000_000 * second) == (719162 * 86400 + z + second) * 1_000_000_000
    ensures UnixSeconds(z, Local(z, 1_000_000_000 * second)) == second
  {
    KnownDays();
    var n: nat := UNIX_EPOCH + z + second;
    assert n * 1_000_000_000 / 1_000_000_000 == n;
  }

  /** The wait is the time left, but at least nothing and at most sixty seconds. */
  lemma DelayIs(earliest: int, at: nat)
    requires earliest >= 0
    ensures earliest == 0 ==> Delay(earliest, at) == 60_000_000_000
    ensures earliest > 0 ==>
      var left := earliest * 1_000_000_000 - at;
      Delay(earliest, at) == if left < 0 then 0 else if left < 60_000_000_000 then left else 60_000_000_000
  {
  }

  /** An entry is due from its stored second on, unless it has none. */
  lemma DueIs(entry: Entry, now: nat)
    ensures IsDue(entry, now) <==> 0 < entry.next && entry.next * 1_000_000_000 <= now
  {
    DueUntilMoved(entry, now);
  }

  /** No firing is passed over: the second found is the first one the expression fires at. */
  lemma NextUnixIsFirst(z: Zone, cron: string, now: nat, second: int)
    requires FiresAt(z, cron, second) && now < second * SECOND
    ensures match NextUnix(z, cron, now)
      case None => now + 366 * 86400 * SECOND < second * SECOND
      case Some(t) => t <= second
  {
    hide ScheduleOf, NextOf, Schedule.Fires;
    var s, after := ScheduleOf(cron).value, Local(z, now);
    var k: nat := (second + UNIX_EPOCH + z) / 60;
    assert s.Fires(k) && 60 * k == second + UNIX_EPOCH + z;
    NextInNanoseconds(s, after);
    assert after < k * 60_000_000_000;
    match NextOf(s, after)
    case None =>
    case Some(t) =>
      assert t <= k * 60_000_000_000;
      SecondsInOrder(t, 60 * k);
  }

  lemma SecondsInOrder(t: nat, seconds: nat)
    requires t <= seconds * SECOND
    ensures t / SECOND <= seconds
  {
  }
}
