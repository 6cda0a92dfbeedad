/**
 Every interleaving of the scheduler loop with the callers that change the table
 (`SetSchedule`, `ClearSchedule`, `Delete`), with runs starting and finishing, and with the
 passing of time. A step is one critical section, channel operation or reading of the clock.
 */
module SchedulerLoop {
  import opened Wrappers
  import Cron
  import opened Scheduler

  /** Where the loop is. */
  datatype Phase =
    | Idle                                        // about to tick
    | Collecting(now: nat)                        // has read the clock, about to look for due entries
    | Ticking(now: nat, due: seq<string>)         // launching what was due
    | Launched(now: nat, due: seq<string>)        // the first of them runs, its entry is still to be moved
    | Measuring                                   // about to read the table for the next deadline
    | Measured(earliest: int)                     // has read it
    | Waiting(earliest: int, at: nat)             // has computed the wait from the clock at `at`
    | Blocked(earliest: int, at: nat, armed: nat) // timer armed at `armed`, waiting in the select
    | Stopped

  /**
   `writers` counts the callers that have changed the table and not yet called `wake`;
   `moved` remembers, for the entries last moved by a tick, the time of that tick.
   */
  datatype State = State(schedules: Table, running: set<string>, token: bool, writers: nat, clock: nat,
                         phase: Phase, moved: map<string, nat>)

  /** When the armed timer fires. */
  function Deadline(p: Phase): nat
    requires p.Blocked?
  {
    p.armed + Delay(p.earliest, p.at)
  }

  datatype Action =
    // callers
    | Set(name: string, cron: string, at: nat)
    | Drop(name: string)
    | Wake
    // the world
    | Elapse(until: nat)
    | Start(name: string)
    | Finish(name: string)
    // the loop
    | ReadNow
    | Collect(names: seq<string>)
    | LaunchFails
    | Launch
    | Move
    | EndTick
    | Measure(found: int)
    | ReadClock
    | Arm
    | TakeToken
    | TimerFires
    | Stop

  ghost predicate Enabled(z: Zone, s: State, a: Action) {
    match a
    case Set(name, cron, at) => at <= s.clock && Accepted(z, cron, at).Some?
    case Drop(name) => true
    case Wake => s.writers > 0
    case Elapse(until) => s.clock <= until
    case Start(name) => name !in s.running
    case Finish(name) => name in s.running
    case ReadNow => s.phase.Idle?
    case Collect(names) => s.phase.Collecting? && IsDueList(s.schedules, s.running, s.phase.now, names)
    case LaunchFails => s.phase.Ticking? && s.phase.due != []
    case Launch => s.phase.Ticking? && s.phase.due != [] && s.phase.due[0] !in s.running
    case Move => s.phase.Launched? && s.phase.due != []
    case EndTick => s.phase.Ticking? && s.phase.due == []
    case Measure(found) => s.phase.Measuring? && IsEarliest(s.schedules, found)
    case ReadClock => s.phase.Measured?
    case Arm => s.phase.Waiting?
    case TakeToken => s.phase.Blocked? && s.token
    case TimerFires => s.phase.Blocked? && Deadline(s.phase) <= s.clock
    case Stop => s.phase.Blocked?
  }

  ghost function Apply(z: Zone, s: State, a: Action): State
    requires Enabled(z, s, a)
  {
    match a
    case Set(name, cron, at) =>
      s.(schedules := s.schedules[name := Accepted(z, cron, at).value], writers := s.writers + 1,
         moved := s.moved - {name})
    case Drop(name) => s.(schedules := s.schedules - {name}, writers := s.writers + 1, moved := s.moved - {name})
    case Wake => s.(token := true, writers := s.writers - 1)
    case Elapse(until) => s.(clock := until)
    case Start(name) => s.(running := s.running + {name})
    case Finish(name) => s.(running := s.running - {name})
    case ReadNow => s.(phase := Collecting(s.clock))
    case Collect(names) => s.(phase := Ticking(s.phase.now, names))
    case LaunchFails => s.(phase := Ticking(s.phase.now, s.phase.due[1..]))
    case Launch => s.(running := s.running + {s.phase.due[0]}, phase := Launched(s.phase.now, s.phase.due))
    case Move =>
      var name, now := s.phase.due[0], s.phase.now;
      s.(schedules := Advanced(z, s.schedules, name, now),
         phase := Ticking(now, s.phase.due[1..]),
         moved := if name in s.schedules && NextUnix(z, s.schedules[name].cron, now).Some? then s.moved[name := now]
                  else s.moved)
    case EndTick => s.(phase := Measuring)
    case Measure(found) => s.(phase := Measured(found))
    case ReadClock => s.(phase := Waiting(s.phase.earliest, s.clock))
    case Arm => s.(phase := Blocked(s.phase.earliest, s.phase.at, s.clock))
    case TakeToken => s.(token := false, phase := Idle)
    case TimerFires => s.(phase := Idle)
    case Stop => s.(phase := Stopped)
  }

  ghost predicate Step(z: Zone, s: State, t: State) {
    exists a :: Enabled(z, s, a) && t == Apply(z, s, a)
  }

  /** The loop starts with whatever was stored, as long as it parses. */
  ghost predicate Init(s: State, stored: Table) {
    && s.schedules == stored && s.phase.Idle? && !s.token && s.writers == 0 && s.moved == map[]
    && forall n :: n in stored ==> Cron.ScheduleOf(stored[n].cron).Some?
  }

  ghost predicate IsRun(z: Zone, stored: Table, run: seq<State>) {
    run != [] && Init(run[0], stored) && forall i :: 0 <= i < |run| - 1 ==> Step(z, run[i], run[i + 1])
  }

  // ---- no wakeup is lost ----

  /** From the reading of the table on: nothing has changed since, or a wake is here or on its way. */
  ghost predicate NothingMissed(s: State) {
    s.phase.Measured? || s.phase.Waiting? || s.phase.Blocked? ==>
      s.token || s.writers > 0 || IsEarliest(s.schedules, s.phase.earliest)
  }

  ghost predicate ClockInOrder(s: State) {
    match s.phase
    case Collecting(now) => now <= s.clock
    case Ticking(now, due) => now <= s.clock
    case Launched(now, due) => now <= s.clock && due != []
    case Waiting(earliest, at) => at <= s.clock
    case Blocked(earliest, at, armed) => at <= armed <= s.clock
    case _ => true
  }

  lemma StepMissesNothing(z: Zone, s: State, a: Action)
    requires Enabled(z, s, a) && NothingMissed(s) && ClockInOrder(s)
    ensures NothingMissed(Apply(z, s, a)) && ClockInOrder(Apply(z, s, a))
  {
    hide IsDueList, Accepted, NextUnix, Advanced, IsEarliest, Delay;
  }

  // ---- what is stored fires, and missed firings coalesce ----

  /** As loaded, or with a firing of its own expression. */
  ghost predicate EntryFires(z: Zone, stored: Table, name: string, entry: Entry) {
    (name in stored && stored[name] == entry) || FiresAt(z, entry.cron, entry.next)
  }

  ghost predicate AllFire(z: Zone, stored: Table, table: Table) {
    forall n :: n in table ==> EntryFires(z, stored, n, table[n])
  }

  /** An entry moved by a tick stands at a firing past that tick. */
  ghost predicate MovedPast(z: Zone, s: State) {
    forall n :: n in s.moved ==>
      && n in s.schedules && s.moved[n] < s.schedules[n].next * SECOND
      && FiresAt(z, s.schedules[n].cron, s.schedules[n].next)
  }

  lemma SetKeeps(z: Zone, stored: Table, s: State, a: Action)
    requires a.Set? && Enabled(z, s, a) && AllFire(z, stored, s.schedules) && MovedPast(z, s)
    ensures AllFire(z, stored, Apply(z, s, a).schedules) && MovedPast(z, Apply(z, s, a))
  {
    hide Accepted, NextUnix, FiresAt;
    AcceptedFires(z, a.cron, a.at);
  }

  lemma MovedTableFires(z: Zone, stored: Table, table: Table, name: string, now: nat)
    requires AllFire(z, stored, table)
    ensures AllFire(z, stored, Advanced(z, table, name, now))
  {
    hide Advanced, NextUnix, FiresAt;
    AdvancedMoves(z, table, name, now);
    var after := Advanced(z, table, name, now);
    forall n | n in after ensures EntryFires(z, stored, n, after[n]) {
      assert n in table && EntryFires(z, stored, n, table[n]);
    }
  }

  lemma MoveKeeps(z: Zone, stored: Table, s: State)
    requires Enabled(z, s, Move) && AllFire(z, stored, s.schedules) && MovedPast(z, s)
    ensures AllFire(z, stored, Apply(z, s, Move).schedules) && MovedPast(z, Apply(z, s, Move))
  {
    hide Advanced, NextUnix, FiresAt, AllFire;
    var name, now := s.phase.due[0], s.phase.now;
    MovedTableFires(z, stored, s.schedules, name, now);
    AdvancedMoves(z, s.schedules, name, now);
  }

  lemma StepKeepsEntries(z: Zone, stored: Table, s: State, a: Action)
    requires Enabled(z, s, a) && AllFire(z, stored, s.schedules) && MovedPast(z, s)
    ensures AllFire(z, stored, Apply(z, s, a).schedules) && MovedPast(z, Apply(z, s, a))
  {
    hide IsDueList, Accepted, NextUnix, Advanced, IsEarliest, Delay, EntryFires, FiresAt;
    if a.Set? {
      SetKeeps(z, stored, s, a);
    } else if a.Move? {
      MoveKeeps(z, stored, s);
    }
  }

  ghost predicate Inv(z: Zone, stored: Table, s: State) {
    NothingMissed(s) && ClockInOrder(s) && AllFire(z, stored, s.schedules) && MovedPast(z, s)
  }

  lemma {:induction false} RunKeepsInv(z: Zone, stored: Table, run: seq<State>, i: nat)
    requires IsRun(z, stored, run) && i < |run|
    ensures Inv(z, stored, run[i])
  {
    hide Enabled, Apply, NothingMissed, ClockInOrder, AllFire, MovedPast;
    if i == 0 {
      InitInv(z, stored, run[0]);
    } else {
      RunKeepsInv(z, stored, run, i - 1);
      assert Step(z, run[i - 1], run[i - 1 + 1]);
      var a :| Enabled(z, run[i - 1], a) && run[i] == Apply(z, run[i - 1], a);
      StepMissesNothing(z, run[i - 1], a);
      StepKeepsEntries(z, stored, run[i - 1], a);
    }
  }

  lemma InitInv(z: Zone, stored: Table, s: State)
    requires Init(s, stored)
    ensures Inv(z, stored, s)
  {
    hide FiresAt;
  }

  /**
   No lost wakeup. Whenever the loop is blocked, a wake is pending or on its way, or the
   timer was set for the earliest firing now stored; and it always fires within 60 seconds.
   */
  lemma NoLostWakeup(z: Zone, stored: Table, run: seq<State>, i: nat)
    requires IsRun(z, stored, run) && i < |run| && run[i].phase.Blocked?
    ensures var s, p := run[i], run[i].phase;
      && p.at <= p.armed <= s.clock && Deadline(p) <= p.armed + MAX_DELAY
      && (s.token || s.writers > 0
          || (IsEarliest(s.schedules, p.earliest)
              && (p.earliest != 0 ==> Deadline(p) <= Later(p.earliest * SECOND, p.at) + (p.armed - p.at))))
  {
    hide IsEarliest;
    RunKeepsInv(z, stored, run, i);
  }

  function Later(a: int, b: int): int {
    if a < b then b else a
  }

  /**
   The timer fires no later than the earliest firing, or at once if that has passed, exactly
   when no time goes by between computing the wait and arming the timer, unless the wait
   is zero or is cut to 60 seconds with that much to spare.
   */
  lemma OnTimeExactly(p: Phase)
    requires p.Blocked? && p.at <= p.armed && p.earliest > 0
    ensures Deadline(p) <= Later(p.earliest * SECOND, p.armed)
            <==> p.armed == p.at || p.earliest * SECOND <= p.at || p.armed + MAX_DELAY <= p.earliest * SECOND
  {
  }

  lemma TakesStep(z: Zone, s: State, a: Action, t: State)
    requires Enabled(z, s, a) && t == Apply(z, s, a)
    ensures Step(z, s, t)
  {
  }

  /** A tick that finds nothing due. */
  lemma IdleTick(z: Zone, s: State)
    requires s.phase.Idle? && forall n :: n in s.schedules ==> !IsDue(s.schedules[n], s.clock)
    ensures var now := s.clock;
      && Step(z, s, s.(phase := Collecting(now)))
      && Step(z, s.(phase := Collecting(now)), s.(phase := Ticking(now, [])))
      && Step(z, s.(phase := Ticking(now, [])), s.(phase := Measuring))
  {
    TakesStep(z, s, ReadNow, s.(phase := Collecting(s.clock)));
    TakesStep(z, s.(phase := Collecting(s.clock)), Collect([]), s.(phase := Ticking(s.clock, [])));
    TakesStep(z, s.(phase := Ticking(s.clock, [])), EndTick, s.(phase := Measuring));
  }

  /** From there to the computed wait. */
  lemma ComputeWait(z: Zone, s: State, e: int)
    requires s.phase.Measuring? && IsEarliest(s.schedules, e)
    ensures Step(z, s, s.(phase := Measured(e)))
    ensures Step(z, s.(phase := Measured(e)), s.(phase := Waiting(e, s.clock)))
  {
    TakesStep(z, s, Measure(e), s.(phase := Measured(e)));
    TakesStep(z, s.(phase := Measured(e)), ReadClock, s.(phase := Waiting(e, s.clock)));
  }

  lemma TimePasses(z: Zone, s: State, until: nat)
    requires s.clock <= until
    ensures Step(z, s, s.(clock := until))
  {
    TakesStep(z, s, Elapse(until), s.(clock := until));
  }

  /** The timer can in fact be late: one nanosecond between the two is enough. */
  lemma TimerCanBeLate(z: Zone) returns (stored: Table, run: seq<State>)
    ensures IsRun(z, stored, run)
    ensures var s := run[|run| - 1];
      && s.phase.Blocked? && !s.token && s.writers == 0 && IsEarliest(s.schedules, 100)
      && s.clock == 100 * SECOND < Deadline(s.phase)
  {
    hide Cron.ScheduleOf, Step;
    Cron.LeapDayParses();
    stored := map["a.py" := Entry(Cron.LEAP_DAY, 100)];
    assert "a.py" in stored && stored["a.py"].next == 100;
    var t := 50 * SECOND;
    var s0 := State(stored, {}, false, 0, t, Idle, map[]);
    IdleTick(z, s0);
    var s3 := s0.(phase := Measuring);
    ComputeWait(z, s3, 100);
    var s5 := s0.(phase := Waiting(100, t));
    TimePasses(z, s5, t + 1);
    var s6 := s5.(clock := t + 1);
    var s7 := s6.(phase := Blocked(100, t, t + 1));
    TakesStep(z, s6, Arm, s7);
    TimePasses(z, s7, 100 * SECOND);
    run := [s0, s0.(phase := Collecting(t)), s0.(phase := Ticking(t, [])), s3, s0.(phase := Measured(100)), s5,
            s6, s7, s7.(clock := 100 * SECOND)];
  }

  /** Every entry ever written fires at its stored time; only loaded ones may not. */
  lemma StoredEntriesFire(z: Zone, stored: Table, run: seq<State>, i: nat, name: string)
    requires IsRun(z, stored, run) && i < |run| && name in run[i].schedules
    ensures EntryFires(z, stored, name, run[i].schedules[name])
  {
    RunKeepsInv(z, stored, run, i);
  }

  /**
   Missed firings coalesce: when a tick finds due an entry that an earlier tick moved, the
   stored expression fires after that tick and by now, at the time stored, so one launch
   stands for everything in between.
   */
  lemma LaunchesHaveFiringsBetween(z: Zone, stored: Table, run: seq<State>, i: nat, due: seq<string>, name: string)
    requires IsRun(z, stored, run) && i < |run| && Enabled(z, run[i], Collect(due))
    requires name in due && name in run[i].moved
    ensures var s := run[i];
      && name in s.schedules && s.moved[name] < s.schedules[name].next * SECOND <= s.phase.now <= s.clock
      && FiresAt(z, s.schedules[name].cron, s.schedules[name].next)
  {
    hide FiresAt;
    RunKeepsInv(z, stored, run, i);
    var k :| 0 <= k < |due| && due[k] == name;
    DueUntilMoved(run[i].schedules[name], run[i].phase.now);
  }

  /** Only `SetSchedule` adds an entry: no step of a tick brings back one cleared meanwhile. */
  lemma OnlySetCreates(z: Zone, s: State, a: Action)
    requires Enabled(z, s, a) && !a.Set?
    ensures Apply(z, s, a).schedules.Keys <= s.schedules.Keys
  {
    hide NextUnix, Advanced;
    if a.Move? {
      AdvancedMoves(z, s.schedules, s.phase.due[0], s.phase.now);
    }
  }

  lemma {:induction false} EarliestExists(table: Table, names: set<string>) returns (e: int)
    requires names <= table.Keys
    ensures e >= 0
    ensures if e == 0 then forall n :: n in names ==> table[n].next <= 0
            else (exists n :: n in names && table[n].next == e)
                 && forall n :: n in names && table[n].next > 0 ==> e <= table[n].next
    decreases |names|
  {
    if names == {} {
      e := 0;
    } else {
      SomeName(names);
      var m :| m in names;
      e := EarliestExists(table, names - {m});
      assert names == names - {m} + {m};
      if table[m].next > 0 && (e == 0 || table[m].next < e) {
        e := table[m].next;
      }
    }
  }

  lemma {:induction false} DueListExists(table: Table, running: set<string>, now: nat, names: set<string>)
    returns (due: seq<string>)
    requires names <= table.Keys
    ensures forall i :: 0 <= i < |due| ==> due[i] in names && IsDue(table[due[i]], now) && due[i] !in running
    ensures forall n :: n in names && IsDue(table[n], now) && n !in running ==> n in due
    ensures forall i, j :: 0 <= i < j < |due| ==> due[i] != due[j]
    decreases |names|
  {
    if names == {} {
      due := [];
    } else {
      SomeName(names);
      var m :| m in names;
      due := DueListExists(table, running, now, names - {m});
      assert names == names - {m} + {m};
      if IsDue(table[m], now) && m !in running {
        due := due + [m];
      }
    }
  }

  lemma SomeName(names: set<string>)
    ensures names != {} ==> exists n :: n in names
  {
    assert (forall n :: n !in names) ==> names == {};
  }

  /** Outside the select the loop always has a step of its own to take. */
  lemma NextAction(z: Zone, s: State) returns (a: Action)
    requires !s.phase.Blocked? && !s.phase.Stopped? && ClockInOrder(s)
    ensures LoopAction(a) && Enabled(z, s, a)
  {
    match s.phase
    case Idle => a := ReadNow;
    case Collecting(now) =>
      var due := DueListExists(s.schedules, s.running, now, s.schedules.Keys);
      a := Collect(due);
    case Ticking(now, due) => a := if due == [] then EndTick else LaunchFails;
    case Launched(now, due) => a := Move;
    case Measuring =>
      var e := EarliestExists(s.schedules, s.schedules.Keys);
      a := Measure(e);
    case Measured(e) => a := ReadClock;
    case Waiting(e, at) => a := Arm;
  }

  /** A blocked loop never hangs: its timer, which is at most a minute away, always lets it go on. */
  lemma LoopGoesOn(z: Zone, stored: Table, run: seq<State>, i: nat)
    requires IsRun(z, stored, run) && i < |run| && !run[i].phase.Stopped?
    ensures exists a: Action, until: nat :: LoopAction(a) && until <= run[i].clock + MAX_DELAY
              && Enabled(z, run[i], Elapse(until)) && Enabled(z, Apply(z, run[i], Elapse(until)), a)
  {
    RunKeepsInv(z, stored, run, i);
    var s := run[i];
    if s.phase.Blocked? {
      var until := if s.clock < Deadline(s.phase) then Deadline(s.phase) else s.clock;
      assert LoopAction(TimerFires) && Enabled(z, Apply(z, s, Elapse(until)), TimerFires);
    } else {
      var a := NextAction(z, s);
      assert LoopAction(a) && Enabled(z, Apply(z, s, Elapse(s.clock)), a);
    }
  }

  predicate LoopAction(a: Action) {
    !a.Set? && !a.Drop? && !a.Wake? && !a.Elapse? && !a.Start? && !a.Finish? && !a.Stop?
  }

  // ---- a tick, entry by entry ----

  /** A tick launches exactly the entries whose second has come and whose script is not running, each once. */
  lemma DueExactly(z: Zone, s: State, names: seq<string>, name: string)
    requires Enabled(z, s, Collect(names))
    ensures name in names
            <==> name in s.schedules && 0 < s.schedules[name].next
                 && s.schedules[name].next * 1_000_000_000 <= s.phase.now && name !in s.running
    ensures forall i, j :: 0 <= i < j < |names| ==> names[i] != names[j]
  {
    if name in s.schedules {
      DueIs(s.schedules[name], s.phase.now);
    }
    hide IsDue;
  }

  /**
   Behind the launch of a due entry the tick goes on with the rest, having changed no other
   entry; this one is no longer due at the tick's time exactly if a next firing was found.
   */
  lemma TickMoves(z: Zone, s: State, name: string)
    requires Enabled(z, s, Move) && s.phase.due[0] == name
    requires name in s.schedules && IsDue(s.schedules[name], s.phase.now)
    ensures var t := Apply(z, s, Move);
      && t.phase == Ticking(s.phase.now, s.phase.due[1..]) && t.running == s.running && t.token == s.token
      && t.schedules.Keys == s.schedules.Keys
      && (forall n :: n in s.schedules && n != name ==> t.schedules[n] == s.schedules[n])
      && t.schedules[name].cron == s.schedules[name].cron
      && (IsDue(t.schedules[name], s.phase.now) <==> NextUnix(z, s.schedules[name].cron, s.phase.now).None?)
  {
    hide NextUnix, Advanced, IsDue, Apply, IsDueList, IsEarliest, Accepted, Delay;
    MoveIs(z, s);
    EntryMoves(z, s.schedules, name, s.phase.now);
  }

  lemma EntryMoves(z: Zone, table: Table, name: string, now: nat)
    requires name in table && IsDue(table[name], now)
    ensures var after := Advanced(z, table, name, now);
      && after.Keys == table.Keys
      && (forall n :: n in table && n != name ==> after[n] == table[n])
      && after[name].cron == table[name].cron
      && (IsDue(after[name], now) <==> NextUnix(z, table[name].cron, now).None?)
  {
    hide NextUnix, Advanced, IsDue, FiresAt;
    AdvancedMoves(z, table, name, now);
    CoalescesExactly(z, table, name, now);
  }

  lemma MoveIs(z: Zone, s: State)
    requires Enabled(z, s, Move)
    ensures var t := Apply(z, s, Move);
      && t.phase == Ticking(s.phase.now, s.phase.due[1..]) && t.running == s.running && t.token == s.token
      && t.schedules == Advanced(z, s.schedules, s.phase.due[0], s.phase.now)
  {
    hide NextUnix, Advanced;
  }

  // ---- the order of steps ----

  /**
   The loop goes round in one order: clock, due entries, each of them launched or not and then
   moved, table, clock, timer, select; out of the select only by a token or by the timer.
   */
  lemma LoopInOrder(z: Zone, s: State, a: Action)
    requires LoopAction(a) && Enabled(z, s, a)
    ensures match s.phase
      case Idle => a.ReadNow? && Apply(z, s, a).phase == Collecting(s.clock)
      case Collecting(now) => a.Collect? && Apply(z, s, a).phase == Ticking(now, a.names)
      case Ticking(now, due) =>
        if due == [] then a.EndTick? && Apply(z, s, a).phase == Measuring
        else
          || (a.LaunchFails? && Apply(z, s, a).phase == Ticking(now, due[1..]))
          || (a.Launch? && due[0] !in s.running && Apply(z, s, a).running == s.running + {due[0]}
              && Apply(z, s, a).phase == Launched(now, due))
      case Launched(now, due) => a.Move? && Apply(z, s, a).phase == Ticking(now, due[1..])
      case Measuring => a.Measure? && Apply(z, s, a).phase == Measured(a.found)
      case Measured(earliest) => a.ReadClock? && Apply(z, s, a).phase == Waiting(earliest, s.clock)
      case Waiting(earliest, at) => a.Arm? && Apply(z, s, a).phase == Blocked(earliest, at, s.clock)
      case Blocked(earliest, at, armed) =>
        && Apply(z, s, a).phase == Idle
        && ((a.TakeToken? && s.token && !Apply(z, s, a).token)
            || (a.TimerFires? && armed + Delay(earliest, at) <= s.clock))
      case Stopped => false
  {
    hide IsDueList, IsEarliest, Advanced, NextUnix, Accepted, Delay;
  }

  /** The others never touch the loop's own progress; each change of the table owes one wake. */
  lemma OthersLeaveLoopAlone(z: Zone, s: State, a: Action)
    requires Enabled(z, s, a) && !LoopAction(a) && !a.Stop?
    ensures var t := Apply(z, s, a);
      && t.phase == s.phase && s.clock <= t.clock && (a.Elapse? || t.clock == s.clock)
      && t.writers == s.writers + (if a.Set? || a.Drop? then 1 else if a.Wake? then -1 else 0)
      && (t.token <==> s.token || a.Wake?)
      && (a.Set? || a.Drop? || t.schedules == s.schedules)
      && (a.Set? || a.Drop? ==> t.schedules - {a.name} == s.schedules - {a.name})
      && (a.Drop? ==> a.name !in t.schedules)
  {
    hide Accepted;
  }
}
