/**
 The `Runner` of internal/scriptrunner/runner.go as an object: each method is what the
 program does while it holds the mutex, followed by its `wake`.
 */
module RunnerObject {
  import opened Wrappers
  import opened Cron
  import opened NextFiring
  import opened Scheduler

  class RunState {
    const startedAt: nat
    var finishedAt: nat
    var finished: bool
    var exitCode: int
    var errMsg: string
    var cancelled: bool
    var doneClosed: bool

    constructor (startedAt: nat)
      ensures this.startedAt == startedAt && !finished && !cancelled && !doneClosed
    {
      this.startedAt := startedAt;
      finishedAt, finished, exitCode, errMsg, cancelled, doneClosed := 0, false, 0, "", false, false;
    }
  }

  class Runner {
    var runs: map<string, RunState>
    var schedules: Table
    var schedulerWake: bool

    constructor ()
      ensures runs == map[] && schedules == map[] && !schedulerWake
    {
      runs, schedules, schedulerWake := map[], map[], false;
    }

    /** The scripts with an unfinished run. */
    ghost function Running(): set<string>
      reads this, runs.Values
    {
      set n | n in runs && !runs[n].finished
    }

    /** No run is listed under two names. */
    ghost predicate Separate()
      reads this
    {
      forall m, n :: m in runs && n in runs && m != n ==> runs[m] != runs[n]
    }

    method NextWakeDelay(at: nat) returns (delay: nat)
      ensures exists e :: IsEarliest(schedules, e)
      ensures forall e :: IsEarliest(schedules, e) ==> delay == Delay(e, at)
    {
      var earliest := 0;
      var rest := schedules.Keys;
      while rest != {}
        invariant rest <= schedules.Keys && earliest >= 0
        invariant forall n :: n in schedules && n !in rest && schedules[n].next > 0 ==>
                    0 < earliest <= schedules[n].next
        invariant earliest != 0 ==> exists n :: n in schedules && schedules[n].next == earliest
        decreases |rest|
      {
        var name := OneOf(rest);
        var entry := schedules[name];
        if entry.next > 0 && (earliest == 0 || entry.next < earliest) {
          earliest := entry.next;
        }
        rest := rest - {name};
      }
      assert IsEarliest(schedules, earliest);
      forall e | IsEarliest(schedules, e) ensures e == earliest {
        EarliestUnique(schedules, e, earliest);
      }
      if earliest == 0 {
        return MAX_DELAY;
      }
      var left := earliest * SECOND - at;
      if left < 0 {
        return 0;
      }
      if left > MAX_DELAY {
        return MAX_DELAY;
      }
      return left;
    }

    method Wake()
      modifies `schedulerWake
      ensures schedulerWake
    {
      if !schedulerWake {
        schedulerWake := true;
      }
    }

    method SetSchedule(z: Zone, name: string, validName: bool, exist: bool, cron: string, now: nat) returns (ok: bool)
      modifies `schedules, `schedulerWake
      ensures ok <==> validName && exist && Accepted(z, cron, now).Some?
      ensures ok ==> schedules == old(schedules)[name := Accepted(z, cron, now).value] && schedulerWake
      ensures !ok ==> schedules == old(schedules) && schedulerWake == old(schedulerWake)
    {
      if !validName {
        return false;
      }
      if !exist {
        return false;
      }
      var schedule := ParseCron(cron);
      if schedule.None? {
        return false;
      }
      var next := Next(schedule.value, Local(z, now));
      if next.None? {
        return false;
      }
      schedules := schedules[name := Entry(schedule.value.raw, UnixSeconds(z, next.value))];
      Wake();
      return true;
    }

    method ClearSchedule(name: string)
      modifies `schedules, `schedulerWake
      ensures schedules == old(schedules) - {name} && schedulerWake
    {
      schedules := schedules - {name};
      Wake();
    }

    /** The scripts a tick at `now` finds due and not running. */
    method CollectDue(now: nat) returns (due: seq<string>)
      ensures IsDueList(schedules, Running(), now, due)
    {
      due := [];
      var rest := schedules.Keys;
      while rest != {}
        invariant rest <= schedules.Keys
        invariant forall i :: 0 <= i < |due| ==>
                    due[i] in schedules && due[i] !in rest && IsDue(schedules[due[i]], now) && due[i] !in Running()
        invariant forall n :: n in schedules && n !in rest && IsDue(schedules[n], now) && n !in Running() ==> n in due
        invariant forall i, j :: 0 <= i < j < |due| ==> due[i] != due[j]
        decreases |rest|
      {
        var name := OneOf(rest);
        rest := rest - {name};
        var entry := schedules[name];
        if entry.next <= 0 || now / SECOND < entry.next {
          continue;
        }
        if name in runs && !runs[name].finished {
          continue;
        }
        due := due + [name];
      }
    }

    /** What a tick does to the entry of a script it has launched. */
    method MoveEntry(z: Zone, name: string, now: nat) returns (changed: bool)
      modifies `schedules
      ensures schedules == Advanced(z, old(schedules), name, now)
      ensures changed <==> NextUnix(z, if name in old(schedules) then old(schedules)[name].cron else "", now).Some?
    {
      hide ScheduleOf, NextOf, Local, UnixSeconds, Schedule.WellFormed;
      var entry := if name in schedules then schedules[name] else Entry("", 0);
      changed := false;
      var schedule := ParseCron(entry.cron);
      if schedule.Some? {
        var next := Next(schedule.value, Local(z, now));
        if next.Some? {
          schedules := schedules[name := entry.(next := UnixSeconds(z, next.value))];
          changed := true;
        }
      }
    }

    /** The critical section of `RunArgs`: refuse while a run is unfinished, else list a new one. */
    method BeginRun(name: string, startedAt: nat) returns (state: RunState?)
      modifies `runs
      ensures state == null <==> name in old(Running())
      ensures state == null ==> runs == old(runs)
      ensures state != null ==> fresh(state) && runs == old(runs)[name := state] && !state.finished && !state.doneClosed
      ensures Running() == old(Running()) + {name}
      ensures old(Separate()) ==> Separate()
    {
      if name in runs && !runs[name].finished {
        return null;
      }
      state := new RunState(startedAt);
      runs := runs[name := state];
    }

    method StopRun(name: string) returns (ok: bool)
      modifies runs.Values`cancelled
      ensures ok == (name in Running())
      ensures ok ==> runs[name].cancelled
      ensures forall s :: s in runs.Values && !(ok && s == runs[name]) ==> s.cancelled == old(s.cancelled)
    {
      if name !in runs || runs[name].finished {
        return false;
      }
      runs[name].cancelled := true;
      return true;
    }

    /** Marks the run finished, then closes `done`; closing it a second time would panic. */
    method Finish(name: string, state: RunState, code: int, message: string, now: nat)
      requires !state.doneClosed
      modifies state
      ensures state.finished && state.doneClosed && state.exitCode == code && state.errMsg == message
      ensures state.finishedAt == now && state.cancelled == old(state.cancelled)
      ensures old(Separate()) && name in runs && runs[name] == state ==> Running() == old(Running()) - {name}
    {
      state.finished := true;
      state.finishedAt := now;
      state.exitCode := code;
      state.errMsg := message;
      state.doneClosed := true;
    }
  }

  method OneOf(names: set<string>) returns (name: string)
    requires names != {}
    ensures name in names
  {
    name :| name in names;
  }
}
