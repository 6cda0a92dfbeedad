/**
 The life of script runs (internal/scriptrunner/runner.go, `RunArgs`, `StopRun`, `finish`)
 in every interleaving of their callers. A step is one critical section, or one action
 between two of them.
 */
module RunTable {

  /** Who is to act next on a run, and how far it is. */
  datatype Stage =
    | Preparing    // its `RunArgs` is opening the log file
    | Executing    // the goroutine owns it and the script runs
    | Marked       // `finish` has set `finished` and is about to close `done`
    | Ended        // `done` is closed

  datatype Run = Run(name: string, stage: Stage, finished: bool, cancelled: bool, closes: nat)

  /** All runs ever begun, in order, and which of them each name stands for. */
  datatype State = State(begun: seq<Run>, table: map<string, nat>)

  datatype Action =
    | Begin(name: string)      // `RunArgs` up to unlocking
    | Refuse(name: string)     // `RunArgs` finding an unfinished run
    | Spawn(id: nat)           // `RunArgs` starting the goroutine
    | Mark(id: nat)            // `finish` up to unlocking: after a failed preparation or when the script ends
    | Close(id: nat)           // `finish` closing `done`
    | Cancel(id: nat)          // `StopRun`, also from `Delete` and `Stop`

  ghost predicate WellIndexed(s: State) {
    forall n :: n in s.table ==> s.table[n] < |s.begun|
  }

  predicate Busy(s: State, name: string) {
    name in s.table && s.table[name] < |s.begun| && !s.begun[s.table[name]].finished
  }

  predicate Enabled(s: State, a: Action) {
    match a
    case Begin(name) => !Busy(s, name)
    case Refuse(name) => Busy(s, name)
    case Spawn(id) => id < |s.begun| && s.begun[id].stage.Preparing?
    case Mark(id) => id < |s.begun| && (s.begun[id].stage.Preparing? || s.begun[id].stage.Executing?)
    case Close(id) => id < |s.begun| && s.begun[id].stage.Marked?
    case Cancel(id) => id < |s.begun|
  }

  function Apply(s: State, a: Action): State
    requires Enabled(s, a)
  {
    match a
    case Begin(name) => State(s.begun + [Run(name, Preparing, false, false, 0)], s.table[name := |s.begun|])
    case Refuse(name) => s
    case Spawn(id) => s.(begun := s.begun[id := s.begun[id].(stage := Executing)])
    case Mark(id) => s.(begun := s.begun[id := s.begun[id].(stage := Marked, finished := true)])
    case Close(id) => s.(begun := s.begun[id := s.begun[id].(stage := Ended, closes := s.begun[id].closes + 1)])
    case Cancel(id) => s.(begun := s.begun[id := s.begun[id].(cancelled := true)])
  }

  ghost predicate Step(s: State, t: State) {
    exists a :: Enabled(s, a) && t == Apply(s, a)
  }

  ghost predicate IsHistory(run: seq<State>) {
    run != [] && run[0] == State([], map[]) && forall i :: 0 <= i < |run| - 1 ==> Step(run[i], run[i + 1])
  }

  /** The flags tell the stage, and an unfinished run is the one its name stands for. */
  ghost predicate Consistent(s: State, id: nat)
    requires id < |s.begun|
  {
    var r := s.begun[id];
    && (r.finished <==> r.stage.Marked? || r.stage.Ended?)
    && r.closes == (if r.stage.Ended? then 1 else 0)
    && (!r.finished ==> r.name in s.table && s.table[r.name] == id)
  }

  ghost predicate Inv(s: State) {
    && WellIndexed(s)
    && (forall n :: n in s.table ==> s.begun[s.table[n]].name == n)
    && forall id :: 0 <= id < |s.begun| ==> Consistent(s, id)
  }

  lemma StepKeepsInv(s: State, a: Action)
    requires Inv(s) && Enabled(s, a)
    ensures Inv(Apply(s, a))
  {
    var t := Apply(s, a);
    forall id | 0 <= id < |t.begun| ensures Consistent(t, id) {
      if id < |s.begun| {
        assert Consistent(s, id);
      }
    }
  }

  lemma {:induction false} HistoryKeepsInv(run: seq<State>, i: nat)
    requires IsHistory(run) && i < |run|
    ensures Inv(run[i])
  {
    hide Enabled, Apply, Inv;
    if i == 0 {
      assert Inv(run[0]) by { EmptyInv(); }
    } else {
      HistoryKeepsInv(run, i - 1);
      assert Step(run[i - 1], run[i - 1 + 1]);
      var a :| Enabled(run[i - 1], a) && run[i] == Apply(run[i - 1], a);
      StepKeepsInv(run[i - 1], a);
    }
  }

  lemma EmptyInv()
    ensures Inv(State([], map[]))
  {
  }

  /** At most one run of a script is unfinished, and it is the one the table lists. */
  lemma OneRunPerScript(run: seq<State>, i: nat, a: nat, b: nat)
    requires IsHistory(run) && i < |run| && a < |run[i].begun| && b < |run[i].begun|
    requires !run[i].begun[a].finished && !run[i].begun[b].finished && run[i].begun[a].name == run[i].begun[b].name
    ensures a == b && Busy(run[i], run[i].begun[a].name)
  {
    HistoryKeepsInv(run, i);
    assert Consistent(run[i], a) && Consistent(run[i], b);
  }

  /** What later states may do to a run begun earlier. */
  ghost predicate OnlyForward(r: Run, q: Run) {
    && r.name == q.name && r.closes <= q.closes
    && (r.finished ==> q.finished) && (r.cancelled ==> q.cancelled)
  }

  lemma {:induction false} RunsOnlyGoForward(run: seq<State>, i: nat, j: nat, id: nat)
    requires IsHistory(run) && i <= j < |run| && id < |run[i].begun|
    ensures id < |run[j].begun| && OnlyForward(run[i].begun[id], run[j].begun[id])
    decreases j
  {
    if i == j {
    } else {
      RunsOnlyGoForward(run, i, j - 1, id);
      assert Step(run[j - 1], run[j - 1 + 1]);
    }
  }

  /** Once finished a run stays finished, whatever is begun, stopped or deleted afterwards. */
  lemma FinishedForGood(run: seq<State>, i: nat, j: nat, id: nat)
    requires IsHistory(run) && i <= j < |run| && id < |run[i].begun| && run[i].begun[id].finished
    ensures id < |run[j].begun| && run[j].begun[id].finished
  {
    RunsOnlyGoForward(run, i, j, id);
  }

  /** `done` is closed at most once, only on a finished run, and a run not yet closed can always get there. */
  lemma DoneClosedOnce(run: seq<State>, i: nat, id: nat)
    requires IsHistory(run) && i < |run| && id < |run[i].begun|
    ensures var r := run[i].begun[id];
      && r.closes <= 1
      && (r.closes == 1 ==> r.finished && !Enabled(run[i], Close(id)) && !Enabled(run[i], Mark(id)))
      && (r.closes == 0 ==> Enabled(run[i], Close(id)) || Enabled(run[i], Mark(id)))
  {
    HistoryKeepsInv(run, i);
    assert Consistent(run[i], id);
  }

  /** A new run is admitted exactly when none of that name is unfinished. */
  lemma BeginExactly(run: seq<State>, i: nat, name: string)
    requires IsHistory(run) && i < |run|
    ensures Enabled(run[i], Begin(name))
            <==> forall id :: 0 <= id < |run[i].begun| && run[i].begun[id].name == name ==> run[i].begun[id].finished
  {
    HistoryKeepsInv(run, i);
    var s := run[i];
    forall id | 0 <= id < |s.begun| && s.begun[id].name == name && !s.begun[id].finished ensures Busy(s, name) {
      assert Consistent(s, id);
    }
  }

  // ---- the order of steps ----

  /** A run is prepared, executed or not, marked finished and closed, in this order; stopping only cancels it. */
  lemma RunInOrder(s: State, a: Action)
    requires Enabled(s, a) && (a.Spawn? || a.Mark? || a.Close? || a.Cancel?)
    ensures a.id < |s.begun| && |Apply(s, a).begun| == |s.begun| && Apply(s, a).table == s.table
    ensures forall id :: 0 <= id < |s.begun| && id != a.id ==> Apply(s, a).begun[id] == s.begun[id]
    ensures var r, q := s.begun[a.id], Apply(s, a).begun[a.id];
      if a.Cancel? then q == r.(cancelled := true)
      else match r.stage
           case Preparing =>
             if a.Spawn? then q == r.(stage := Executing) else a.Mark? && q == r.(stage := Marked, finished := true)
           case Executing => a.Mark? && q == r.(stage := Marked, finished := true)
           case Marked => a.Close? && q == r.(stage := Ended, closes := r.closes + 1)
           case Ended => false
  {
  }
}
