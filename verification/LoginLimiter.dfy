/**
 The limit on failed logins (internal/httpapi/auth.go, `allowLogin`, `recordLoginFailure`,
 `clearLoginFailures` and their use in `handleLogin`). Times are in nanoseconds.
 */
module LoginLimiter {
  import opened Wrappers

  const WINDOW := 15 * 60 * 1_000_000_000
  const LIMIT := 8

  datatype Attempt = Attempt(start: nat, failures: nat)

  predicate Expired(a: Attempt, now: nat) {
    now - a.start >= WINDOW
  }

  function Allows(a: Option<Attempt>, at: nat): bool {
    a.None? || Expired(a.value, at) || a.value.failures < LIMIT
  }

  /** What `allowLogin` leaves behind: an expired window is dropped. */
  function AfterAllow(a: Option<Attempt>, at: nat): Option<Attempt> {
    if a.Some? && Expired(a.value, at) then None else a
  }

  /** What a failure leaves behind, the clock read once to check the window and once to start one. */
  function AfterFailure(a: Option<Attempt>, check: nat, now: nat): Attempt {
    if a.None? || Expired(a.value, check) then Attempt(now, 1) else Attempt(a.value.start, a.value.failures + 1)
  }

  function Lookup(m: map<string, Attempt>, key: string): Option<Attempt> {
    if key in m then Some(m[key]) else None
  }

  /** What `handleLogin` comes to. */
  datatype Outcome = TooMany | Unauthorized | LoggedIn

  /** A POST: the times of its clock readings, and whether the key sent is the right one. */
  datatype Request = Request(at: nat, check: nat, now: nat, ok: bool)
  {
    predicate InOrder() {
      at <= check <= now
    }
  }

  class App {
    var loginAttempts: map<string, Attempt>

    constructor ()
      ensures loginAttempts == map[]
    {
      loginAttempts := map[];
    }

    method AllowLogin(key: string, at: nat) returns (ok: bool)
      modifies this
      ensures ok == Allows(old(Lookup(loginAttempts, key)), at)
      ensures Lookup(loginAttempts, key) == AfterAllow(old(Lookup(loginAttempts, key)), at)
      ensures forall k :: k != key ==> Lookup(loginAttempts, k) == old(Lookup(loginAttempts, k))
    {
      if key !in loginAttempts || at - loginAttempts[key].start >= WINDOW {
        loginAttempts := loginAttempts - {key};
        return true;
      }
      return loginAttempts[key].failures < LIMIT;
    }

    method RecordLoginFailure(key: string, check: nat, now: nat)
      modifies this
      ensures loginAttempts == old(loginAttempts)[key := AfterFailure(old(Lookup(loginAttempts, key)), check, now)]
    {
      var attempt := Attempt(0, 0);
      var begun := key in loginAttempts;
      if begun {
        attempt := loginAttempts[key];
      }
      if !begun || check - attempt.start >= WINDOW {
        attempt := Attempt(now, 0);
      }
      attempt := attempt.(failures := attempt.failures + 1);
      loginAttempts := loginAttempts[key := attempt];
    }

    method ClearLoginFailures(key: string)
      modifies this
      ensures loginAttempts == old(loginAttempts) - {key}
    {
      loginAttempts := loginAttempts - {key};
    }

    method HandleLogin(key: string, r: Request) returns (outcome: Outcome)
      modifies this
      ensures outcome == Handle(old(Lookup(loginAttempts, key)), r).0
      ensures Lookup(loginAttempts, key) == Handle(old(Lookup(loginAttempts, key)), r).1
      ensures forall k :: k != key ==> Lookup(loginAttempts, k) == old(Lookup(loginAttempts, k))
    {
      var allowed := AllowLogin(key, r.at);
      if !allowed {
        return TooMany;
      }
      if !r.ok {
        RecordLoginFailure(key, r.check, r.now);
        return Unauthorized;
      }
      ClearLoginFailures(key);
      return LoggedIn;
    }
  }

  /** The same on one client's entry alone. */
  function Handle(a: Option<Attempt>, r: Request): (Outcome, Option<Attempt>) {
    if !Allows(a, r.at) then (TooMany, AfterAllow(a, r.at))
    else if !r.ok then (Unauthorized, Some(AfterFailure(AfterAllow(a, r.at), r.check, r.now)))
    else (LoggedIn, None)
  }

  // ---- a client that keeps failing ----

  /** A recorded failure: when it was checked, the start of the window it went into, its number there. */
  datatype Failure = Failure(time: nat, start: nat, nth: nat)

  /** Requests of one client, handled one at a time, none of them successful. */
  ghost predicate KeepsFailing(rs: seq<Request>) {
    && (forall i :: 0 <= i < |rs| ==> rs[i].InOrder() && !rs[i].ok)
    && forall i, j :: 0 <= i < j < |rs| ==> rs[i].now <= rs[j].at
  }

  ghost function After(rs: seq<Request>): (r: (Option<Attempt>, seq<Failure>)) {
    if rs == [] then (None, [])
    else
      var (a, failures) := After(rs[..|rs| - 1]);
      var last := rs[|rs| - 1];
      var (outcome, b) := Handle(a, last);
      (b, if outcome == Unauthorized then failures + [Failure(last.check, b.value.start, b.value.failures)]
          else failures)
  }

  /** Failures in order of time, numbered within windows of at most eight that start far apart. */
  ghost predicate Windowed(fs: seq<Failure>) {
    && (forall i :: 0 <= i < |fs| ==> 1 <= fs[i].nth <= LIMIT && fs[i].time < fs[i].start + WINDOW)
    && (forall i :: 0 <= i < |fs| && fs[i].nth == 1 ==> fs[i].time <= fs[i].start)
    && forall i :: 0 <= i < |fs| - 1 ==> Follows(fs[i], fs[i + 1])
  }

  ghost predicate Follows(f: Failure, g: Failure) {
    && f.time <= g.time
    && if g.nth == 1 then g.time >= f.start + WINDOW && g.start >= f.start + WINDOW
       else g.start == f.start && g.nth == f.nth + 1
  }

  /** The entry kept is the last window, or it has expired and been dropped. */
  ghost predicate Tracks(a: Option<Attempt>, fs: seq<Failure>, clock: nat) {
    && (a.Some? ==> fs != [] && a.value == Attempt(fs[|fs| - 1].start, fs[|fs| - 1].nth))
    && (fs != [] ==> fs[|fs| - 1].time <= clock && fs[|fs| - 1].start <= clock)
    && (a.None? && fs != [] ==> clock >= fs[|fs| - 1].start + WINDOW)
  }

  lemma AppendFailure(fs: seq<Failure>, g: Failure)
    requires Windowed(fs) && 1 <= g.nth <= LIMIT && g.time < g.start + WINDOW && (g.nth == 1 ==> g.time <= g.start)
    requires fs != [] ==> Follows(fs[|fs| - 1], g)
    ensures Windowed(fs + [g])
  {
    var gs := fs + [g];
    hide Follows;
    forall i | 0 <= i < |gs| - 1 ensures Follows(gs[i], gs[i + 1]) {
      if i == |fs| - 1 {
        assert gs[i + 1] == g;
      } else {
        assert gs[i + 1] == fs[i + 1];
      }
    }
  }

  lemma OneRequest(a: Option<Attempt>, fs: seq<Failure>, clock: nat, r: Request)
    requires Windowed(fs) && Tracks(a, fs, clock) && r.InOrder() && !r.ok && clock <= r.at
    ensures var (outcome, b) := Handle(a, r);
      if outcome == Unauthorized then
        b.Some? && var g := Failure(r.check, b.value.start, b.value.failures);
                   Windowed(fs + [g]) && Tracks(b, fs + [g], r.now)
      else Tracks(b, fs, r.now)
  {
    var (outcome, b) := Handle(a, r);
    if outcome == Unauthorized {
      AppendFailure(fs, Failure(r.check, b.value.start, b.value.failures));
    }
  }

  lemma {:induction false} RequestsWindowed(rs: seq<Request>)
    requires KeepsFailing(rs)
    ensures Windowed(After(rs).1) && Tracks(After(rs).0, After(rs).1, if rs == [] then 0 else rs[|rs| - 1].now)
  {
    if rs == [] {
    } else {
      var front, last := rs[..|rs| - 1], rs[|rs| - 1];
      RequestsWindowed(front);
      hide Windowed, Tracks, Handle;
      var clock := if front == [] then 0 else front[|front| - 1].now;
      assert clock <= last.at;
      OneRequest(After(front).0, After(front).1, clock, last);
    }
  }

  lemma {:induction false} TimesGrow(fs: seq<Failure>, i: nat, j: nat)
    requires Windowed(fs) && i <= j < |fs|
    ensures fs[i].time <= fs[j].time && fs[i].start <= fs[j].start
    decreases j - i
  {
    if i == j {
    } else {
      TimesGrow(fs, i, j - 1);
      assert Follows(fs[j - 1], fs[j - 1 + 1]);
    }
  }

  /** The first failure of the next window comes at most eight after the first of this one. */
  lemma {:induction false} NextWindow(fs: seq<Failure>, k: nat) returns (j: nat)
    requires Windowed(fs) && k < |fs| && k + LIMIT + 1 - fs[k].nth < |fs|
    ensures k < j <= k + LIMIT + 1 - fs[k].nth && fs[j].nth == 1 && fs[j].time >= fs[k].start + WINDOW
    decreases LIMIT - fs[k].nth
  {
    assert Follows(fs[k], fs[k + 1]);
    if fs[k + 1].nth == 1 {
      j := k + 1;
    } else {
      j := NextWindow(fs, k + 1);
    }
  }

  lemma SixteenSpanWindow(fs: seq<Failure>, i: nat)
    requires Windowed(fs) && i + 15 < |fs|
    ensures fs[i + 15].time >= fs[i].time + WINDOW
  {
    if fs[i].nth == 1 {
      var j := NextWindow(fs, i);
      TimesGrow(fs, j, i + 15);
    } else {
      var j := NextWindow(fs, i);
      TimesGrow(fs, i, j);
      var k := NextWindow(fs, j);
      TimesGrow(fs, k, i + 15);
    }
  }

  /** A window records at most eight failures, and windows start at least fifteen minutes apart. */
  lemma AtMostEightPerWindow(rs: seq<Request>, i: nat, j: nat)
    requires KeepsFailing(rs) && i < j < |After(rs).1|
    ensures var fs := After(rs).1;
      if fs[i].start == fs[j].start then j - i < LIMIT else fs[j].start - fs[i].start >= WINDOW
  {
    RequestsWindowed(rs);
    hide After;
    WindowSizes(After(rs).1, i, j);
  }

  lemma {:induction false} WindowSizes(fs: seq<Failure>, i: nat, j: nat)
    requires Windowed(fs) && i <= j < |fs|
    ensures if fs[i].start == fs[j].start then fs[j].nth == fs[i].nth + (j - i) else fs[j].start - fs[i].start >= WINDOW
    decreases j - i
  {
    if i == j {
    } else {
      WindowSizes(fs, i, j - 1);
      assert Follows(fs[j - 1], fs[j - 1 + 1]);
    }
  }

  /** Any half-open interval of fifteen minutes holds at most fifteen recorded failures. */
  lemma AtMostFifteen(rs: seq<Request>, from: nat, i: nat, j: nat)
    requires KeepsFailing(rs) && i <= j < |After(rs).1|
    requires from <= After(rs).1[i].time && After(rs).1[j].time < from + WINDOW
    ensures j - i + 1 <= 15
  {
    RequestsWindowed(rs);
    hide After;
    var fs := After(rs).1;
    if j - i >= 15 {
      SixteenSpanWindow(fs, i);
      TimesGrow(fs, i + 15, j);
    }
  }

  // ---- and fifteen can be reached ----

  function Again(n: nat, t: nat): seq<Request> {
    seq(n, i => Request(t, t, t, false))
  }

  /** `n` failures at `t` in a window that has seen `failures`. */
  function Fill(n: nat, t: nat, a: Attempt): seq<Failure> {
    seq(n, (i: nat) => Failure(t, a.start, a.failures + i + 1))
  }

  lemma {:induction false} FillWindow(rs: seq<Request>, n: nat, t: nat)
    requires After(rs).0.Some? && After(rs).0.value.start <= t < After(rs).0.value.start + WINDOW
    requires After(rs).0.value.failures + n <= LIMIT
    ensures var a := After(rs).0.value;
      After(rs + Again(n, t)) == (Some(Attempt(a.start, a.failures + n)), After(rs).1 + Fill(n, t, a))
    decreases n
  {
    var a := After(rs).0.value;
    if n == 0 {
      assert rs + Again(0, t) == rs;
      assert After(rs).1 + Fill(0, t, a) == After(rs).1;
    } else {
      FillWindow(rs, n - 1, t);
      FillOne(rs + Again(n - 1, t), t);
      hide After;
      assert rs + Again(n, t) == rs + Again(n - 1, t) + [Request(t, t, t, false)];
      assert After(rs).1 + Fill(n, t, a) == After(rs).1 + Fill(n - 1, t, a) + [Failure(t, a.start, a.failures + n)];
    }
  }

  lemma FillOne(rs: seq<Request>, t: nat)
    requires var a := After(rs).0; a.Some? && a.value.start <= t < a.value.start + WINDOW && a.value.failures < LIMIT
    ensures var a := After(rs).0.value;
      After(rs + [Request(t, t, t, false)])
      == (Some(Attempt(a.start, a.failures + 1)), After(rs).1 + [Failure(t, a.start, a.failures + 1)])
  {
    var all := rs + [Request(t, t, t, false)];
    assert all[..|all| - 1] == rs;
  }

  lemma OpenWindow(rs: seq<Request>, t: nat)
    requires var a := After(rs).0; a.None? || Expired(a.value, t)
    ensures After(rs + [Request(t, t, t, false)]) == (Some(Attempt(t, 1)), After(rs).1 + [Failure(t, t, 1)])
  {
    var all := rs + [Request(t, t, t, false)];
    assert all[..|all| - 1] == rs;
  }

  /** One failure, seven just before its window ends, and eight at its end: the bound is tight. */
  lemma FifteenReached() returns (rs: seq<Request>)
    ensures KeepsFailing(rs) && |After(rs).1| == 16
    ensures After(rs).1[1].time == WINDOW - 1 && After(rs).1[15].time == WINDOW
  {
    hide After;
    assert After([]) == (None, []) by { AfterNothing(); }
    OpenWindow([], 0);
    var a := [] + [Request(0, 0, 0, false)];
    FillWindow(a, 7, WINDOW - 1);
    var b := a + Again(7, WINDOW - 1);
    OpenWindow(b, WINDOW);
    var c := b + [Request(WINDOW, WINDOW, WINDOW, false)];
    FillWindow(c, 7, WINDOW);
    rs := c + Again(7, WINDOW);
  }

  lemma AfterNothing()
    ensures After([]) == (None, [])
  {
  }

  // ---- one request ----

  /**
   Refused exactly while eight failures stand in a window begun less than fifteen minutes
   ago; a success wipes the client's entry, a failure adds to the window or begins one.
   */
  lemma HandleExactly(a: Option<Attempt>, r: Request)
    ensures var live := a.Some? && r.at < a.value.start + 900_000_000_000;
      && (Handle(a, r).0 == TooMany <==> live && a.value.failures >= 8)
      && (Handle(a, r).0 == TooMany ==> Handle(a, r).1 == a)
      && (Handle(a, r).0 == LoggedIn <==> r.ok && !(live && a.value.failures >= 8))
      && (Handle(a, r).0 == LoggedIn ==> Handle(a, r).1 == None)
      && (Handle(a, r).0 == Unauthorized ==>
            Handle(a, r).1 == if live && r.check < a.value.start + 900_000_000_000
                              then Some(Attempt(a.value.start, a.value.failures + 1))
                              else Some(Attempt(r.now, 1)))
  {
  }
}
