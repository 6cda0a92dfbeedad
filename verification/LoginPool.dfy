/**
 `Pool.state` of internal/protocol/pool.go: a session is read from the store, or, under a
 lock of its own, read again and then made by a login under a counting semaphore. Any
 number of callers interleave with each other, with invalidation and with passing time.
 */
module LoginPool {
  import opened Wrappers
  import GoText

  // ---- keys and expiry ----

  /** The text `%d\x00%s` a lock is kept under. */
  function LockName(account: nat, proxy: string): string {
    GoText.Decimal(account) + ['\0'] + proxy
  }

  /** Accounts and proxies never share a lock. */
  lemma LockNameInjective(a: nat, p: string, b: nat, q: string)
    ensures LockName(a, p) == LockName(b, q) <==> a == b && p == q
  {
    hide GoText.Decimal, GoText.IndexOf;
    GoText.DecimalIsPlain(a, '\0');
    GoText.DecimalIsPlain(b, '\0');
    GoText.IndexBehind(GoText.Decimal(a), '\0', p);
    GoText.IndexBehind(GoText.Decimal(b), '\0', q);
    GoText.DecimalRoundTrip(a);
    GoText.DecimalRoundTrip(b);
  }

  datatype Session = Session(pskExpires: int)

  function SessionExpiresAt(st: Session, now: int, ttl: nat): (e: int)
    ensures st.pskExpires != 0 ==> e <= st.pskExpires
    ensures st.pskExpires == 0 ==> e == now + ttl
    ensures e <= now + ttl && (e == st.pskExpires || e == now + ttl)
  {
    var exp, ttlExp := st.pskExpires, now + ttl;
    if exp == 0 || exp > ttlExp then ttlExp else exp
  }

  // ---- callers ----

  type Key = (nat, string)

  datatype Answer = Failed | Cached(session: Session, at: nat) | Made(session: Session)

  datatype Stage =
    | Arriving                              // before the first look at the store
    | Locking                               // waiting for the key's lock
    | Checking                              // holds it, before the second look
    | Acquiring                             // has missed again, waiting for the semaphore
    | LoggingIn                             // holds both and logs in
    | Expiring(session: Session)            // logged in, about to compute the expiry
    | Storing(session: Session, expires: int)
    | Releasing(answer: Answer)             // about to release the semaphore
    | Unlocking(answer: Answer)             // about to release the lock
    | Done(answer: Answer)

  predicate HoldsLock(p: Stage) {
    p.Checking? || p.Acquiring? || HoldsSlot(p) || p.Unlocking?
  }

  predicate HoldsSlot(p: Stage) {
    p.LoggingIn? || p.Expiring? || p.Storing? || p.Releasing?
  }

  datatype Caller = Caller(key: Key, stage: Stage)

  datatype Row = Row(session: Session, expires: int)

  /** `slots` is the number of entries in the semaphore's channel. */
  datatype State = State(callers: seq<Caller>, owner: map<Key, nat>, slots: nat, rows: map<Key, Row>, clock: nat)

  datatype Limits = Limits(maxLogins: nat, ttl: nat)

  datatype Action =
    | Arrive(key: Key)
    | Invalidate(key: Key)
    | Elapse(until: nat)
    | Hit(c: nat)             // an unexpired row is found, at the first or the second look
    | Miss(c: nat)            // none is
    | Lock(c: nat)
    | Acquire(c: nat)
    | Fail(c: nat)            // the store, the account, the context or the login fails
    | Login(c: nat, session: Session)
    | SetExpiry(c: nat)
    | Put(c: nat)
    | Release(c: nat)
    | Unlock(c: nat)

  predicate Stored(s: State, key: Key) {
    key in s.rows && s.rows[key].expires > s.clock
  }

  predicate Outside(a: Action) {
    a.Arrive? || a.Invalidate? || a.Elapse?
  }

  predicate Enabled(l: Limits, s: State, a: Action) {
    match a
    case Arrive(key) => true
    case Invalidate(key) => true
    case Elapse(until) => s.clock <= until
    case Hit(c) => c < |s.callers| && Looks(s.callers[c].stage) && Stored(s, s.callers[c].key)
    case Miss(c) => c < |s.callers| && Looks(s.callers[c].stage) && !Stored(s, s.callers[c].key)
    case Lock(c) => c < |s.callers| && s.callers[c].stage.Locking? && s.callers[c].key !in s.owner
    case Acquire(c) => c < |s.callers| && s.callers[c].stage.Acquiring? && s.slots < l.maxLogins
    case Fail(c) => c < |s.callers| && CanFail(s.callers[c].stage)
    case Login(c, session) => c < |s.callers| && s.callers[c].stage.LoggingIn? && session.pskExpires > s.clock
    case SetExpiry(c) => c < |s.callers| && s.callers[c].stage.Expiring?
    case Put(c) => c < |s.callers| && s.callers[c].stage.Storing?
    case Release(c) => c < |s.callers| && s.callers[c].stage.Releasing?
    case Unlock(c) => c < |s.callers| && s.callers[c].stage.Unlocking?
  }

  /** About to look at the store. */
  predicate Looks(p: Stage) {
    p.Arriving? || p.Checking?
  }

  predicate CanFail(p: Stage) {
    p.Arriving? || p.Checking? || p.Acquiring? || p.LoggingIn? || p.Storing?
  }

  function Failing(p: Stage): Stage {
    if p.Arriving? then Done(Failed) else if HoldsSlot(p) then Releasing(Failed) else Unlocking(Failed)
  }

  /** Where a caller goes by a step of its own. */
  function Onward(l: Limits, s: State, a: Action): Stage
    requires Enabled(l, s, a) && !Outside(a)
  {
    var p := s.callers[a.c].stage;
    match a
    case Hit(c) =>
      var answer := Cached(s.rows[s.callers[c].key].session, s.clock);
      if p.Arriving? then Done(answer) else Unlocking(answer)
    case Miss(c) => if p.Arriving? then Locking else Acquiring
    case Lock(c) => Checking
    case Acquire(c) => LoggingIn
    case Fail(c) => Failing(p)
    case Login(c, session) => Expiring(session)
    case SetExpiry(c) => Storing(p.session, SessionExpiresAt(p.session, s.clock, l.ttl))
    case Put(c) => Releasing(Made(p.session))
    case Release(c) => Unlocking(p.answer)
    case Unlock(c) => Done(p.answer)
  }

  function Moved(l: Limits, s: State, a: Action): (callers: seq<Caller>)
    requires Enabled(l, s, a) && !Outside(a)
    ensures |callers| == |s.callers|
  {
    s.callers[a.c := Caller(s.callers[a.c].key, Onward(l, s, a))]
  }

  function Apply(l: Limits, s: State, a: Action): State
    requires Enabled(l, s, a)
  {
    match a
    case Arrive(key) => s.(callers := s.callers + [Caller(key, Arriving)])
    case Invalidate(key) => s.(rows := s.rows - {key})
    case Elapse(until) => s.(clock := until)
    case Lock(c) => s.(callers := Moved(l, s, a), owner := s.owner[s.callers[c].key := c])
    case Unlock(c) => s.(callers := Moved(l, s, a), owner := s.owner - {s.callers[c].key})
    case Acquire(c) => s.(callers := Moved(l, s, a), slots := s.slots + 1)
    case Release(c) => s.(callers := Moved(l, s, a), slots := if s.slots > 0 then s.slots - 1 else 0)
    case Put(c) =>
      var p := s.callers[c].stage;
      s.(callers := Moved(l, s, a), rows := s.rows[s.callers[c].key := Row(p.session, p.expires)])
    case _ => s.(callers := Moved(l, s, a))
  }

  ghost predicate Step(l: Limits, s: State, t: State) {
    exists a :: Enabled(l, s, a) && t == Apply(l, s, a)
  }

  /** A new pool over whatever the store holds from before, rows a pool had put there. */
  ghost predicate Init(s: State) {
    s.callers == [] && s.owner == map[] && s.slots == 0 && RowsInv(s)
  }

  ghost predicate IsRun(l: Limits, run: seq<State>) {
    run != [] && Init(run[0]) && forall i :: 0 <= i < |run| - 1 ==> Step(l, run[i], run[i + 1])
  }

  // ---- invariants ----

  /** A lock has an owner exactly while that caller holds it. */
  ghost predicate LockInv(s: State) {
    && (forall k :: k in s.owner ==>
          s.owner[k] < |s.callers| && s.callers[s.owner[k]].key == k && HoldsLock(s.callers[s.owner[k]].stage))
    && forall c :: 0 <= c < |s.callers| && HoldsLock(s.callers[c].stage) ==>
         s.callers[c].key in s.owner && s.owner[s.callers[c].key] == c
  }

  ghost function SlotHolders(s: State): set<nat> {
    set c: nat | c < |s.callers| && HoldsSlot(s.callers[c].stage)
  }

  /** The semaphore counts its holders. */
  ghost predicate SlotInv(l: Limits, s: State) {
    s.slots == |SlotHolders(s)| <= l.maxLogins
  }

  /** No row outlives its session's key, nor does one about to be put. */
  ghost predicate RowsInv(s: State) {
    && (forall k :: k in s.rows ==> s.rows[k].expires <= s.rows[k].session.pskExpires)
    && (forall c :: 0 <= c < |s.callers| && s.callers[c].stage.Expiring? ==> s.callers[c].stage.session.pskExpires > 0)
    && forall c :: 0 <= c < |s.callers| && s.callers[c].stage.Storing? ==>
         s.callers[c].stage.expires <= s.callers[c].stage.session.pskExpires
  }

  predicate MissedUnderLock(p: Stage) {
    p.Acquiring? || p.LoggingIn? || p.Expiring? || p.Storing?
  }

  /** From the second miss to the end of the login there is no unexpired row. */
  ghost predicate MissInv(s: State) {
    forall c :: 0 <= c < |s.callers| && MissedUnderLock(s.callers[c].stage) ==> !Stored(s, s.callers[c].key)
  }

  ghost predicate Inv(l: Limits, s: State) {
    LockInv(s) && SlotInv(l, s) && RowsInv(s) && MissInv(s)
  }

  /** Lock and semaphore change hands only in the four steps named after it. */
  lemma OnwardHolds(l: Limits, s: State, a: Action)
    requires Enabled(l, s, a) && !Outside(a)
    ensures var p, q := s.callers[a.c].stage, Onward(l, s, a);
      && HoldsLock(q) == (a.Lock? || (HoldsLock(p) && !a.Unlock?))
      && (a.Lock? ==> !HoldsLock(p)) && (a.Unlock? ==> HoldsLock(p))
      && HoldsSlot(q) == (a.Acquire? || (HoldsSlot(p) && !a.Release?))
      && (a.Acquire? ==> !HoldsSlot(p)) && (a.Release? ==> HoldsSlot(p))
  {
    hide Stored, SessionExpiresAt;
  }

  lemma LockKept(l: Limits, s: State, a: Action)
    requires LockInv(s) && Enabled(l, s, a)
    ensures LockInv(Apply(l, s, a))
  {
    hide Stored, Onward, HoldsLock;
    if !Outside(a) {
      OnwardHolds(l, s, a);
    } else {
      assert !HoldsLock(Arriving) by { ArrivingHoldsNothing(); }
    }
  }

  lemma ArrivingHoldsNothing()
    ensures !HoldsLock(Arriving) && !HoldsSlot(Arriving)
  {
  }

  lemma RowsKept(l: Limits, s: State, a: Action)
    requires RowsInv(s) && Enabled(l, s, a)
    ensures RowsInv(Apply(l, s, a))
  {
  }

  lemma OneOwner(s: State, c: nat, d: nat)
    requires LockInv(s) && c < |s.callers| && d < |s.callers| && c != d
    requires HoldsLock(s.callers[c].stage) && HoldsLock(s.callers[d].stage)
    ensures s.callers[c].key != s.callers[d].key
  {
  }

  lemma MissKept(l: Limits, s: State, a: Action)
    requires LockInv(s) && MissInv(s) && Enabled(l, s, a)
    ensures MissInv(Apply(l, s, a))
  {
    var t := Apply(l, s, a);
    forall c | 0 <= c < |t.callers| && MissedUnderLock(t.callers[c].stage) ensures !Stored(t, t.callers[c].key) {
      if a.Put? && c != a.c {
        OneOwner(s, c, a.c);
      }
    }
  }

  lemma HoldersMove(s: State, t: State, c: nat)
    requires c < |s.callers| == |t.callers| && t.callers == s.callers[c := t.callers[c]]
    ensures |SlotHolders(t)| == |SlotHolders(s)| - (if HoldsSlot(s.callers[c].stage) then 1 else 0)
                                + (if HoldsSlot(t.callers[c].stage) then 1 else 0)
  {
    hide HoldsSlot;
    var others := SlotHolders(s) - {c};
    assert SlotHolders(s) == if HoldsSlot(s.callers[c].stage) then others + {c} else others;
    assert SlotHolders(t) == if HoldsSlot(t.callers[c].stage) then others + {c} else others;
  }

  lemma SlotsKept(l: Limits, s: State, a: Action)
    requires SlotInv(l, s) && Enabled(l, s, a)
    ensures SlotInv(l, Apply(l, s, a))
  {
    hide Stored, Onward, HoldsSlot;
    ArrivingHoldsNothing();
    var t := Apply(l, s, a);
    if Outside(a) {
      assert SlotHolders(t) == SlotHolders(s);
    } else {
      OnwardHolds(l, s, a);
      HoldersMove(s, t, a.c);
    }
  }

  lemma {:induction false} RunKeepsInv(l: Limits, run: seq<State>, i: nat)
    requires IsRun(l, run) && i < |run|
    ensures Inv(l, run[i])
  {
    hide Enabled, Apply, LockInv, RowsInv, MissInv, SlotInv;
    if i == 0 {
      InitInv(l, run[0]);
    } else {
      RunKeepsInv(l, run, i - 1);
      assert Step(l, run[i - 1], run[i - 1 + 1]);
      var a :| Enabled(l, run[i - 1], a) && run[i] == Apply(l, run[i - 1], a);
      LockKept(l, run[i - 1], a);
      SlotsKept(l, run[i - 1], a);
      RowsKept(l, run[i - 1], a);
      MissKept(l, run[i - 1], a);
    }
  }

  lemma InitInv(l: Limits, s: State)
    requires Init(s)
    ensures Inv(l, s)
  {
    assert SlotHolders(s) == {};
  }

  // ---- what callers may rely on ----

  /** Two logins for one account and proxy never overlap. */
  lemma SingleFlight(l: Limits, run: seq<State>, i: nat, c: nat, d: nat)
    requires IsRun(l, run) && i < |run| && c < |run[i].callers| && d < |run[i].callers|
    requires run[i].callers[c].stage.LoggingIn? && run[i].callers[d].stage.LoggingIn?
    requires run[i].callers[c].key == run[i].callers[d].key
    ensures c == d
  {
    RunKeepsInv(l, run, i);
  }

  /** At most the configured number of logins are under way. */
  lemma LoginsBounded(l: Limits, run: seq<State>, i: nat)
    requires IsRun(l, run) && i < |run|
    ensures var logins := set c: nat | c < |run[i].callers| && run[i].callers[c].stage.LoggingIn?;
      |logins| <= l.maxLogins
  {
    RunKeepsInv(l, run, i);
    var logins := set c: nat | c < |run[i].callers| && run[i].callers[c].stage.LoggingIn?;
    Fewer(logins, SlotHolders(run[i]));
  }

  lemma {:induction false} Fewer(a: set<nat>, b: set<nat>)
    requires a <= b
    ensures |a| <= |b|
    decreases |a|
  {
    if a == {} {
    } else {
      SomeOf(a);
      var x :| x in a;
      Fewer(a - {x}, b - {x});
    }
  }

  lemma SomeOf(a: set<nat>)
    ensures a != {} ==> exists x :: x in a
  {
    assert (forall x :: x !in a) ==> a == {};
  }

  /** A login starts, and goes on, only while the store holds no unexpired session for its key. */
  lemma LoginOnlyWhenMissing(l: Limits, run: seq<State>, i: nat, c: nat)
    requires IsRun(l, run) && i < |run| && c < |run[i].callers|
    requires Enabled(l, run[i], Acquire(c)) || run[i].callers[c].stage.LoggingIn?
    ensures !Stored(run[i], run[i].callers[c].key) && run[i].callers[c].key in run[i].owner
            && run[i].owner[run[i].callers[c].key] == c
  {
    RunKeepsInv(l, run, i);
  }

  /** A session read from the store has a key that is still valid at that moment. */
  lemma CachedIsValid(l: Limits, run: seq<State>, i: nat, c: nat)
    requires IsRun(l, run) && i < |run| && Enabled(l, run[i], Hit(c))
    ensures var p := Apply(l, run[i], Hit(c)).callers[c].stage;
      && (p.Done? || p.Unlocking?) && p.answer.Cached? && p.answer.at == run[i].clock
      && run[i].clock < p.answer.session.pskExpires
  {
    RunKeepsInv(l, run, i);
  }

  /** Nobody who holds the semaphore waits for a lock: each such caller can take its next step at once. */
  lemma HoldersNeverWait(l: Limits, s: State, c: nat) returns (a: Action)
    requires c < |s.callers| && HoldsSlot(s.callers[c].stage)
    ensures !Outside(a) && a.c == c && Enabled(l, s, a)
  {
    match s.callers[c].stage
    case LoggingIn => a := Fail(c);
    case Expiring(session) => a := SetExpiry(c);
    case Storing(session, expires) => a := Put(c);
    case Releasing(answer) => a := Release(c);
  }

  /** No deadlock: while any call is unfinished, some caller can take a step. */
  lemma NoDeadlock(l: Limits, run: seq<State>, i: nat, c: nat) returns (a: Action)
    requires IsRun(l, run) && i < |run| && l.maxLogins > 0
    requires c < |run[i].callers| && !run[i].callers[c].stage.Done?
    ensures !Outside(a) && Enabled(l, run[i], a)
  {
    RunKeepsInv(l, run, i);
    var s := run[i];
    if SlotHolders(s) != {} {
      SomeOf(SlotHolders(s));
      var d: nat :| d in SlotHolders(s);
      a := HoldersNeverWait(l, s, d);
    } else {
      var d := if s.callers[c].stage.Locking? && s.callers[c].key in s.owner then s.owner[s.callers[c].key] else c;
      assert d !in SlotHolders(s) && c !in SlotHolders(s);
      a := FreeStep(l, s, d);
    }
  }

  /** With the semaphore free, whoever does not wait for a held lock can go on. */
  lemma FreeStep(l: Limits, s: State, c: nat) returns (a: Action)
    requires s.slots < l.maxLogins && c < |s.callers| && !HoldsSlot(s.callers[c].stage)
    requires !s.callers[c].stage.Done? && (s.callers[c].stage.Locking? ==> s.callers[c].key !in s.owner)
    ensures !Outside(a) && Enabled(l, s, a)
  {
    match s.callers[c].stage
    case Arriving => a := if Stored(s, s.callers[c].key) then Hit(c) else Miss(c);
    case Locking => a := Lock(c);
    case Checking => a := if Stored(s, s.callers[c].key) then Hit(c) else Miss(c);
    case Acquiring => a := Acquire(c);
    case Unlocking(answer) => a := Unlock(c);
  }

  // ---- every call comes to an end ----

  /** The most steps a caller can still take. */
  function Rank(p: Stage): (r: nat)
    ensures r <= 9
  {
    match p
    case Arriving => 9
    case Locking => 8
    case Checking => 7
    case Acquiring => 6
    case LoggingIn => 5
    case Expiring(_) => 4
    case Storing(_, _) => 3
    case Releasing(_) => 2
    case Unlocking(_) => 1
    case Done(_) => 0
  }

  function Remaining(callers: seq<Caller>): nat {
    if callers == [] then 0 else Remaining(callers[..|callers| - 1]) + Rank(callers[|callers| - 1].stage)
  }

  lemma {:induction false} RemainingChanges(callers: seq<Caller>, c: nat, d: Caller)
    requires c < |callers|
    ensures Remaining(callers[c := d]) == Remaining(callers) - Rank(callers[c].stage) + Rank(d.stage)
  {
    var n := |callers| - 1;
    if c == n {
      assert callers[c := d][..n] == callers[..n];
    } else {
      assert callers[c := d][..n] == callers[..n][c := d];
      RemainingChanges(callers[..n], c, d);
    }
  }

  /**
   Each step of a caller uses up one of at most nine, whatever the others do; with
   `NoDeadlock`, calls come to an end once no new ones arrive.
   */
  lemma StepsRunOut(l: Limits, s: State, a: Action)
    requires Enabled(l, s, a) && !a.Arrive?
    ensures var before, after := Remaining(s.callers), Remaining(Apply(l, s, a).callers);
      if Outside(a) then after == before else after < before
  {
    hide Remaining;
    if !Outside(a) {
      RemainingChanges(s.callers, a.c, Apply(l, s, a).callers[a.c]);
    }
  }

  // ---- the pool as an object ----

  class KeyLock {
    var held: bool

    constructor ()
      ensures !held
    {
      held := false;
    }
  }

  class Pool {
    const limits: Limits
    var locks: map<Key, KeyLock>
    var slots: nat
    var rows: map<Key, Row>

    constructor (limits: Limits)
      ensures this.limits == limits && locks == map[] && slots == 0 && rows == map[]
    {
      this.limits := limits;
      locks, slots, rows := map[], 0, map[];
    }

    /** No lock serves two keys. */
    ghost predicate Separate()
      reads this
    {
      forall j, k :: j in locks && k in locks && j != k ==> locks[j] != locks[k]
    }

    /** One lock per key for good: made at the first call, the same one ever after. */
    method LockFor(key: Key) returns (lock: KeyLock)
      modifies `locks
      ensures key in locks && locks[key] == lock
      ensures key in old(locks) ==> locks == old(locks)
      ensures key !in old(locks) ==> fresh(lock) && !lock.held && locks == old(locks)[key := lock]
      ensures old(Separate()) ==> Separate()
    {
      if key in locks {
        return locks[key];
      }
      lock := new KeyLock();
      locks := locks[key := lock];
    }

    /** A look at the store. */
    method GetSession(key: Key, at: nat) returns (r: Option<Session>)
      ensures r == if key in rows && rows[key].expires > at then Some(rows[key].session) else None
    {
      if key in rows && rows[key].expires > at {
        return Some(rows[key].session);
      }
      return None;
    }

    /**
     What a call does while it holds the key's lock from time `at` on. A full semaphore
     lets nobody in, so nothing but the end of the context ends the wait for it; `cancelled`
     is that end where there is room. A login, if it comes to one, yields `login` by the
     time `done`.
     */
    method StateUnderLock(key: Key, at: nat, cancelled: bool, login: Option<Session>, done: nat, storable: bool)
      returns (answer: Answer)
      modifies `slots, `rows
      ensures slots == old(slots)
      ensures
        if key in old(rows) && old(rows)[key].expires > at then
          answer == Cached(old(rows)[key].session, at) && rows == old(rows)
        else if old(slots) >= limits.maxLogins || cancelled || login.None? || !storable then
          answer == Failed && rows == old(rows)
        else
          && answer == Made(login.value)
          && rows == old(rows)[key := Row(login.value, SessionExpiresAt(login.value, done, limits.ttl))]
    {
      var cached := GetSession(key, at);
      if cached.Some? {
        return Cached(cached.value, at);
      }
      answer := Failed;
      if slots >= limits.maxLogins || cancelled {
        return;
      }
      slots := slots + 1;
      if login.Some? {
        var expires := SessionExpiresAt(login.value, done, limits.ttl);
        if storable {
          rows := rows[key := Row(login.value, expires)];
          answer := Made(login.value);
        }
      }
      slots := slots - 1;
    }
  }

  // ---- what a login leaves for the others ----

  /**
   A login is stored under its own key alone, to expire with its session's key or after its
   lifetime, whichever comes first; until then everybody else's next look at that key hits.
   */
  lemma PutServesOthers(l: Limits, s: State, c: nat, d: nat)
    requires Enabled(l, s, SetExpiry(c)) && d < |s.callers| && s.callers[d].key == s.callers[c].key && d != c
    requires Looks(s.callers[d].stage) && s.callers[c].stage.session.pskExpires > s.clock && l.ttl > 0
    ensures var t := Apply(l, s, SetExpiry(c));
      && Enabled(l, t, Put(c))
      && var u, key, session := Apply(l, t, Put(c)), s.callers[c].key, s.callers[c].stage.session;
         && u.rows == s.rows[key := Row(session, if session.pskExpires < s.clock + l.ttl then session.pskExpires
                                                 else s.clock + l.ttl)]
         && Enabled(l, u, Hit(d)) && !Enabled(l, u, Miss(d))
  {
  }

  // ---- the order of steps ----

  /**
   A call goes through its stages in one order: look, lock, look again, semaphore, login,
   expiry, store, and then gives back what it holds in the opposite order, on every path.
   */
  lemma CallerInOrder(l: Limits, s: State, a: Action)
    requires Enabled(l, s, a) && !Outside(a)
    ensures a.c < |s.callers| && a.c < |Apply(l, s, a).callers|
    ensures var key, stored, t := s.callers[a.c].key, Stored(s, s.callers[a.c].key), Apply(l, s, a);
      var q := t.callers[a.c].stage;
      match s.callers[a.c].stage
      case Arriving =>
        if a.Hit? then stored && q == Done(Cached(s.rows[key].session, s.clock))
        else if a.Miss? then !stored && q == Locking
        else a.Fail? && q == Done(Failed)
      case Locking => a.Lock? && key !in s.owner && q == Checking && t.owner == s.owner[key := a.c]
      case Checking =>
        if a.Hit? then stored && q == Unlocking(Cached(s.rows[key].session, s.clock))
        else if a.Miss? then !stored && q == Acquiring
        else a.Fail? && q == Unlocking(Failed)
      case Acquiring =>
        if a.Acquire? then s.slots < l.maxLogins && q == LoggingIn && t.slots == s.slots + 1
        else a.Fail? && q == Unlocking(Failed)
      case LoggingIn => if a.Login? then q == Expiring(a.session) else a.Fail? && q == Releasing(Failed)
      case Expiring(session) => a.SetExpiry? && q == Storing(session, SessionExpiresAt(session, s.clock, l.ttl))
      case Storing(session, expires) =>
        if a.Put? then q == Releasing(Made(session)) && t.rows == s.rows[key := Row(session, expires)]
        else a.Fail? && q == Releasing(Failed)
      case Releasing(answer) => a.Release? && q == Unlocking(answer) && (s.slots > 0 ==> t.slots == s.slots - 1)
      case Unlocking(answer) => a.Unlock? && q == Done(answer) && t.owner == s.owner - {key}
      case Done(_) => false
  {
    hide Stored, SessionExpiresAt;
  }

  /** Nobody else is moved by such a step, and rows, locks and slots change only where said above. */
  lemma OthersUnmoved(l: Limits, s: State, a: Action)
    requires Enabled(l, s, a) && !Outside(a)
    ensures var t := Apply(l, s, a);
      && |t.callers| == |s.callers| && t.clock == s.clock
      && (forall d :: 0 <= d < |s.callers| && d != a.c ==> t.callers[d] == s.callers[d])
      && t.callers[a.c].key == s.callers[a.c].key
      && (a.Put? || t.rows == s.rows) && (a.Lock? || a.Unlock? || t.owner == s.owner)
      && (a.Acquire? || a.Release? || t.slots == s.slots)
  {
    hide Stored, Onward;
  }
}
