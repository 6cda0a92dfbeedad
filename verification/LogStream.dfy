/**
 Live logs of a script run (internal/scriptrunner/runner.go, `logStream`,
 `broadcastWriter.Write` and `Subscribe`): the stream object, and every interleaving of the
 writing run with its subscribers and with what happens to the log file's path.
 */
module LogStream {
  import opened Wire
  import opened Wrappers

  const CHANNEL_SIZE := 256
  const MAX_TAIL := 262144

  /** A non-blocking send: the chunk is dropped when the channel is full. */
  function Offered(queue: seq<bytes>, chunk: bytes): seq<bytes> {
    if |queue| < CHANNEL_SIZE then queue + [chunk] else queue
  }

  /** What `Logs` returns of a file under a limit. */
  function Tail(data: bytes, limit: nat): (r: bytes)
    ensures |r| <= |data| && r == data[|data| - |r|..]
    ensures limit > 0 ==> |r| == if |data| > limit then limit else |data|
  {
    if limit > 0 && |data| > limit then data[|data| - limit..] else data
  }

  lemma TailWhole(data: bytes)
    requires |Tail(data, MAX_TAIL)| < MAX_TAIL
    ensures Tail(data, MAX_TAIL) == data
  {
  }

  // ---- the stream object ----

  class Channel {
    var queue: seq<bytes>

    constructor ()
      ensures queue == []
    {
      queue := [];
    }
  }

  class Stream {
    var subs: set<Channel>

    constructor ()
      ensures subs == {}
    {
      subs := {};
    }

    method Subscribe(ch: Channel)
      modifies this
      ensures subs == old(subs) + {ch}
    {
      subs := subs + {ch};
    }

    method Unsubscribe(ch: Channel)
      modifies this
      ensures subs == old(subs) - {ch}
    {
      subs := subs - {ch};
    }

    /** Every subscriber is offered the chunk, in whatever order they are visited. */
    method Publish(p: bytes)
      modifies subs
      ensures forall ch :: ch in subs ==> ch.queue == Offered(old(ch.queue), p)
    {
      var rest := subs;
      while rest != {}
        invariant rest <= subs
        invariant forall ch :: ch in rest ==> ch.queue == old(ch.queue)
        invariant forall ch :: ch in subs && ch !in rest ==> ch.queue == Offered(old(ch.queue), p)
        decreases |rest|
      {
        var ch :| ch in rest;
        if |ch.queue| < CHANNEL_SIZE {
          ch.queue := ch.queue + [p];
        }
        rest := rest - {ch};
      }
    }
  }

  // ---- one run and its subscribers ----

  /** What the path of the log file leads to. */
  datatype Path = Own | Absent | Foreign(content: bytes)

  /** What a subscriber read: the file as it stood after `upTo` chunks, if it was this run's file. */
  datatype Snapshot = Snapshot(content: bytes, own: bool, upTo: nat)

  /**
   `from` is the number of chunks published before it subscribed; `kept` says which of the
   run's chunks went through its channel, `got` and `queue` what those were.
   */
  datatype Subscriber = Subscriber(from: nat, active: bool, snapshot: Option<Snapshot>,
                                   got: seq<bytes>, queue: seq<bytes>, kept: seq<nat>, drops: nat)

  /** `written` lists the chunks in the file; all but at most the last have been published. */
  datatype State = State(path: Path, created: bool, ended: bool, written: seq<bytes>, published: nat,
                         subs: seq<Subscriber>)

  datatype Action =
    | Create
    | Write(chunk: bytes)
    | Publish
    | End
    | Unlink
    | Replace(content: bytes)     // a later run of the same name creates its log
    | Join
    | Read(who: nat)
    | Receive(who: nat)
    | Leave(who: nat)

  function Flatten(chunks: seq<bytes>): bytes {
    if chunks == [] then [] else Flatten(chunks[..|chunks| - 1]) + chunks[|chunks| - 1]
  }

  function AtPath(s: State): bytes {
    match s.path
    case Own => Flatten(s.written)
    case Absent => []
    case Foreign(content) => content
  }

  function Offer(sub: Subscriber, index: nat, chunk: bytes): Subscriber {
    if !sub.active then sub
    else if |sub.queue| < CHANNEL_SIZE then sub.(queue := Offered(sub.queue, chunk), kept := sub.kept + [index])
    else sub.(drops := sub.drops + 1)
  }

  predicate Enabled(s: State, a: Action) {
    match a
    case Create => !s.created && !s.ended
    case Write(chunk) => s.created && !s.ended && s.published == |s.written| && chunk != []
    case Publish => s.published < |s.written|
    case End => !s.ended && s.published == |s.written|
    case Unlink => true
    case Replace(content) => s.ended
    case Join => !s.ended
    case Read(who) => who < |s.subs| && s.subs[who].snapshot.None?
    case Receive(who) => who < |s.subs| && s.subs[who].queue != []
    case Leave(who) => who < |s.subs|
  }

  function Apply(s: State, a: Action): State
    requires Enabled(s, a)
  {
    match a
    case Create => s.(created := true, path := Own)
    case Write(chunk) => s.(written := s.written + [chunk])
    case Publish =>
      s.(published := s.published + 1,
         subs := seq(|s.subs|, i requires 0 <= i < |s.subs| => Offer(s.subs[i], s.published, s.written[s.published])))
    case End => s.(ended := true)
    case Unlink => s.(path := Absent)
    case Replace(content) => s.(path := Foreign(content))
    case Join => s.(subs := s.subs + [Subscriber(s.published, true, None, [], [], [], 0)])
    case Read(who) =>
      s.(subs := s.subs[who := s.subs[who].(
           snapshot := Some(Snapshot(Tail(AtPath(s), MAX_TAIL), s.path.Own?, |s.written|)))])
    case Receive(who) =>
      var sub := s.subs[who];
      s.(subs := s.subs[who := sub.(got := sub.got + [sub.queue[0]], queue := sub.queue[1..])])
    case Leave(who) => s.(subs := s.subs[who := s.subs[who].(active := false)])
  }

  ghost predicate Step(s: State, t: State) {
    exists a :: Enabled(s, a) && t == Apply(s, a)
  }

  /** The run begins before its log file is created, with an older file or none at its path. */
  ghost predicate IsRun(run: seq<State>) {
    && run != []
    && run[0] == State(run[0].path, false, false, [], 0, []) && !run[0].path.Own?
    && forall i :: 0 <= i < |run| - 1 ==> Step(run[i], run[i + 1])
  }

  // ---- what always holds ----

  ghost predicate Increasing(ks: seq<nat>, lo: nat, hi: nat) {
    && (forall j :: 0 <= j < |ks| ==> lo <= ks[j] < hi)
    && forall i, j :: 0 <= i < j < |ks| ==> ks[i] < ks[j]
  }

  /** The channel carried some of the chunks published since it joined, in order and unchanged. */
  ghost predicate ChannelInv(sub: Subscriber, written: seq<bytes>, published: nat) {
    && sub.from <= published <= |written|
    && Increasing(sub.kept, sub.from, published)
    && |sub.got| + |sub.queue| == |sub.kept|
    && (forall j :: 0 <= j < |sub.kept| ==> (sub.got + sub.queue)[j] == written[sub.kept[j]])
    && (sub.active ==> |sub.kept| + sub.drops == published - sub.from)
  }

  ghost predicate SnapshotInv(sub: Subscriber, written: seq<bytes>) {
    sub.snapshot.Some? ==>
      var snap := sub.snapshot.value;
      && sub.from <= snap.upTo <= |written|
      && (snap.own ==> snap.content == Tail(Flatten(written[..snap.upTo]), MAX_TAIL))
  }

  ghost predicate Inv(s: State) {
    && s.published <= |s.written| <= s.published + 1
    && (forall j :: 0 <= j < |s.written| ==> s.written[j] != [])
    && forall i :: 0 <= i < |s.subs| ==>
         ChannelInv(s.subs[i], s.written, s.published) && SnapshotInv(s.subs[i], s.written)
  }

  lemma OfferKeeps(sub: Subscriber, written: seq<bytes>, published: nat)
    requires ChannelInv(sub, written, published) && SnapshotInv(sub, written) && published < |written|
    ensures var t := Offer(sub, published, written[published]);
      ChannelInv(t, written, published + 1) && SnapshotInv(t, written)
  {
  }

  lemma WriteKeeps(sub: Subscriber, written: seq<bytes>, published: nat, chunk: bytes)
    requires ChannelInv(sub, written, published) && SnapshotInv(sub, written)
    ensures ChannelInv(sub, written + [chunk], published) && SnapshotInv(sub, written + [chunk])
  {
    if sub.snapshot.Some? {
      assert (written + [chunk])[..sub.snapshot.value.upTo] == written[..sub.snapshot.value.upTo];
    }
  }

  lemma ReceiveKeeps(sub: Subscriber, written: seq<bytes>, published: nat)
    requires ChannelInv(sub, written, published) && SnapshotInv(sub, written) && sub.queue != []
    ensures var t := sub.(got := sub.got + [sub.queue[0]], queue := sub.queue[1..]);
      ChannelInv(t, written, published) && SnapshotInv(t, written)
  {
    assert (sub.got + [sub.queue[0]]) + sub.queue[1..] == sub.got + sub.queue;
  }

  lemma StepKeepsInv(s: State, a: Action)
    requires Inv(s) && Enabled(s, a)
    ensures Inv(Apply(s, a))
  {
    hide ChannelInv, SnapshotInv, Flatten, Tail, Offer;
    var t := Apply(s, a);
    assert s.written[..|s.written|] == s.written;
    forall i | 0 <= i < |t.subs|
      ensures ChannelInv(t.subs[i], t.written, t.published) && SnapshotInv(t.subs[i], t.written)
    {
      SubscriberKept(s, a, i);
    }
  }

  lemma SubscriberKept(s: State, a: Action, i: nat)
    requires Inv(s) && Enabled(s, a) && i < |Apply(s, a).subs|
    ensures var t := Apply(s, a); ChannelInv(t.subs[i], t.written, t.published) && SnapshotInv(t.subs[i], t.written)
  {
    if a.Write? {
      hide ChannelInv, SnapshotInv, Flatten, Tail;
      WriteKeeps(s.subs[i], s.written, s.published, a.chunk);
    } else if a.Publish? {
      hide ChannelInv, SnapshotInv, Flatten, Tail, Offer;
      OfferKeeps(s.subs[i], s.written, s.published);
    } else if a.Receive? {
      hide ChannelInv, SnapshotInv, Flatten, Tail, Offer;
      ReceiveKeeps(s.subs[a.who], s.written, s.published);
    } else if a.Read? {
      hide Flatten, Tail, Offer;
      assert s.written[..|s.written|] == s.written;
    } else {
      hide Flatten, Tail, Offer;
    }
  }

  lemma {:induction false} RunKeepsInv(run: seq<State>, i: nat)
    requires IsRun(run) && i < |run|
    ensures Inv(run[i])
  {
    hide Inv, Enabled, Apply;
    if i == 0 {
      StartInv(run[0]);
    } else {
      RunKeepsInv(run, i - 1);
      assert Step(run[i - 1], run[i - 1 + 1]);
      var a :| Enabled(run[i - 1], a) && run[i] == Apply(run[i - 1], a);
      StepKeepsInv(run[i - 1], a);
    }
  }

  lemma StartInv(s: State)
    requires s == State(s.path, false, false, [], 0, [])
    ensures Inv(s)
  {
  }

  // ---- no gap ----

  /** The k-th chunk is in the snapshot before its cut, or was offered to the channel. */
  predicate Covered(s: State, sub: Subscriber, k: nat)
    requires sub.snapshot.Some?
  {
    (sub.snapshot.value.own && k < sub.snapshot.value.upTo) || (sub.active && sub.from <= k < s.published)
  }

  /**
   Nothing published is missed by a subscriber that has read the file exactly when it read
   this run's file, or when nothing had been published before it subscribed.
   */
  lemma NoGapExactly(run: seq<State>, i: nat, who: nat)
    requires IsRun(run) && i < |run| && who < |run[i].subs|
    requires run[i].subs[who].active && run[i].subs[who].snapshot.Some?
    ensures var s, sub := run[i], run[i].subs[who];
      (forall k: nat :: k < s.published ==> Covered(s, sub, k)) <==> sub.snapshot.value.own || sub.from == 0
  {
    RunKeepsInv(run, i);
    var s, sub := run[i], run[i].subs[who];
    assert ChannelInv(sub, s.written, s.published) && SnapshotInv(sub, s.written);
    if !sub.snapshot.value.own && sub.from > 0 {
      assert !Covered(s, sub, 0);
    }
  }

  // ---- whose file it was ----

  /** A run together with the action behind each of its steps. */
  ghost predicate IsRunBy(run: seq<State>, actions: seq<Action>) {
    && run != [] && |actions| == |run| - 1
    && run[0] == State(run[0].path, false, false, [], 0, []) && !run[0].path.Own?
    && forall i :: 0 <= i < |actions| ==> Enabled(run[i], actions[i]) && run[i + 1] == Apply(run[i], actions[i])
  }

  /** The log was created by step `c`, and up to step `n` nobody deleted or replaced it. */
  ghost predicate Untouched(actions: seq<Action>, c: nat, n: nat)
    requires n <= |actions|
  {
    c < n && actions[c].Create? && forall j :: c < j < n ==> !actions[j].Unlink? && !actions[j].Replace?
  }

  /** The path leads to this run's log exactly when it was created and has been left alone since. */
  lemma {:induction false} OwnExactly(run: seq<State>, actions: seq<Action>, i: nat)
    requires IsRunBy(run, actions) && i < |run|
    ensures run[i].path.Own? <==> exists c: nat :: Untouched(actions, c, i)
  {
    hide Offer, Tail, Flatten;
    if i == 0 {
    } else {
      OwnExactly(run, actions, i - 1);
      var a := actions[i - 1];
      assert run[i - 1 + 1] == Apply(run[i - 1], a);
      if run[i].path.Own? {
        if a.Create? {
          assert Untouched(actions, i - 1, i);
        } else {
          var c: nat :| Untouched(actions, c, i - 1);
          assert Untouched(actions, c, i);
        }
      }
      forall c: nat | Untouched(actions, c, i) ensures run[i].path.Own? {
        if c < i - 1 {
          assert Untouched(actions, c, i - 1);
        }
      }
    }
  }

  /** The step at which a subscriber read the file. */
  lemma {:induction false} ReadStep(run: seq<State>, actions: seq<Action>, i: nat, who: nat) returns (r: nat)
    requires IsRunBy(run, actions) && i < |run| && who < |run[i].subs| && run[i].subs[who].snapshot.Some?
    ensures r < i && actions[r] == Read(who) && run[i].subs[who].snapshot.value.own == run[r].path.Own?
  {
    hide Tail, Flatten;
    if i == 0 {
      assert false;
    } else {
      var a := actions[i - 1];
      assert run[i - 1 + 1] == Apply(run[i - 1], a);
      if a == Read(who) {
        r := i - 1;
      } else {
        SnapshotKept(run[i - 1], a, who);
        r := ReadStep(run, actions, i - 1, who);
      }
    }
  }

  lemma SnapshotKept(s: State, a: Action, who: nat)
    requires Enabled(s, a) && a != Read(who) && who < |Apply(s, a).subs| && Apply(s, a).subs[who].snapshot.Some?
    ensures who < |s.subs| && s.subs[who].snapshot == Apply(s, a).subs[who].snapshot
  {
    hide Tail, Flatten;
  }

  /**
   In terms of what happened: a subscriber that has read the file misses nothing exactly when
   nothing had been published before it subscribed, or when the log was created before it
   read and was neither deleted nor replaced in between.
   */
  lemma NoGapInHistory(run: seq<State>, actions: seq<Action>, i: nat, who: nat) returns (r: nat)
    requires IsRunBy(run, actions) && i < |run| && who < |run[i].subs|
    requires run[i].subs[who].active && run[i].subs[who].snapshot.Some?
    ensures r < i && actions[r] == Read(who)
    ensures var s, sub := run[i], run[i].subs[who];
      (forall k: nat :: k < s.published ==> Covered(s, sub, k))
      <==> sub.from == 0 || exists c: nat :: Untouched(actions, c, r)
  {
    hide Enabled, Apply, Covered, Untouched;
    r := ReadStep(run, actions, i, who);
    OwnExactly(run, actions, r);
    RunBySteps(run, actions);
    NoGapExactly(run, i, who);
  }

  lemma RunBySteps(run: seq<State>, actions: seq<Action>)
    requires IsRunBy(run, actions)
    ensures IsRun(run)
  {
    hide Enabled, Apply;
  }

  /** The chunks received are some of those published since subscribing, each once and in order. */
  lemma ReceivedInOrder(run: seq<State>, i: nat, who: nat)
    requires IsRun(run) && i < |run| && who < |run[i].subs|
    ensures var s, sub := run[i], run[i].subs[who];
      && Increasing(sub.kept, sub.from, s.published) && s.published <= |s.written|
      && |sub.got| <= |sub.kept|
      && forall j :: 0 <= j < |sub.got| ==> sub.got[j] == s.written[sub.kept[j]]
  {
    RunKeepsInv(run, i);
    var s, sub := run[i], run[i].subs[who];
    assert ChannelInv(sub, s.written, s.published);
    assert forall j :: 0 <= j < |sub.got| ==> (sub.got + sub.queue)[j] == sub.got[j];
  }

  lemma AllKept(kept: seq<nat>, lo: nat, hi: nat, j: nat)
    requires Increasing(kept, lo, hi) && lo + |kept| == hi && j < |kept|
    ensures kept[j] == lo + j
    decreases j
  {
    KeptAtLeast(kept, lo, hi, j);
    KeptAtMost(kept, lo, hi, j);
  }

  lemma {:induction false} KeptAtLeast(kept: seq<nat>, lo: nat, hi: nat, j: nat)
    requires Increasing(kept, lo, hi) && j < |kept|
    ensures kept[j] >= lo + j
  {
    if j == 0 {
    } else {
      KeptAtLeast(kept, lo, hi, j - 1);
    }
  }

  lemma {:induction false} KeptAtMost(kept: seq<nat>, lo: nat, hi: nat, j: nat)
    requires Increasing(kept, lo, hi) && j < |kept|
    ensures kept[j] <= hi - (|kept| - j)
    decreases |kept| - j
  {
    if j + 1 == |kept| {
    } else {
      KeptAtMost(kept, lo, hi, j + 1);
    }
  }

  lemma {:induction false} FlattenSplit(chunks: seq<bytes>, k: nat)
    requires k <= |chunks|
    ensures Flatten(chunks) == Flatten(chunks[..k]) + Flatten(chunks[k..])
    decreases |chunks|
  {
    if k == |chunks| {
      assert chunks[..k] == chunks && chunks[k..] == [];
    } else {
      var front, last := chunks[..|chunks| - 1], chunks[|chunks| - 1];
      FlattenSplit(front, k);
      assert front[..k] == chunks[..k] && chunks[k..][..|chunks| - k - 1] == front[k..];
      ConcatAssociative(Flatten(chunks[..k]), Flatten(front[k..]), last);
    }
  }

  lemma FlattenEmpty(chunks: seq<bytes>)
    requires forall j :: 0 <= j < |chunks| ==> chunks[j] != []
    ensures Flatten(chunks) == [] <==> chunks == []
  {
  }

  /** What a subscriber is shown: the snapshot, then every chunk through its channel. */
  function Shown(sub: Subscriber): bytes
    requires sub.snapshot.Some?
  {
    sub.snapshot.value.content + Flatten(sub.got + sub.queue)
  }

  /** An attentive subscriber: it read this run's file, short enough, and its channel never filled up. */
  ghost predicate Attentive(sub: Subscriber) {
    && sub.active && sub.drops == 0 && sub.snapshot.Some? && sub.snapshot.value.own
    && |sub.snapshot.value.content| < MAX_TAIL
  }

  lemma ChannelCarried(s: State, sub: Subscriber)
    requires ChannelInv(sub, s.written, s.published) && sub.active && sub.drops == 0
    ensures sub.got + sub.queue == s.written[sub.from..s.published]
  {
    forall j | 0 <= j < |sub.kept| ensures sub.kept[j] == sub.from + j {
      AllKept(sub.kept, sub.from, s.published, j);
    }
  }

  /**
   An attentive subscriber is shown the whole log with one stretch doubled: the chunks in
   the file when it read it that were published after it had subscribed.
   */
  lemma ShownIsLogWithOverlap(run: seq<State>, i: nat, who: nat)
    requires IsRun(run) && i < |run| && who < |run[i].subs| && Attentive(run[i].subs[who])
    requires run[i].subs[who].snapshot.value.upTo <= run[i].published
    ensures var s, sub := run[i], run[i].subs[who];
      && sub.from <= sub.snapshot.value.upTo <= s.published <= |s.written|
      && Shown(sub) == Flatten(s.written[..sub.snapshot.value.upTo])
                       + (Flatten(s.written[sub.from..sub.snapshot.value.upTo])
                          + Flatten(s.written[sub.snapshot.value.upTo..s.published]))
  {
    hide IsRun, Tail, Flatten;
    RunKeepsInv(run, i);
    var s, sub := run[i], run[i].subs[who];
    assert ChannelInv(sub, s.written, s.published) && SnapshotInv(sub, s.written);
    ChannelCarried(s, sub);
    TailWhole(Flatten(s.written[..sub.snapshot.value.upTo]));
    var later := s.written[sub.from..s.published];
    FlattenSplit(later, sub.snapshot.value.upTo - sub.from);
    assert later[..sub.snapshot.value.upTo - sub.from] == s.written[sub.from..sub.snapshot.value.upTo];
    assert later[sub.snapshot.value.upTo - sub.from..] == s.written[sub.snapshot.value.upTo..s.published];
  }

  /**
   So it sees each byte once exactly when the file held no more, at the time of reading,
   than had been published before it subscribed. Subscribing first does not rule repeats out.
   */
  lemma SeenOnceExactly(run: seq<State>, i: nat, who: nat)
    requires IsRun(run) && i < |run| && who < |run[i].subs| && Attentive(run[i].subs[who])
    requires run[i].subs[who].snapshot.value.upTo <= run[i].published
    ensures var s, sub := run[i], run[i].subs[who];
      s.published <= |s.written|
      && (Shown(sub) == Flatten(s.written[..s.published]) <==> sub.snapshot.value.upTo == sub.from)
  {
    ShownIsLogWithOverlap(run, i, who);
    RunKeepsInv(run, i);
    var s, sub := run[i], run[i].subs[who];
    var m := sub.snapshot.value.upTo;
    var all := s.written[..s.published];
    FlattenSplit(all, m);
    assert all[..m] == s.written[..m] && all[m..] == s.written[m..s.published];
    FlattenEmpty(s.written[sub.from..m]);
    assert |Shown(sub)| == |Flatten(all)| + |Flatten(s.written[sub.from..m])|;
    if m == sub.from {
      assert Flatten(s.written[sub.from..m]) == [];
      assert [] + Flatten(s.written[m..s.published]) == Flatten(s.written[m..s.published]);
    }
  }

  lemma TakesStep(s: State, a: Action, t: State)
    requires Enabled(s, a) && t == Apply(s, a)
    ensures Step(s, t)
  {
  }

  lemma FlattenOne(chunk: bytes)
    ensures Flatten([chunk]) == chunk
  {
    assert [chunk][..0] == [] && [] + chunk == chunk;
  }

  /** Repeats do happen: a chunk published between subscribing and reading arrives both ways. */
  lemma RepeatsHappen(chunk: bytes) returns (run: seq<State>)
    requires 0 < |chunk| < MAX_TAIL
    ensures IsRun(run)
    ensures var s := run[|run| - 1];
      && |s.subs| == 1 && Attentive(s.subs[0]) && s.written == [chunk] && s.published == 1
      && Shown(s.subs[0]) == chunk + chunk
  {
    hide Flatten, Step, Enabled, Apply, Tail;
    FlattenOne(chunk);
    var joined := Subscriber(0, true, None, [], [], [], 0);
    var offered := joined.(queue := [chunk], kept := [0]);
    var read := offered.(snapshot := Some(Snapshot(chunk, true, 1)));
    var s0 := State(Absent, false, false, [], 0, []);
    var s1 := State(Own, true, false, [], 0, []);
    var s2 := State(Own, true, false, [], 0, [joined]);
    var s3 := State(Own, true, false, [chunk], 0, [joined]);
    var s4 := State(Own, true, false, [chunk], 1, [offered]);
    var s5 := State(Own, true, false, [chunk], 1, [read]);
    CreatesAndJoins(joined, chunk);
    PublishToOne(s3, joined, chunk, s4, offered);
    ReadsOwn(s4, offered, chunk);
    assert [] + [chunk] == [chunk];
    run := [s0, s1, s2, s3, s4, s5];
  }

  lemma CreatesAndJoins(joined: Subscriber, chunk: bytes)
    requires joined == Subscriber(0, true, None, [], [], [], 0) && chunk != []
    ensures Step(State(Absent, false, false, [], 0, []), State(Own, true, false, [], 0, []))
    ensures Step(State(Own, true, false, [], 0, []), State(Own, true, false, [], 0, [joined]))
    ensures Step(State(Own, true, false, [], 0, [joined]), State(Own, true, false, [chunk], 0, [joined]))
  {
    hide Step, Flatten;
    TakesStep(State(Absent, false, false, [], 0, []), Create, State(Own, true, false, [], 0, []));
    TakesStep(State(Own, true, false, [], 0, []), Join, State(Own, true, false, [], 0, [joined]));
    TakesStep(State(Own, true, false, [], 0, [joined]), Write(chunk), State(Own, true, false, [chunk], 0, [joined]));
  }

  lemma ReadsOwn(s: State, sub: Subscriber, chunk: bytes)
    requires s.path.Own? && s.written == [chunk] && s.subs == [sub] && sub.snapshot.None? && |chunk| < MAX_TAIL
    ensures Step(s, s.(subs := [sub.(snapshot := Some(Snapshot(chunk, true, 1)))]))
  {
    hide Step, Flatten;
    FlattenOne(chunk);
    TakesStep(s, Read(0), s.(subs := [sub.(snapshot := Some(Snapshot(chunk, true, 1)))]));
  }

  lemma PublishToOne(s: State, sub: Subscriber, chunk: bytes, t: State, after: Subscriber)
    requires s.subs == [sub] && s.published == 0 && s.written == [chunk]
    requires sub.active && sub.queue == [] && sub.kept == []
    requires after == sub.(queue := [chunk], kept := [0]) && t == s.(published := 1, subs := [after])
    ensures Step(s, t)
  {
    hide Flatten;
    assert sub.queue + [chunk] == [chunk] && sub.kept + [0] == [0];
    assert Apply(s, Action.Publish).subs == [Offer(sub, 0, chunk)];
    TakesStep(s, Action.Publish, t);
  }

  lemma PublishToNone(s: State, chunk: bytes)
    requires s.subs == [] && s.published == 0 && s.written == [chunk]
    ensures Step(s, s.(published := 1))
  {
    hide Flatten;
    assert Apply(s, Action.Publish).subs == [];
    TakesStep(s, Action.Publish, s.(published := 1));
  }

  /** The log is deleted, then a subscriber joins and reads nothing. */
  lemma DeletedThenRead(s: State, joined: Subscriber)
    requires s.subs == [] && !s.ended && joined == Subscriber(s.published, true, None, [], [], [], 0)
    ensures Step(s, s.(path := Absent))
    ensures Step(s.(path := Absent), s.(path := Absent, subs := [joined]))
    ensures Step(s.(path := Absent, subs := [joined]),
                 s.(path := Absent, subs := [joined.(snapshot := Some(Snapshot([], false, |s.written|)))]))
  {
    hide Flatten;
    TakesStep(s, Unlink, s.(path := Absent));
    TakesStep(s.(path := Absent), Join, s.(path := Absent, subs := [joined]));
    var t := s.(path := Absent, subs := [joined]);
    assert AtPath(t) == [] && Tail([], MAX_TAIL) == [];
    TakesStep(t, Read(0), t.(subs := [joined.(snapshot := Some(Snapshot([], false, |s.written|)))]));
  }

  lemma ShownNothing(sub: Subscriber)
    requires sub.snapshot.Some? && sub.snapshot.value.content == [] && sub.got == sub.queue == []
    ensures Shown(sub) == []
  {
  }

  /** Gaps happen too: a log deleted under its run is not there for who subscribes later. */
  lemma GapsHappen(chunk: bytes) returns (run: seq<State>)
    requires chunk != []
    ensures IsRun(run)
    ensures var s := run[|run| - 1];
      && |s.subs| == 1 && s.subs[0].active && s.subs[0].snapshot.Some? && s.written == [chunk] && s.published == 1
      && !Covered(s, s.subs[0], 0) && Shown(s.subs[0]) == []
  {
    hide Step, Flatten, Tail, Shown;
    var joined := Subscriber(1, true, None, [], [], [], 0);
    var read := joined.(snapshot := Some(Snapshot([], false, 1)));
    var s0 := State(Absent, false, false, [], 0, []);
    var s1 := State(Own, true, false, [], 0, []);
    var s2 := State(Own, true, false, [chunk], 0, []);
    var s3 := State(Own, true, false, [chunk], 1, []);
    TakesStep(s0, Create, s1);
    TakesStep(s1, Write(chunk), s2);
    hide Enabled, Apply;
    PublishToNone(s2, chunk);
    DeletedThenRead(s3, joined);
    ShownNothing(read);
    run := [s0, s1, s2, s3, s3.(path := Absent), s3.(path := Absent, subs := [joined]),
            s3.(path := Absent, subs := [read])];
  }

  // ---- how much fits ----

  /** A channel holds 256 chunks, and `Logs` shows 262144 bytes, the last ones of a longer file. */
  lemma SizesAre(sub: Subscriber, index: nat, chunk: bytes, data: bytes)
    ensures !sub.active ==> Offer(sub, index, chunk) == sub
    ensures sub.active && |sub.queue| < 256 ==>
      Offer(sub, index, chunk) == sub.(queue := sub.queue + [chunk], kept := sub.kept + [index])
    ensures sub.active && |sub.queue| >= 256 ==> Offer(sub, index, chunk) == sub.(drops := sub.drops + 1)
    ensures Tail(data, MAX_TAIL) == if |data| <= 262144 then data else data[|data| - 262144..]
  {
  }

  /** The subscriber's channel has never been full. */
  ghost predicate AlwaysRoom(run: seq<State>, i: nat, who: nat)
    requires i < |run|
  {
    forall j :: 0 <= j <= i && who < |run[j].subs| ==> |run[j].subs[who].queue| < 256
  }

  lemma StepDrops(s: State, t: State, who: nat)
    requires Step(s, t) && who < |t.subs| && (who < |s.subs| ==> |s.subs[who].queue| < 256)
    ensures t.subs[who].drops == if who < |s.subs| then s.subs[who].drops else 0
  {
    hide Tail, Flatten;
  }

  /** As long as it has not been, nothing is dropped: it carries every chunk published since subscribing. */
  lemma {:induction false} NothingDropped(run: seq<State>, i: nat, who: nat)
    requires IsRun(run) && i < |run| && who < |run[i].subs| && AlwaysRoom(run, i, who)
    ensures var s, sub := run[i], run[i].subs[who];
      && sub.drops == 0 && sub.from <= s.published <= |s.written|
      && (sub.active ==> sub.got + sub.queue == s.written[sub.from..s.published])
  {
    hide Step;
    NoDrops(run, i, who);
    RunKeepsInv(run, i);
    assert ChannelInv(run[i].subs[who], run[i].written, run[i].published);
    if run[i].subs[who].active {
      ChannelCarried(run[i], run[i].subs[who]);
    }
  }

  lemma {:induction false} NoDrops(run: seq<State>, i: nat, who: nat)
    requires IsRun(run) && i < |run| && who < |run[i].subs| && AlwaysRoom(run, i, who)
    ensures run[i].subs[who].drops == 0
  {
    hide Step;
    if i == 0 {
    } else {
      assert Step(run[i - 1], run[i - 1 + 1]);
      StepDrops(run[i - 1], run[i], who);
      if who < |run[i - 1].subs| {
        NoDrops(run, i - 1, who);
      }
    }
  }

  // ---- what being covered comes to ----

  /** A covered chunk stands whole in what was read, or came through a channel that dropped none, at its place. */
  lemma CoveredIsShown(run: seq<State>, i: nat, who: nat, k: nat)
    requires IsRun(run) && i < |run| && who < |run[i].subs| && k < run[i].published
    requires var sub := run[i].subs[who];
      sub.snapshot.Some? && sub.drops == 0 && |sub.snapshot.value.content| < MAX_TAIL
    requires Covered(run[i], run[i].subs[who], k)
    ensures var s, sub := run[i], run[i].subs[who];
      && s.published <= |s.written|
      && ((sub.snapshot.value.own && Flatten(s.written[..k]) + s.written[k] <= sub.snapshot.value.content)
          || (sub.from <= k < sub.from + |sub.got + sub.queue| && (sub.got + sub.queue)[k - sub.from] == s.written[k]))
  {
    RunKeepsInv(run, i);
    var s, sub := run[i], run[i].subs[who];
    assert ChannelInv(sub, s.written, s.published) && SnapshotInv(sub, s.written);
    hide Flatten, Tail, ChannelInv;
    if sub.snapshot.value.own && k < sub.snapshot.value.upTo {
      SnapshotHolds(sub, s.written, k);
    } else {
      ChannelCarried(s, sub);
    }
  }

  lemma SnapshotHolds(sub: Subscriber, written: seq<bytes>, k: nat)
    requires SnapshotInv(sub, written) && sub.snapshot.Some? && sub.snapshot.value.own
    requires k < sub.snapshot.value.upTo && |sub.snapshot.value.content| < MAX_TAIL
    ensures k < |written| && Flatten(written[..k]) + written[k] <= sub.snapshot.value.content
  {
    hide Flatten, Tail;
    var upTo := sub.snapshot.value.upTo;
    TailWhole(Flatten(written[..upTo]));
    FlattenSplit(written[..upTo], k + 1);
    assert written[..upTo][..k + 1] == written[..k + 1];
    FlattenLast(written, k);
  }

  lemma FlattenLast(chunks: seq<bytes>, k: nat)
    requires k < |chunks|
    ensures Flatten(chunks[..k + 1]) == Flatten(chunks[..k]) + chunks[k]
  {
    assert chunks[..k + 1][..k] == chunks[..k];
  }

  // ---- the order of steps ----

  lemma {:induction false} CreatedStays(run: seq<State>, actions: seq<Action>, i: nat, j: nat)
    requires IsRunBy(run, actions) && i <= j < |run|
    ensures (run[i].created ==> run[j].created) && (run[i].ended ==> run[j].ended)
    decreases j
  {
    hide Tail, Flatten, Offer;
    if i == j {
    } else {
      CreatedStays(run, actions, i, j - 1);
      assert run[j - 1 + 1] == Apply(run[j - 1], actions[j - 1]);
    }
  }

  /** A run creates its log once, and writes to nothing before that. */
  lemma OneLog(run: seq<State>, actions: seq<Action>, i: nat, j: nat)
    requires IsRunBy(run, actions) && i < j < |actions|
    ensures actions[j].Create? ==> !actions[i].Create? && !actions[i].Write?
  {
    hide Tail, Flatten, Offer;
    if actions[j].Create? {
      assert run[i + 1] == Apply(run[i], actions[i]);
      CreatedStays(run, actions, i + 1, j);
    }
  }

  /** Each chunk is published before the next one is written or the run ends, and behind its end there is none. */
  lemma NothingAfterEnd(run: seq<State>, actions: seq<Action>, i: nat, j: nat)
    requires IsRunBy(run, actions) && i < j < |actions| && actions[i].End?
    ensures run[j].published == |run[j].written|
    ensures !actions[j].Create? && !actions[j].Write? && !actions[j].Publish? && !actions[j].End? && !actions[j].Join?
  {
    hide Tail, Flatten, Offer;
    EndedSettled(run, actions, i, j);
  }

  lemma {:induction false} EndedSettled(run: seq<State>, actions: seq<Action>, i: nat, j: nat)
    requires IsRunBy(run, actions) && i < j < |run| && actions[i].End?
    ensures run[j].ended && run[j].published == |run[j].written|
    decreases j
  {
    hide Tail, Flatten, Offer;
    assert run[j - 1 + 1] == Apply(run[j - 1], actions[j - 1]);
    if j > i + 1 {
      EndedSettled(run, actions, i, j - 1);
    }
  }
}
