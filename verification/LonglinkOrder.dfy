/**
 `orderLonglinkTargets` of internal/protocol/newdns.go: one target per address, on its most
 preferred port, in order of address; or all targets in that order when none is preferred.
 */
module LonglinkOrder {

  datatype Target = Target(ip: string, port: int)

  const PREF: seq<int> := [8080, 80, 443, 5000]

  /** Go's `a < b` on strings: UTF-8 bytes compare as characters do. */
  predicate Less(a: string, b: string) {
    if b == [] then false
    else if a == [] then true
    else a[0] < b[0] || (a[0] == b[0] && Less(a[1..], b[1..]))
  }

  lemma {:induction false} LessIsTotal(a: string, b: string)
    ensures Less(a, b) || a == b || Less(b, a)
    ensures !(Less(a, b) && Less(b, a)) && !Less(a, a)
  {
    if a != [] && b != [] {
      LessIsTotal(a[1..], b[1..]);
      assert a == [a[0]] + a[1..] && b == [b[0]] + b[1..];
    }
    if a == [] {
    } else {
      LessIsTotal(a[1..], a[1..]);
    }
  }

  lemma {:induction false} LessIsTransitive(a: string, b: string, c: string)
    requires Less(a, b) && !Less(c, b)
    ensures Less(a, c)
  {
    if a != [] && c != [] && a[0] == b[0] == c[0] {
      LessIsTransitive(a[1..], b[1..], c[1..]);
    }
  }

  // ---- stable sorting ----

  /** Nothing further on has a smaller address. */
  ghost predicate Ascending(ts: seq<Target>) {
    forall i, j :: 0 <= i < j < |ts| ==> !Less(ts[j].ip, ts[i].ip)
  }

  ghost predicate StrictlyAscending(ts: seq<Target>) {
    forall i, j :: 0 <= i < j < |ts| ==> Less(ts[i].ip, ts[j].ip)
  }

  /** Those with one address, in order. */
  function WithIp(ts: seq<Target>, ip: string): seq<Target> {
    if ts == [] then []
    else WithIp(ts[..|ts| - 1], ip) + if ts[|ts| - 1].ip == ip then [ts[|ts| - 1]] else []
  }

  /** Put behind everything whose address is not greater. */
  function Insert(ts: seq<Target>, t: Target): (r: seq<Target>)
    ensures |r| == |ts| + 1
  {
    if ts != [] && Less(t.ip, ts[|ts| - 1].ip) then Insert(ts[..|ts| - 1], t) + [ts[|ts| - 1]] else ts + [t]
  }

  /** `sort.SliceStable` by address. */
  function StableSort(ts: seq<Target>): (r: seq<Target>)
    ensures |r| == |ts|
  {
    if ts == [] then [] else Insert(StableSort(ts[..|ts| - 1]), ts[|ts| - 1])
  }

  lemma ElementsSplit(ts: seq<Target>)
    requires ts != []
    ensures multiset(ts) == multiset(ts[..|ts| - 1]) + multiset{ts[|ts| - 1]}
  {
    assert ts == ts[..|ts| - 1] + [ts[|ts| - 1]];
  }

  lemma {:induction false} InsertElements(ts: seq<Target>, t: Target)
    ensures multiset(Insert(ts, t)) == multiset(ts) + multiset{t}
  {
    if ts != [] && Less(t.ip, ts[|ts| - 1].ip) {
      InsertElements(ts[..|ts| - 1], t);
      ElementsSplit(ts);
    }
  }

  lemma {:induction false} InsertAscending(ts: seq<Target>, t: Target)
    requires Ascending(ts)
    ensures Ascending(Insert(ts, t))
  {
    if ts != [] && Less(t.ip, ts[|ts| - 1].ip) {
      var front, last := ts[..|ts| - 1], ts[|ts| - 1];
      InsertAscending(front, t);
      InsertElements(front, t);
      LessIsTotal(t.ip, last.ip);
      var r := Insert(front, t);
      forall i | 0 <= i < |r| ensures !Less(last.ip, r[i].ip) {
        assert r[i] in multiset(r);
        assert r[i] in front || r[i] == t;
      }
    } else if ts != [] {
      var last := ts[|ts| - 1];
      forall i | 0 <= i < |ts| ensures !Less(t.ip, ts[i].ip) {
        if Less(t.ip, ts[i].ip) {
          LessIsTransitive(t.ip, ts[i].ip, last.ip);
        }
      }
    }
  }

  lemma {:induction false} WithIpAppend(ts: seq<Target>, t: Target, ip: string)
    ensures WithIp(ts + [t], ip) == WithIp(ts, ip) + if t.ip == ip then [t] else []
  {
    assert (ts + [t])[..|ts|] == ts;
  }

  lemma {:induction false} InsertStable(ts: seq<Target>, t: Target, ip: string)
    ensures WithIp(Insert(ts, t), ip) == WithIp(ts + [t], ip)
  {
    WithIpAppend(ts, t, ip);
    if ts != [] && Less(t.ip, ts[|ts| - 1].ip) {
      var front, last := ts[..|ts| - 1], ts[|ts| - 1];
      InsertStable(front, t, ip);
      assert Insert(ts, t) == Insert(front, t) + [last];
      hide Insert;
      WithIpAppend(front, t, ip);
      WithIpAppend(Insert(front, t), last, ip);
      LessIsTotal(t.ip, last.ip);
    }
  }

  lemma {:induction false} SortElements(ts: seq<Target>)
    ensures multiset(StableSort(ts)) == multiset(ts)
  {
    if ts == [] {
    } else {
      var front, last := ts[..|ts| - 1], ts[|ts| - 1];
      assert StableSort(ts) == Insert(StableSort(front), last);
      hide Insert, StableSort;
      SortElements(front);
      InsertElements(StableSort(front), last);
      ElementsSplit(ts);
    }
  }

  lemma {:induction false} SortAscending(ts: seq<Target>)
    ensures Ascending(StableSort(ts))
  {
    if ts == [] {
    } else {
      hide Insert;
      SortAscending(ts[..|ts| - 1]);
      InsertAscending(StableSort(ts[..|ts| - 1]), ts[|ts| - 1]);
    }
  }

  lemma {:induction false} SortKeepsEqual(ts: seq<Target>, ip: string)
    ensures WithIp(StableSort(ts), ip) == WithIp(ts, ip)
  {
    if ts == [] {
    } else {
      var front, last := ts[..|ts| - 1], ts[|ts| - 1];
      hide Insert;
      SortKeepsEqual(front, ip);
      InsertStable(StableSort(front), last, ip);
      WithIpAppend(StableSort(front), last, ip);
    }
  }

  /** The sort only reorders, puts addresses in order, and keeps equal addresses as they were. */
  lemma StableSortIsStable(ts: seq<Target>, ip: string)
    ensures multiset(StableSort(ts)) == multiset(ts)
    ensures Ascending(StableSort(ts))
    ensures WithIp(StableSort(ts), ip) == WithIp(ts, ip)
  {
    SortElements(ts);
    SortAscending(ts);
    SortKeepsEqual(ts, ip);
  }

  // ---- picking ----

  /** `t` is offered and no more preferred port is offered at its address. */
  ghost predicate IsBest(targets: seq<Target>, t: Target) {
    t in targets && exists k :: 0 <= k < |PREF| && BestAt(targets, t, k)
  }

  ghost predicate BestAt(targets: seq<Target>, t: Target, k: int)
    requires 0 <= k < |PREF|
  {
    t.port == PREF[k] && forall j :: 0 <= j < k ==> Target(t.ip, PREF[j]) !in targets
  }

  /** After the first `k` ports and, of the next, the first `n` targets: what has been picked. */
  ghost predicate Picked(targets: seq<Target>, k: nat, n: nat, out: seq<Target>, seen: set<string>)
    requires k <= |PREF| && n <= |targets| && (k == |PREF| ==> n == 0)
  {
    && (forall ip :: ip in seen <==> OfferedSoFar(targets, k, n, ip))
    && (forall t :: t in out ==> t.ip in seen && IsBest(targets, t))
    && (forall ip :: ip in seen ==> exists t :: t in out && t.ip == ip)
    && forall i, j :: 0 <= i < j < |out| ==> out[i].ip != out[j].ip
  }

  /** The address offers one of the ports looked at so far. */
  ghost predicate OfferedSoFar(targets: seq<Target>, k: nat, n: nat, ip: string)
    requires k <= |PREF| && n <= |targets| && (k == |PREF| ==> n == 0)
  {
    || (exists j :: 0 <= j < k && Target(ip, PREF[j]) in targets)
    || (n > 0 && Target(ip, PREF[k]) in targets[..n])
  }

  lemma PortDone(targets: seq<Target>, k: nat, ip: string)
    requires k < |PREF|
    ensures OfferedSoFar(targets, k, |targets|, ip) <==> OfferedSoFar(targets, k + 1, 0, ip)
    ensures OfferedSoFar(targets, 0, 0, ip) == false
  {
    assert targets[..|targets|] == targets;
  }

  lemma OneMore(targets: seq<Target>, k: nat, n: nat, ip: string)
    requires k < |PREF| && n < |targets|
    ensures OfferedSoFar(targets, k, n + 1, ip)
            <==> OfferedSoFar(targets, k, n, ip) || (targets[n].ip == ip && targets[n].port == PREF[k])
  {
    assert targets[..n + 1] == targets[..n] + [targets[n]];
  }

  lemma PickOne(targets: seq<Target>, k: nat, n: nat, out: seq<Target>, seen: set<string>)
    requires k < |PREF| && n < |targets| && Picked(targets, k, n, out, seen)
    ensures var t := targets[n];
      if t.port == PREF[k] && t.ip !in seen
      then Picked(targets, k, n + 1, out + [t], seen + {t.ip})
      else Picked(targets, k, n + 1, out, seen)
  {
    var t := targets[n];
    forall ip
      ensures OfferedSoFar(targets, k, n + 1, ip)
              <==> OfferedSoFar(targets, k, n, ip) || (t.ip == ip && t.port == PREF[k])
    {
      OneMore(targets, k, n, ip);
    }
    if t.port == PREF[k] && t.ip !in seen {
      FreshIsBest(targets, k, n);
      hide OfferedSoFar, IsBest;
      forall ip | ip in seen + {t.ip} ensures exists u :: u in out + [t] && u.ip == ip {
        if ip in seen {
          var u :| u in out && u.ip == ip;
          assert u in out + [t];
        } else {
          assert t in out + [t];
        }
      }
      forall i | 0 <= i < |out| ensures out[i].ip != t.ip {
        assert out[i] in out;
      }
    }
  }

  lemma FreshIsBest(targets: seq<Target>, k: nat, n: nat)
    requires k < |PREF| && n < |targets| && targets[n].port == PREF[k] && !OfferedSoFar(targets, k, n, targets[n].ip)
    ensures IsBest(targets, targets[n])
  {
    assert BestAt(targets, targets[n], k);
  }

  lemma PickedStart(targets: seq<Target>)
    ensures Picked(targets, 0, 0, [], {})
  {
  }

  lemma PortEnds(targets: seq<Target>, k: nat, out: seq<Target>, seen: set<string>)
    requires k < |PREF| && Picked(targets, k, |targets|, out, seen)
    ensures Picked(targets, k + 1, 0, out, seen)
  {
    forall ip ensures OfferedSoFar(targets, k, |targets|, ip) <==> OfferedSoFar(targets, k + 1, 0, ip) {
      PortDone(targets, k, ip);
    }
    hide OfferedSoFar, IsBest;
  }

  /** An address has one best port. */
  lemma BestIsUnique(targets: seq<Target>, t: Target, u: Target)
    requires IsBest(targets, t) && IsBest(targets, u) && t.ip == u.ip
    ensures t == u
  {
    var j: int :| 0 <= j < |PREF| && BestAt(targets, t, j);
    var k: int :| 0 <= k < |PREF| && BestAt(targets, u, k);
    assert t == Target(t.ip, PREF[j]) && u == Target(t.ip, PREF[k]);
  }

  lemma BestIsOffered(targets: seq<Target>, t: Target)
    requires IsBest(targets, t)
    ensures OfferedSoFar(targets, |PREF|, 0, t.ip)
  {
    var k: int :| 0 <= k < |PREF| && BestAt(targets, t, k);
    assert t == Target(t.ip, PREF[k]);
  }

  lemma AllPicked(targets: seq<Target>, out: seq<Target>, seen: set<string>)
    requires Picked(targets, |PREF|, 0, out, seen)
    ensures forall t :: t in out <==> IsBest(targets, t)
    ensures DistinctIps(out)
  {
    hide OfferedSoFar, IsBest;
    forall t | IsBest(targets, t) ensures t in out {
      BestIsOffered(targets, t);
      var u :| u in out && u.ip == t.ip;
      BestIsUnique(targets, t, u);
    }
  }

  ghost predicate DistinctIps(ts: seq<Target>) {
    forall i, j :: 0 <= i < j < |ts| ==> ts[i].ip != ts[j].ip
  }

  /** The picks before sorting. */
  method Pick(targets: seq<Target>) returns (out: seq<Target>)
    ensures forall t :: t in out <==> IsBest(targets, t)
    ensures DistinctIps(out)
  {
    var seen: set<string> := {};
    out := [];
    hide Picked, OfferedSoFar, IsBest;
    PickedStart(targets);
    for k := 0 to |PREF|
      invariant Picked(targets, k, 0, out, seen)
    {
      for n := 0 to |targets|
        invariant Picked(targets, k, n, out, seen)
      {
        var t := targets[n];
        PickOne(targets, k, n, out, seen);
        if t.port == PREF[k] && t.ip !in seen {
          seen := seen + {t.ip};
          out := out + [t];
        }
      }
      PortEnds(targets, k, out, seen);
    }
    AllPicked(targets, out, seen);
  }

  // ---- the whole order ----

  lemma {:induction false} OneWithIp(ts: seq<Target>, ip: string)
    requires DistinctIps(ts)
    ensures |WithIp(ts, ip)| <= 1
    ensures (forall i :: 0 <= i < |ts| ==> ts[i].ip != ip) ==> WithIp(ts, ip) == []
  {
    if ts == [] {
    } else {
      OneWithIp(ts[..|ts| - 1], ip);
    }
  }

  lemma {:induction false} SomeWithIp(ts: seq<Target>, i: nat)
    requires i < |ts|
    ensures |WithIp(ts, ts[i].ip)| >= 1
  {
    if i == |ts| - 1 {
    } else {
      SomeWithIp(ts[..|ts| - 1], i);
    }
  }

  lemma {:induction false} TwoWithIp(ts: seq<Target>, i: nat, j: nat)
    requires i < j < |ts| && ts[i].ip == ts[j].ip
    ensures |WithIp(ts, ts[i].ip)| >= 2
  {
    if j == |ts| - 1 {
      SomeWithIp(ts[..j], i);
    } else {
      TwoWithIp(ts[..|ts| - 1], i, j);
    }
  }

  lemma SortDistinct(ts: seq<Target>)
    requires DistinctIps(ts)
    ensures StrictlyAscending(StableSort(ts)) && forall t :: t in StableSort(ts) <==> t in ts
  {
    var r := StableSort(ts);
    StableSortIsStable(ts, "");
    hide StableSort;
    forall t ensures t in r <==> t in ts {
      assert t in multiset(r) <==> t in multiset(ts);
    }
    forall i, j | 0 <= i < j < |r| ensures Less(r[i].ip, r[j].ip) {
      if r[i].ip == r[j].ip {
        TwoWithIp(r, i, j);
        StableSortIsStable(ts, r[i].ip);
        OneWithIp(ts, r[i].ip);
      }
      LessIsTotal(r[i].ip, r[j].ip);
    }
  }

  ghost predicate SomePreferred(targets: seq<Target>) {
    exists i :: 0 <= i < |targets| && targets[i].port in PREF
  }

  lemma BestExists(targets: seq<Target>)
    ensures SomePreferred(targets) <==> exists t :: IsBest(targets, t)
  {
    if SomePreferred(targets) {
      var i :| 0 <= i < |targets| && targets[i].port in PREF;
      var k :| 0 <= k < |PREF| && PREF[k] == targets[i].port;
      assert Target(targets[i].ip, PREF[k]) == targets[i];
      var t := FirstOffered(targets, targets[i].ip, k);
    }
    if t: Target :| IsBest(targets, t) {
      var i :| 0 <= i < |targets| && targets[i] == t;
      assert targets[i].port in PREF;
    }
  }

  lemma {:induction false} FirstOffered(targets: seq<Target>, ip: string, k: nat) returns (t: Target)
    requires k < |PREF| && Target(ip, PREF[k]) in targets
    ensures IsBest(targets, t) && t.ip == ip
    decreases k
  {
    if j: nat :| j < k && Target(ip, PREF[j]) in targets {
      t := FirstOffered(targets, ip, j);
    } else {
      t := Target(ip, PREF[k]);
      assert BestAt(targets, t, k);
    }
  }

  function Truncate(ts: seq<Target>, max: int): seq<Target> {
    if max > 0 && |ts| > max then ts[..max] else ts
  }

  /** Exactly one target per address with a preferred port, its best one, in order of address. */
  ghost predicate IsBestInOrder(targets: seq<Target>, full: seq<Target>) {
    StrictlyAscending(full) && forall t :: t in full <==> IsBest(targets, t)
  }

  method OrderLonglinkTargets(targets: seq<Target>, max: int) returns (r: seq<Target>)
    ensures SomePreferred(targets) ==> exists full :: IsBestInOrder(targets, full) && r == Truncate(full, max)
    ensures !SomePreferred(targets) ==> r == Truncate(StableSort(targets), max)
  {
    var out := Pick(targets);
    BestExists(targets);
    hide IsBest, StableSort, SomePreferred;
    assert out == [] <==> !SomePreferred(targets) by {
      if out != [] {
        assert out[0] in out;
      }
    }
    SortDistinct(out);
    if |out| == 0 {
      out := out + targets;
      assert out == targets;
    }
    out := StableSort(out);
    assert SomePreferred(targets) ==> IsBestInOrder(targets, out);
    r := out;
    if max > 0 && |out| > max {
      r := out[..max];
    }
    assert r == Truncate(out, max);
  }

  lemma FirstIsIn(ts: seq<Target>)
    ensures ts != [] ==> exists t :: t in ts
  {
    if ts != [] {
      assert ts[0] in ts;
    }
  }

  lemma {:induction false} OneAscendingOrder(a: seq<Target>, b: seq<Target>)
    requires StrictlyAscending(a) && StrictlyAscending(b) && forall t :: t in a <==> t in b
    ensures a == b
    decreases |a|
  {
    FirstIsIn(b);
    if a == [] {
    } else {
      assert a[|a| - 1] in b;
      LastIsSame(a, b);
      var x, y := a[..|a| - 1], b[..|b| - 1];
      forall t ensures t in x <==> t in y {
        InFront(a, t);
        InFront(b, t);
      }
      OneAscendingOrder(x, y);
    }
  }

  lemma InFront(a: seq<Target>, t: Target)
    requires a != [] && StrictlyAscending(a)
    ensures t in a[..|a| - 1] <==> t in a && t != a[|a| - 1]
  {
    LessIsTotal(t.ip, t.ip);
    if t in a && t != a[|a| - 1] {
      var i :| 0 <= i < |a| && a[i] == t;
      assert a[..|a| - 1][i] == t;
    }
  }

  lemma LastIsSame(a: seq<Target>, b: seq<Target>)
    requires a != [] && b != [] && StrictlyAscending(a) && StrictlyAscending(b) && forall t :: t in a <==> t in b
    ensures a[|a| - 1] == b[|b| - 1]
  {
    var x, y := a[|a| - 1], b[|b| - 1];
    assert x in a && y in b;
    var i :| 0 <= i < |b| && b[i] == x;
    var j :| 0 <= j < |a| && a[j] == y;
    if x != y {
      assert Less(x.ip, y.ip) && Less(y.ip, x.ip);
      LessIsTotal(x.ip, y.ip);
    }
  }

  /** So the order in which the targets were found, and repeats among them, make no difference. */
  lemma OrderIndependent(ts: seq<Target>, us: seq<Target>, a: seq<Target>, b: seq<Target>)
    requires (forall t :: t in ts <==> t in us) && IsBestInOrder(ts, a) && IsBestInOrder(us, b)
    ensures a == b
  {
    forall t ensures IsBest(ts, t) <==> IsBest(us, t) {
      SameBest(ts, us, t);
      SameBest(us, ts, t);
    }
    hide IsBest;
    OneAscendingOrder(a, b);
  }

  lemma SameBest(ts: seq<Target>, us: seq<Target>, t: Target)
    requires (forall u :: u in ts <==> u in us)
    ensures IsBest(ts, t) ==> IsBest(us, t)
  {
    if IsBest(ts, t) {
      var k: int :| 0 <= k < |PREF| && BestAt(ts, t, k);
      assert BestAt(us, t, k);
    }
  }

  // ---- in plain terms ----

  /** Where two texts first differ, or one ends, decides. */
  ghost predicate DiffersAt(a: string, b: string, k: nat) {
    k <= |a| && k < |b| && a[..k] == b[..k] && (k < |a| ==> a[k] < b[k])
  }

  lemma {:induction false} LessExactly(a: string, b: string)
    ensures Less(a, b) <==> exists k: nat :: DiffersAt(a, b, k)
  {
    if b == [] || a == [] {
      if b != [] {
        assert DiffersAt(a, b, 0);
      }
    } else {
      LessExactly(a[1..], b[1..]);
      if a[0] < b[0] {
        assert DiffersAt(a, b, 0);
      }
      forall k: nat | a[0] == b[0] && DiffersAt(a[1..], b[1..], k) ensures DiffersAt(a, b, k + 1) {
        assert a[..k + 1] == [a[0]] + a[1..][..k] && b[..k + 1] == [b[0]] + b[1..][..k];
      }
      forall k: nat | DiffersAt(a, b, k) ensures Less(a, b) {
        if k > 0 {
          assert a[0] == a[..k][0] == b[..k][0] == b[0];
          assert a[1..][..k - 1] == a[..k][1..] && b[1..][..k - 1] == b[..k][1..];
          assert DiffersAt(a[1..], b[1..], k - 1);
        }
      }
    }
  }

  /** Port 8080 before 80, that before 443, that before 5000, and no other. */
  lemma BestIs(targets: seq<Target>, t: Target)
    ensures IsBest(targets, t)
            <==> t in targets
                 && var a, b := Target(t.ip, 8080) in targets, Target(t.ip, 80) in targets;
                    var c := Target(t.ip, 443) in targets;
                    || t.port == 8080
                    || (t.port == 80 && !a)
                    || (t.port == 443 && !a && !b)
                    || (t.port == 5000 && !a && !b && !c)
  {
    assert PREF[0] == 8080 && PREF[1] == 80 && PREF[2] == 443 && PREF[3] == 5000;
    assert BestAt(targets, t, 0) <==> t.port == 8080;
    assert BestAt(targets, t, 1) <==> t.port == 80 && Target(t.ip, 8080) !in targets;
    assert BestAt(targets, t, 2)
           <==> t.port == 443 && Target(t.ip, 8080) !in targets && Target(t.ip, 80) !in targets;
    assert BestAt(targets, t, 3)
           <==> t.port == 5000 && Target(t.ip, 8080) !in targets && Target(t.ip, 80) !in targets
                && Target(t.ip, 443) !in targets;
    hide BestAt;
  }

  /** A positive limit keeps the first ones, no limit keeps all. */
  lemma TruncateIs(ts: seq<Target>, max: int)
    ensures var r := Truncate(ts, max);
      && r <= ts && |r| == (if 0 < max <= |ts| then max else |ts|)
      && forall i :: 0 <= i < |r| ==> r[i] == ts[i]
  {
  }
}
