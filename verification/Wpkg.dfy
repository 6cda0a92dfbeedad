/** The wpkg header (internal/protocol/ilink.go, `wpkgHead` and `decodeWpkgHead`). */
module Wpkg {
  import opened Wire
  import opened Varint

  // ---- collecting and sorting the keys of a map ----

  ghost predicate Ascending(s: seq<int>) {
    forall i, j :: 0 <= i < j < |s| ==> s[i] < s[j]
  }

  function Insert(k: int, s: seq<int>): seq<int> {
    if s == [] || k <= s[0] then [k] + s else [s[0]] + Insert(k, s[1..])
  }

  /** `sort.Ints`. */
  function SortInts(s: seq<int>): seq<int> {
    if s == [] then [] else Insert(s[0], SortInts(s[1..]))
  }

  lemma {:induction false} InsertKeepsOrder(k: int, s: seq<int>)
    requires Ascending(s) && k !in s
    ensures Ascending(Insert(k, s)) && forall x :: x in Insert(k, s) <==> x == k || x in s
  {
    if s != [] && k > s[0] {
      assert forall x :: x in s <==> x == s[0] || x in s[1..];
      InsertKeepsOrder(k, s[1..]);
      var t := Insert(k, s[1..]);
      forall j | 0 <= j < |t| ensures s[0] < t[j] {
        assert t[j] in t;
      }
    }
  }

  lemma {:induction false} SortIntsSorts(s: seq<int>)
    requires forall i, j :: 0 <= i < j < |s| ==> s[i] != s[j]
    ensures Ascending(SortInts(s)) && forall x :: x in SortInts(s) <==> x in s
  {
    if s == [] {
    } else {
      SortIntsSorts(s[1..]);
      assert forall x :: x in s <==> x == s[0] || x in s[1..];
      InsertKeepsOrder(s[0], SortInts(s[1..]));
    }
  }

  /** Only one ascending sequence lists a given set of keys. */
  lemma {:induction false} AscendingUnique(a: seq<int>, b: seq<int>)
    requires Ascending(a) && Ascending(b) && forall x :: x in a <==> x in b
    ensures a == b
  {
    assert (a != [] ==> a[0] in a && a[0] in b) && (b != [] ==> b[0] in b && b[0] in a);
    if a != [] && b != [] {
      assert a[0] == b[0];
      forall x ensures x in a[1..] <==> x in b[1..] {
        assert x in a[1..] <==> x in a && x != a[0];
        assert x in b[1..] <==> x in b && x != b[0];
      }
      AscendingUnique(a[1..], b[1..]);
    }
  }

  lemma Inhabited(s: set<int>)
    ensures s != {} ==> exists k :: k in s
  {
    assert (forall k :: k !in s) ==> s == {};
  }

  /** The keys of a map in ascending order, whatever order the map yields them in. */
  method SortedKeys<T>(m: map<int, T>) returns (keys: seq<int>)
    ensures Ascending(keys) && forall k :: k in keys <==> k in m
  {
    keys := [];
    var left := m.Keys;
    while left != {}
      invariant left <= m.Keys && forall k :: k in m <==> k in keys || k in left
      invariant forall k :: k in keys ==> k !in left
      invariant forall i, j :: 0 <= i < j < |keys| ==> keys[i] != keys[j]
      decreases left
    {
      Inhabited(left);
      var k :| k in left;
      keys := keys + [k];
      left := left - {k};
    }
    SortIntsSorts(keys);
    keys := SortInts(keys);
  }

  // ---- writing the header ----

  /** Keys of the two halves: positive Go ints. */
  ghost predicate ValidKeys<T>(m: map<int, T>) {
    forall k :: k in m ==> 1 <= k < TWO_63
  }

  function IntPairs(ks: seq<int>, ints: map<int, uint64>): bytes
    requires forall i :: 0 <= i < |ks| ==> ks[i] in ints && ks[i] >= 0
  {
    if ks == [] then [] else Encode(ks[0]) + Encode(ints[ks[0]]) + IntPairs(ks[1..], ints)
  }

  function BytePairs(ks: seq<int>, byts: map<int, bytes>): bytes
    requires forall i :: 0 <= i < |ks| ==> ks[i] in byts && ks[i] >= 0
  {
    if ks == [] then [] else Encode(ks[0]) + Encode(|byts[ks[0]]|) + byts[ks[0]] + BytePairs(ks[1..], byts)
  }

  /** A listing of all keys of `m`, in some order, each once. */
  ghost predicate Lists<T>(ks: seq<int>, m: map<int, T>) {
    && (forall i :: 0 <= i < |ks| ==> ks[i] in m && ks[i] >= 0)
    && (forall k :: k in m ==> k in ks)
    && (forall i, j :: 0 <= i < j < |ks| ==> ks[i] != ks[j])
  }

  ghost function Prefix(ks: seq<int>, ints: map<int, uint64>, bks: seq<int>, byts: map<int, bytes>): bytes
    requires Lists(ks, ints) && Lists(bks, byts)
  {
    Encode(1) + (IntPairs(ks, ints) + Encode(0)) + BytePairs(bks, byts)
  }

  /** The header written with the keys in the given orders. */
  ghost function Head(ks: seq<int>, ints: map<int, uint64>, bks: seq<int>, byts: map<int, bytes>): bytes
    requires Lists(ks, ints) && Lists(bks, byts)
  {
    var prefix := Prefix(ks, ints, bks, byts);
    prefix + Encode(0) + Encode(|prefix| + 1)
  }

  lemma AscendingLists<T>(ks: seq<int>, m: map<int, T>)
    requires ValidKeys(m) && Ascending(ks) && forall k :: k in ks <==> k in m
    ensures Lists(ks, m)
  {
    forall i | 0 <= i < |ks| ensures ks[i] in m && ks[i] >= 0 {
      assert ks[i] in ks;
    }
  }

  /** The header proper: the keys of both halves in ascending order. */
  ghost predicate IsHead(out: bytes, ints: map<int, uint64>, byts: map<int, bytes>) {
    exists ks, bks :: Lists(ks, ints) && Ascending(ks) && Lists(bks, byts) && Ascending(bks)
                      && out == Head(ks, ints, bks, byts)
  }

  /** There is only one, so the order in which the maps yield their keys has no effect. */
  lemma HeadUnique(a: bytes, b: bytes, ints: map<int, uint64>, byts: map<int, bytes>)
    requires IsHead(a, ints, byts) && IsHead(b, ints, byts)
    ensures a == b
  {
    hide Head;
    var ks, bks :| Lists(ks, ints) && Ascending(ks) && Lists(bks, byts) && Ascending(bks)
                   && a == Head(ks, ints, bks, byts);
    var ks', bks' :| Lists(ks', ints) && Ascending(ks') && Lists(bks', byts) && Ascending(bks')
                     && b == Head(ks', ints, bks', byts);
    SameKeys(ks, ks', ints);
    SameKeys(bks, bks', byts);
  }

  lemma SameKeys<T>(a: seq<int>, b: seq<int>, m: map<int, T>)
    requires Lists(a, m) && Ascending(a) && Lists(b, m) && Ascending(b)
    ensures a == b
  {
    forall x ensures x in a <==> x in b {
      assert x in a ==> exists i :: 0 <= i < |a| && a[i] == x;
      assert x in b ==> exists i :: 0 <= i < |b| && b[i] == x;
    }
    AscendingUnique(a, b);
  }

  method WpkgHead(ints: map<int, uint64>, byts: map<int, bytes>) returns (out: bytes)
    requires ValidKeys(ints) && ValidKeys(byts)
    ensures IsHead(out, ints, byts)
  {
    hide Encode, IntPairs, BytePairs;
    out := Encode(1);
    var keys := SortedKeys(ints);
    AscendingLists(keys, ints);
    ghost var pairs := IntPairs(keys, ints);
    out := AppendInts(out, keys, ints);
    out := out + Encode(0);
    assert out == Encode(1) + (pairs + Encode(0));
    var bkeys := SortedKeys(byts);
    AscendingLists(bkeys, byts);
    out := AppendByts(out, bkeys, byts);
    assert out == Prefix(keys, ints, bkeys, byts);
    var prefixLen := |out|;
    ZeroEncodes();
    out := out + [0];
    out := out + Encode(prefixLen + 1);
    assert out == Head(keys, ints, bkeys, byts);
  }

  method AppendInts(before: bytes, keys: seq<int>, ints: map<int, uint64>) returns (out: bytes)
    requires forall i :: 0 <= i < |keys| ==> keys[i] in ints && keys[i] >= 0
    ensures out == before + IntPairs(keys, ints)
  {
    hide Encode;
    out := before;
    for i := 0 to |keys|
      invariant before + IntPairs(keys, ints) == out + IntPairs(keys[i..], ints)
    {
      assert keys[i..][0] == keys[i] && keys[i..][1..] == keys[i + 1..];
      out := out + Encode(keys[i]);
      out := out + Encode(ints[keys[i]]);
    }
  }

  method AppendByts(before: bytes, keys: seq<int>, byts: map<int, bytes>) returns (out: bytes)
    requires forall i :: 0 <= i < |keys| ==> keys[i] in byts && keys[i] >= 0
    ensures out == before + BytePairs(keys, byts)
  {
    hide Encode;
    out := before;
    for i := 0 to |keys|
      invariant before + BytePairs(keys, byts) == out + BytePairs(keys[i..], byts)
    {
      assert keys[i..][0] == keys[i] && keys[i..][1..] == keys[i + 1..];
      var v := byts[keys[i]];
      out := out + Encode(keys[i]);
      out := out + Encode(|v|);
      out := out + v;
    }
  }

  lemma ZeroEncodes()
    ensures Encode(0) == [0]
  {
  }

  // ---- reading it back ----

  datatype IntsRead = Ints(m: map<int, uint64>, next: nat) | IntsFail
  datatype BytesRead = Byts(b: map<int, bytes>, next: nat) | BytsFail | BytsPanic
  datatype Decoded = Decoded(ints: map<int, uint64>, byts: map<int, bytes>, length: nat) | Malformed | Panic

  /** The integer half from `i` on: pairs up to a zero key. */
  ghost function ReadInts(data: bytes, i: nat, m: map<int, uint64>): IntsRead
    requires i <= |data|
    decreases |data| - i
  {
    match ReadAt(data, i)
    case Got(fn, at) =>
      if fn == 0 then Ints(m, at)
      else (match ReadAt(data, at)
            case Got(v, next) => ReadInts(data, next, m[ToInt64(fn) := v])
            case _ => IntsFail)
    case _ => IntsFail
  }

  /** The bytes half; a length that overflows a Go int makes the slice panic. */
  ghost function ReadByts(data: bytes, i: nat, b: map<int, bytes>): BytesRead
    requires i <= |data| < TWO_63
    decreases |data| - i
  {
    match ReadAt(data, i)
    case Got(fn, at) =>
      if fn == 0 then Byts(b, at)
      else (match ReadAt(data, at)
            case Got(ln, next) =>
              var end := AddLength(next, ln);
              if end > |data| then BytsFail
              else if end < next then BytsPanic
              else ReadByts(data, end, b[ToInt64(fn) := data[next..end]])
            case _ => BytsFail)
    case _ => BytsFail
  }

  ghost function Decode(data: bytes): (d: Decoded)
    requires |data| < TWO_63
    ensures d.Decoded? ==> d.length <= |data|
  {
    match ReadAt(data, 0)
    case Got(_, at) =>
      (match ReadInts(data, at, map[])
       case IntsFail => Malformed
       case Ints(m, mid) =>
         if mid > |data| then Malformed else
         match ReadByts(data, mid, map[])
         case BytsFail => Malformed
         case BytsPanic => Panic
         case Byts(b, end) =>
           match ReadAt(data, end)
           case Got(_, length) => Decoded(m, b, length)
           case _ => Malformed)
    case _ => Malformed
  }

  method DecodeWpkgHead(data: bytes) returns (r: Decoded)
    requires |data| < TWO_63
    ensures r == Decode(data)
  {
    hide ReadAt;
    var version := ReadVarint(data, 0);
    if !version.Got? {
      return Malformed;
    }
    var i := version.next;
    var ints: map<int, uint64> := map[];
    ghost var goal := ReadInts(data, i, ints);
    while true
      invariant i <= |data| && ReadInts(data, i, ints) == goal
      decreases |data| - i
    {
      var fn := ReadVarint(data, i);
      if !fn.Got? {
        return Malformed;
      }
      i := fn.next;
      if fn.value == 0 {
        break;
      }
      var v := ReadVarint(data, i);
      if !v.Got? {
        return Malformed;
      }
      i := v.next;
      ints := ints[ToInt64(fn.value) := v.value];
    }
    assert goal == Ints(ints, i);
    var byts := DecodeByts(data, i);
    if byts.BytsFail? {
      return Malformed;
    }
    if byts.BytsPanic? {
      return Panic;
    }
    var trailer := ReadVarint(data, byts.next);
    if !trailer.Got? {
      return Malformed;
    }
    r := Decoded(ints, byts.b, trailer.next);
  }

  /** The second of the two loops. */
  method DecodeByts(data: bytes, start: nat) returns (r: BytesRead)
    requires start <= |data| < TWO_63
    ensures r == ReadByts(data, start, map[])
  {
    hide ReadAt;
    var i := start;
    var byts: map<int, bytes> := map[];
    while true
      invariant i <= |data| && ReadByts(data, i, byts) == ReadByts(data, start, map[])
      decreases |data| - i
    {
      var fn := ReadVarint(data, i);
      if !fn.Got? {
        return BytsFail;
      }
      i := fn.next;
      if fn.value == 0 {
        break;
      }
      var ln := ReadVarint(data, i);
      if !ln.Got? {
        return BytsFail;
      }
      i := ln.next;
      var end := AddLength(i, ln.value);
      if end > |data| {
        return BytsFail;
      }
      if end < i {
        return BytsPanic;
      }
      byts := byts[ToInt64(fn.value) := data[i..end]];
      i := end;
    }
    r := Byts(byts, i);
  }

  // ---- reading undoes writing ----

  function PutAll<T>(m: map<int, T>, ks: seq<int>, from: map<int, T>): map<int, T>
    requires forall i :: 0 <= i < |ks| ==> ks[i] in from
    decreases |ks|
  {
    if ks == [] then m else PutAll(m[ks[0] := from[ks[0]]], ks[1..], from)
  }

  lemma {:induction false} PutAllMeaning<T>(m: map<int, T>, ks: seq<int>, from: map<int, T>)
    requires forall i :: 0 <= i < |ks| ==> ks[i] in from
    ensures forall k :: k in PutAll(m, ks, from) <==> k in m || k in ks
    ensures forall k :: k in PutAll(m, ks, from) ==>
              PutAll(m, ks, from)[k] == if k in ks then from[k] else m[k]
    decreases |ks|
  {
    if ks == [] {
    } else {
      PutAllMeaning(m[ks[0] := from[ks[0]]], ks[1..], from);
      assert forall k :: k in ks <==> k == ks[0] || k in ks[1..];
    }
  }

  lemma PutAllListed<T>(ks: seq<int>, m: map<int, T>)
    requires Lists(ks, m)
    ensures PutAll(map[], ks, m) == m
  {
    PutAllMeaning(map[], ks, m);
    var r := PutAll(map[], ks, m);
    forall k | k in ks ensures k in m {
      var i :| 0 <= i < |ks| && ks[i] == k;
    }
    assert forall k :: k in r <==> k in m;
    assert forall k :: k in m ==> r[k] == m[k];
  }

  lemma {:induction false} IntsReadBack(data: bytes, i: nat, ks: seq<int>, ints: map<int, uint64>, m: map<int, uint64>)
    requires i <= |data| && ValidKeys(ints) && forall j :: 0 <= j < |ks| ==> ks[j] in ints && ks[j] >= 0
    requires At(data, i, IntPairs(ks, ints) + Varint.Encode(0))
    ensures ReadInts(data, i, m) == Ints(PutAll(m, ks, ints), i + |IntPairs(ks, ints)| + 1)
    decreases |ks|
  {
    hide Varint.Encode, ReadAt;
    ZeroEncodes();
    if ks == [] {
      assert IntPairs(ks, ints) + Varint.Encode(0) == Varint.Encode(0);
      ReadEncoded(data, i, 0);
    } else {
      var k := ks[0];
      var a, b, rest := Varint.Encode(k), Varint.Encode(ints[k]), IntPairs(ks[1..], ints) + Varint.Encode(0);
      assert IntPairs(ks, ints) + Varint.Encode(0) == (a + b) + rest;
      AtConcat(data, i, a + b, rest);
      AtConcat(data, i, a, b);
      ReadEncoded(data, i, k);
      ReadEncoded(data, i + |a|, ints[k]);
      IntsReadBack(data, i + |a| + |b|, ks[1..], ints, m[k := ints[k]]);
    }
  }

  /** One key, length and value, with something behind them. */
  lemma BytePairRead(data: bytes, i: nat, k: uint64, v: bytes, rest: bytes)
    requires i <= |data| && |v| < TWO_64
    requires At(data, i, ((Varint.Encode(k) + Varint.Encode(|v|)) + v) + rest)
    ensures var at := i + |Varint.Encode(k)|;
      var start := at + |Varint.Encode(|v|)|;
      && ReadAt(data, i) == Got(k, at) && ReadAt(data, at) == Got(|v|, start)
      && start + |v| <= |data| && data[start..start + |v|] == v && At(data, start + |v|, rest)
  {
    hide Varint.Encode, ReadAt;
    var a, n := Varint.Encode(k), Varint.Encode(|v|);
    AtConcat(data, i, (a + n) + v, rest);
    AtConcat(data, i, a + n, v);
    AtConcat(data, i, a, n);
    ReadEncoded(data, i, k);
    ReadEncoded(data, i + |a|, |v|);
  }

  lemma {:induction false} BytsReadBack(data: bytes, i: nat, ks: seq<int>, byts: map<int, bytes>, b: map<int, bytes>)
    requires i <= |data| < TWO_63 && ValidKeys(byts) && forall j :: 0 <= j < |ks| ==> ks[j] in byts && ks[j] >= 0
    requires At(data, i, BytePairs(ks, byts) + Varint.Encode(0))
    ensures ReadByts(data, i, b) == Byts(PutAll(b, ks, byts), i + |BytePairs(ks, byts)| + 1)
    decreases |ks|
  {
    hide Varint.Encode, ReadAt, AddLength;
    ZeroEncodes();
    if ks == [] {
      assert BytePairs(ks, byts) + Varint.Encode(0) == Varint.Encode(0);
      ReadEncoded(data, i, 0);
    } else {
      var k, v, rest := ks[0], byts[ks[0]], BytePairs(ks[1..], byts) + Varint.Encode(0);
      var a, n := Varint.Encode(k), Varint.Encode(|v|);
      assert BytePairs(ks, byts) + Varint.Encode(0) == ((a + n) + v) + rest;
      hide At;
      BytePairRead(data, i, k, v, rest);
      BytsReadBack(data, i + |a| + |n| + |v|, ks[1..], byts, b[k := v]);
    }
  }

  lemma TrailerAt(data: bytes, end: nat)
    requires end < TWO_63 && At(data, end, Varint.Encode(end))
    ensures ReadAt(data, end) == Got(end, end + |Varint.Encode(end)|)
  {
    ReadEncoded(data, end, end);
  }

  /**
   Decoding a header, written with the keys in any order and followed by any body, gives
   back both maps and the header's own size; the trailing number is its own offset.
   */
  lemma HeadReadBack(ks: seq<int>, ints: map<int, uint64>, bks: seq<int>, byts: map<int, bytes>, body: bytes)
    requires ValidKeys(ints) && ValidKeys(byts) && Lists(ks, ints) && Lists(bks, byts)
    requires |Head(ks, ints, bks, byts) + body| < TWO_63
    ensures var head := Head(ks, ints, bks, byts);
      var offset := |Prefix(ks, ints, bks, byts)| + 1;
      && Decode(head + body) == Decoded(ints, byts, |head|)
      && ReadAt(head + body, offset) == Got(offset, |head|)
  {
    hide Varint.Encode, ReadAt, IntPairs, BytePairs, ReadInts, ReadByts;
    var one, zero := Varint.Encode(1), Varint.Encode(0);
    var ip, bp := IntPairs(ks, ints), BytePairs(bks, byts);
    var prefix := Prefix(ks, ints, bks, byts);
    var end := |prefix| + 1;
    var head := Head(ks, ints, bks, byts);
    var data := head + body;
    ZeroEncodes();
    assert Varint.Encode(1) == [1] by { OneEncodes(); }
    assert head == (one + (ip + zero)) + (bp + zero) + Varint.Encode(end);
    assert At(data, 0, head) by { assert data[0..0 + |head|] == head; }
    AtConcat(data, 0, (one + (ip + zero)) + (bp + zero), Varint.Encode(end));
    AtConcat(data, 0, one + (ip + zero), bp + zero);
    AtConcat(data, 0, one, ip + zero);
    ReadEncoded(data, 0, 1);
    IntsReadBack(data, 1, ks, ints, map[]);
    BytsReadBack(data, 2 + |ip|, bks, byts, map[]);
    TrailerAt(data, end);
    PutAllListed(ks, ints);
    PutAllListed(bks, byts);
  }

  lemma OneEncodes()
    ensures Varint.Encode(1) == [1]
  {
  }

  /** The same for the header the code writes. */
  lemma HeadRoundTrip(head: bytes, ints: map<int, uint64>, byts: map<int, bytes>, body: bytes)
    requires ValidKeys(ints) && ValidKeys(byts) && IsHead(head, ints, byts) && |head + body| < TWO_63
    ensures Decode(head + body) == Decoded(ints, byts, |head|)
  {
    hide Head;
    var ks, bks :| Lists(ks, ints) && Ascending(ks) && Lists(bks, byts) && Ascending(bks)
                   && head == Head(ks, ints, bks, byts);
    HeadReadBack(ks, ints, bks, byts, body);
  }

  // ---- in bytes ----

  /** Version 1, the pairs in order of key, 0, the second half, 0, and the offset of the last byte. */
  lemma SmallHeadIs(out: bytes, j: nat, v: nat, k: nat, w: nat, b: nat, data: bytes)
    requires 0 < j < k < 128 && v < 128 && w < 128 && 0 < b < 128 && |data| < 100
    requires IsHead(out, map[j := v, k := w], map[b := data])
    ensures out == [1, j, v, k, w, 0, b, |data|] + data + [0, 9 + |data|]
  {
    hide Varint.Encode, Head;
    var ints: map<int, uint64> := map[j := v, k := w];
    var byts: map<int, bytes> := map[b := data];
    assert Lists([j, k], ints) && Ascending([j, k]) && Lists([b], byts) && Ascending([b]);
    HeadUnique(out, Head([j, k], ints, [b], byts), ints, byts);
    SmallPrefix(j, v, k, w, b, data);
    var prefix := Prefix([j, k], ints, [b], byts);
    hide Prefix;
    OneByte(0);
    OneByte(|prefix| + 1);
    assert Head([j, k], ints, [b], byts) == prefix + [0] + [|prefix| + 1] by { HeadIs([j, k], ints, [b], byts); }
  }

  lemma OneByte(n: nat)
    requires n < 128
    ensures Varint.Encode(n) == [n]
  {
  }

  lemma HeadIs(ks: seq<int>, ints: map<int, uint64>, bks: seq<int>, byts: map<int, bytes>)
    requires Lists(ks, ints) && Lists(bks, byts)
    ensures var prefix := Prefix(ks, ints, bks, byts);
      Head(ks, ints, bks, byts) == prefix + Varint.Encode(0) + Varint.Encode(|prefix| + 1)
  {
    hide Varint.Encode, Prefix;
  }

  lemma SmallPrefix(j: nat, v: nat, k: nat, w: nat, b: nat, data: bytes)
    requires 0 < j < k < 128 && v < 128 && w < 128 && 0 < b < 128 && |data| < 100
    requires Lists([j, k], map[j := v, k := w]) && Lists([b], map[b := data])
    ensures Prefix([j, k], map[j := v, k := w], [b], map[b := data]) == [1, j, v, k, w, 0, b, |data|] + data
  {
    hide Varint.Encode, Lists;
    OneByte(1); OneByte(0); OneByte(j); OneByte(v); OneByte(k); OneByte(w); OneByte(b); OneByte(|data|);
    var ints: map<int, uint64> := map[j := v, k := w];
    assert [j, k][1..] == [k] && [k][1..] == [] && [b][1..] == [];
    assert IntPairs([k], ints) == [k] + [w] + [];
    assert IntPairs([j, k], ints) == [j] + [v] + IntPairs([k], ints);
    assert BytePairs([b], map[b := data]) == [b] + [|data|] + data + [];
  }

  /** A length past the end of the data is malformed, unless its end is past the largest Go int: then it panics. */
  lemma LengthBeyondData(b: nat, n: uint64, data: bytes, rest: bytes)
    requires 0 < b < 128 && data == [1, 0, b] + Varint.Encode(n) + rest && |data| < TWO_63 && n > |rest|
    ensures Decode(data) == if 3 + |Varint.Encode(n)| + n < 0x8000_0000_0000_0000 then Malformed else Panic
  {
    hide ReadAt, Varint.Encode, ReadInts, ReadByts;
    TenGroups(n);
    OneByteRead(data, 0);
    OneByteRead(data, 1);
    OneByteRead(data, 2);
    assert At(data, 3, Varint.Encode(n)) by { assert data[3..3 + |Varint.Encode(n)|] == Varint.Encode(n); }
    ReadEncoded(data, 3, n);
    assert ReadInts(data, 1, map[]) == Ints(map[], 2) by { NoInts(data, 1); }
    BytsStop(data, 2);
  }

  lemma OneByteRead(data: bytes, i: nat)
    requires i < |data| && data[i] < 128
    ensures ReadAt(data, i) == Got(data[i], i + 1)
  {
    hide ReadAt;
    OneByte(data[i]);
    ReadEncoded(data, i, data[i]);
  }

  lemma NoInts(data: bytes, i: nat)
    requires i < |data| && data[i] == 0
    ensures ReadInts(data, i, map[]) == Ints(map[], i + 1)
  {
    hide ReadAt;
    OneByteRead(data, i);
  }

  lemma BytsStop(data: bytes, i: nat)
    requires i < |data| < TWO_63 && 0 < data[i] < 128 && ReadAt(data, i + 1).Got?
    requires var r := ReadAt(data, i + 1); r.next + r.value > |data|
    ensures var r := ReadAt(data, i + 1);
      ReadByts(data, i, map[]) == if r.next + r.value < 0x8000_0000_0000_0000 then BytsFail else BytsPanic
  {
    hide ReadAt;
    OneByteRead(data, i);
  }

  /** A header that ends early is malformed. */
  lemma EarlyEnds()
    ensures Decode([]) == Decode([1]) == Decode([1, 0]) == Decode([1, 0, 0]) == Malformed
  {
    hide ReadAt;
    ReadFails([], 0, 0);
    OneByteRead([1], 0);
    ReadFails([1], 1, 1);
    OneByteRead([1, 0], 0);
    OneByteRead([1, 0], 1);
    ReadFails([1, 0], 2, 2);
    OneByteRead([1, 0, 0], 0);
    OneByteRead([1, 0, 0], 1);
    OneByteRead([1, 0, 0], 2);
    ReadFails([1, 0, 0], 3, 3);
  }
}
