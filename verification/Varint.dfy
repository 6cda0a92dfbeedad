/**
 Base-128 varints (internal/protocol/bytes.go, `varint` and `readVarint`), after
 "Base 128 Varints" in the Protocol Buffers encoding guide.
 */
module Varint {
  import opened Wire

  /** The weight `1 << 7*k` of the k-th seven-bit group. */
  function Weight(k: nat): (w: nat)
    ensures w >= 1
  {
    if k == 0 then 1 else 128 * Weight(k - 1)
  }

  /** Go's `uint64(x) << shift` for whole groups: bits past the 64th are lost. */
  function Shl64(x: byte, shift: nat): uint64
  {
    x * Weight(shift / 7) % TWO_64
  }

  lemma {:induction false} WeightMonotone(j: nat, k: nat)
    requires j <= k
    ensures Weight(j) <= Weight(k)
    decreases k - j
  {
    if j == k {
    } else {
      WeightMonotone(j + 1, k);
    }
  }

  lemma Weights()
    ensures Weight(8) == 0x100_0000_0000_0000 && Weight(9) == TWO_63
  {
    assert Weight(2) == 0x4000;
    assert Weight(4) == 0x1000_0000;
    assert Weight(6) == 0x400_0000_0000;
  }

  /** The number a run of seven-bit groups stands for, least significant group first. */
  ghost function Value(s: bytes): nat
  {
    if s == [] then 0 else s[0] % 128 + 128 * Value(s[1..])
  }

  /** One or more bytes of which exactly the last has its continuation bit clear. */
  ghost predicate WellFormed(s: bytes)
  {
    |s| > 0 && s[|s| - 1] < 128 && forall j :: 0 <= j < |s| - 1 ==> s[j] >= 128
  }

  function Encode(n: nat): bytes
  {
    if n < 128 then [n] else [n % 128 + 128] + Encode(n / 128)
  }

  /** An encoding is one self-delimiting run, worth `n`, without a useless last group. */
  lemma {:induction false} EncodeMeaning(n: nat)
    ensures WellFormed(Encode(n)) && Value(Encode(n)) == n
    ensures |Encode(n)| > 1 ==> Encode(n)[|Encode(n)| - 1] != 0
  {
    if n < 128 {
    } else {
      EncodeMeaning(n / 128);
      assert Encode(n)[1..] == Encode(n / 128);
    }
  }

  lemma {:induction false} EncodedLength(n: nat, groups: nat)
    requires groups >= 1 && n < Weight(groups)
    ensures 1 <= |Encode(n)| <= groups
  {
    if n < 128 {
    } else {
      EncodedLength(n / 128, groups - 1);
    }
  }

  lemma TenGroups(n: uint64)
    ensures 1 <= |Encode(n)| <= 10
  {
    Weights();
    EncodedLength(n, 10);
  }

  method Varint(n: uint64) returns (out: bytes)
    ensures out == Encode(n)
  {
    out := [];
    var m: uint64 := n;
    while true
      invariant out + Encode(m) == Encode(n)
      decreases m
    {
      var b: byte := m % 128;
      ghost var rest := Encode(m);
      m := m / 128;
      if m != 0 {
        b := b + 128;
      }
      assert rest == [b] + if m == 0 then [] else Encode(m);
      out := out + [b];
      if m == 0 {
        return;
      }
    }
  }

  datatype Read = Got(value: uint64, next: nat) | Overflow | Truncated

  /** The first index from `i` on whose byte ends a run, or the end of the data. */
  ghost function RunEnd(data: bytes, i: nat): (e: nat)
    ensures i <= |data| ==> i <= e <= |data|
    ensures forall j :: i <= j < e && j < |data| ==> data[j] >= 128
    ensures e < |data| ==> data[e] < 128
    decreases |data| - i
  {
    if i >= |data| || data[i] < 128 then i else RunEnd(data, i + 1)
  }

  /** What reading at `i` yields: ten groups at most, the value reduced to 64 bits. */
  ghost function ReadAt(data: bytes, i: nat): (r: Read)
    ensures r.Got? ==> i < r.next <= |data| && r.next <= i + 10
  {
    var e := RunEnd(data, i);
    if e - i >= 10 then Overflow
    else if e >= |data| then Truncated
    else Got(Value(data[i..e + 1]) % TWO_64, e + 1)
  }

  lemma {:induction false} ValueAppend(s: bytes, b: byte)
    ensures Value(s + [b]) == Value(s) + (b % 128) * Weight(|s|)
    ensures Value(s) < Weight(|s|)
  {
    if s == [] {
      assert [b][1..] == [];
    } else {
      ValueAppend(s[1..], b);
      assert (s + [b])[1..] == s[1..] + [b];
      var w := Weight(|s| - 1);
      assert 128 * ((b % 128) * w) == (b % 128) * (128 * w);
    }
  }

  lemma TopGroup(n: nat, x: byte)
    requires n < TWO_63
    ensures n + x * TWO_63 % TWO_64 == (n + x * TWO_63) % TWO_64
  {
    assert x * TWO_63 == x / 2 * TWO_64 + x % 2 * TWO_63;
  }

  lemma LowGroup(n: nat, x: byte, w: nat)
    requires x < 128 && n < w <= 0x100_0000_0000_0000
    ensures x * w % TWO_64 == x * w && n + x * w < TWO_64
    ensures (n + x * w) % TWO_64 == n + x * w
  {
    var p := x * w;
    assert p <= 127 * w;
  }

  /** Setting fresh high bits is addition, and only the tenth group can lose any. */
  lemma OrGroup(n: nat, x: byte, k: nat)
    requires k <= 9 && n < Weight(k) && x < 128
    ensures n + Shl64(x, 7 * k) == (n + x * Weight(k)) % TWO_64
    ensures k < 9 ==> n + Shl64(x, 7 * k) == n + x * Weight(k)
  {
    Weights();
    if k == 9 {
      TopGroup(n, x);
    } else {
      WeightMonotone(k, 8);
      LowGroup(n, x, Weight(k));
    }
  }

  lemma {:induction false} RunEndIs(data: bytes, i: nat, e: nat)
    requires i <= e <= |data| && (forall j :: i <= j < e ==> data[j] >= 128)
    requires e < |data| ==> data[e] < 128
    ensures RunEnd(data, i) == e
    decreases e - i
  {
    if i == e {
    } else {
      RunEndIs(data, i + 1, e);
    }
  }

  lemma {:induction false} RunEndBeyond(data: bytes, i: nat, e: nat)
    requires i <= e <= |data| && (forall j :: i <= j < e ==> data[j] >= 128)
    ensures RunEnd(data, i) >= e
    decreases e - i
  {
    if i == e {
    } else {
      RunEndBeyond(data, i + 1, e);
    }
  }

  lemma ReadStops(data: bytes, start: nat, e: nat)
    requires start <= e < |data| && e - start <= 9 && data[e] < 128
    requires forall j :: start <= j < e ==> data[j] >= 128
    ensures ReadAt(data, start) == Got(Value(data[start..e + 1]) % TWO_64, e + 1)
  {
    RunEndIs(data, start, e);
  }

  lemma ReadFails(data: bytes, start: nat, e: nat)
    requires start <= e <= |data| && (forall j :: start <= j < e ==> data[j] >= 128)
    ensures e - start >= 10 ==> ReadAt(data, start) == Overflow
    ensures e - start < 10 && e == |data| ==> ReadAt(data, start) == Truncated
  {
    RunEndBeyond(data, start, e);
  }

  /** One turn of the reading loop. */
  lemma NextGroup(data: bytes, start: nat, i: nat, n: nat)
    requires start <= i < |data| && i - start <= 9
    requires n == Value(data[start..i]) && n < Weight(i - start)
    ensures var m := n + Shl64(data[i] % 128, 7 * (i - start));
      && m == Value(data[start..i + 1]) % TWO_64
      && (i - start < 9 ==> m == Value(data[start..i + 1]) && m < Weight(i + 1 - start))
  {
    var before, b := data[start..i], data[i];
    assert data[start..i + 1] == before + [b];
    ValueAppend(before, b);
    ValueAppend(before + [b], 0);
    OrGroup(n, b % 128, i - start);
    if i - start == 9 {
      Weights();
    }
  }

  method ReadVarint(data: bytes, start: nat) returns (r: Read)
    ensures r == ReadAt(data, start)
  {
    var i, n, shift := start, 0, 0;
    assert Weight(0) == 1 && (start <= |data| ==> Value(data[start..start]) == 0);
    hide ReadAt, RunEnd, Value, Weight;
    while i < |data|
      invariant start <= i && (i <= |data| || i == start) && shift == 7 * (i - start) <= 63
      invariant forall j :: start <= j < i && j < |data| ==> data[j] >= 128
      invariant i <= |data| ==> n == Value(data[start..i]) && n < Weight(i - start)
    {
      var b := data[i];
      NextGroup(data, start, i, n);
      i := i + 1;
      // The operands of `|` have no bit in common, so `|` is `+`.
      n := n + Shl64(b % 128, shift);
      if b < 128 {
        ReadStops(data, start, i - 1);
        return Got(n, i);
      }
      shift := shift + 7;
      if shift > 63 {
        ReadFails(data, start, i);
        return Overflow;
      }
    }
    if start <= |data| {
      ReadFails(data, start, |data|);
    }
    return Truncated;
  }

  /** An encoding standing anywhere in the data is read back, whatever surrounds it. */
  lemma ReadEncoded(data: bytes, i: nat, n: uint64)
    requires At(data, i, Encode(n))
    ensures ReadAt(data, i) == Got(n, i + |Encode(n)|)
  {
    hide Encode;
    var s := Encode(n);
    var e := i + |s| - 1;
    EncodeMeaning(n);
    assert forall j :: i <= j <= e ==> data[j] == s[j - i];
    RunEndIs(data, i, e);
    TenGroups(n);
  }

  /** An encoding cut short by the end of the data is reported as truncated. */
  lemma ReadCut(data: bytes, i: nat, n: uint64)
    requires i <= |data| && |data| - i < |Encode(n)| && data[i..] == Encode(n)[..|data| - i]
    ensures ReadAt(data, i) == Truncated
  {
    hide Encode;
    var s := Encode(n);
    EncodeMeaning(n);
    assert forall j :: i <= j < |data| ==> data[j] == data[i..][j - i] == s[j - i];
    RunEndIs(data, i, |data|);
    TenGroups(n);
  }

  // ---- in bytes ----

  /** One byte below 128; below 16384 two, the low seven bits first with their high bit set. */
  lemma ShortEncodings(low: nat, high: nat)
    requires low < 128 && 0 < high < 128
    ensures Encode(low) == [low] && Encode(low + 128 * high) == [low + 128, high]
  {
    var n := low + 128 * high;
    assert n / 128 == high && n % 128 == low;
  }

  /** And back, in the example the encoding guide gives; a run of ten continuation bytes is too long. */
  lemma ShortReads(rest: bytes)
    ensures ReadAt([0xac, 0x02] + rest, 0) == Got(300, 2) && ReadAt([0xac], 0) == Truncated
    ensures ReadAt(seq(10, i => 0x80) + rest, 0) == Overflow
  {
    ShortEncodings(44, 2);
    assert ([0xac, 0x02] + rest)[0..2] == [0xac, 0x02] == Encode(300);
    ReadEncoded([0xac, 0x02] + rest, 0, 300);
    ReadFails([0xac], 0, 1);
    ReadFails(seq(10, i => 0x80) + rest, 0, 10);
  }
}
