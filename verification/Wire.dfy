/** Bytes, fixed-width integers and the big-endian fields every frame is made of. */
module Wire {

  type byte = x: int | 0 <= x < 0x100
  type bytes = seq<byte>
  type uint16 = x: int | 0 <= x < 0x1_0000
  type uint32 = x: int | 0 <= x < 0x1_0000_0000
  type uint64 = x: int | 0 <= x < 0x1_0000_0000_0000_0000

  const TWO_63 := 0x8000_0000_0000_0000
  const TWO_64 := 0x1_0000_0000_0000_0000

  /** Go's `int(n)` / `int64(n)` of an unsigned 64-bit value. */
  function ToInt64(n: uint64): (r: int)
    ensures -TWO_63 <= r < TWO_63
    ensures r % TWO_64 == n
  {
    if n < TWO_63 then n else n - TWO_64
  }

  /** Go's `uint64(n)` of a signed 64-bit value. */
  function ToUint64(n: int): (r: uint64)
    requires -TWO_63 <= n < TWO_63
    ensures ToInt64(r) == n
  {
    if n < 0 then n + TWO_64 else n
  }

  /** Go's `i + int(ln)`: 64-bit addition wraps, so the sum can come out below `i`. */
  function AddLength(i: nat, ln: uint64): (r: int)
    requires i < TWO_63
    ensures i + ln < TWO_63 ==> r == i + ln
    ensures i + ln >= TWO_63 ==> r < i
  {
    var sum := i + ToInt64(ln);
    if sum >= TWO_63 then sum - TWO_64 else sum
  }

  lemma Multiple(q: nat, d: int)
    ensures d >= 1 ==> q * d >= q
  {
    if d >= 1 {
      assert q * d == q + q * (d - 1);
    }
  }

  /** Inside an occurrence of `e` in `s`, the slices of `s` are the slices of `e`. */
  lemma SliceWithin<T>(s: seq<T>, i: nat, e: seq<T>, a: nat, b: nat)
    requires i + |e| <= |s| && s[i..i + |e|] == e && a <= b <= |e|
    ensures s[i + a..i + b] == e[a..b]
  {
    assert |s[i + a..i + b]| == |e[a..b]|;
    forall k | a <= k < b ensures s[i + a..i + b][k - a] == e[k] {
      assert s[i..i + |e|][k] == e[k];
    }
  }

  /** The same for an occurrence cut off by the end of `s`. */
  lemma SliceWithinCut<T>(s: seq<T>, i: nat, e: seq<T>, a: nat, b: nat)
    requires i <= |s| && |s| - i <= |e| && s[i..] == e[..|s| - i] && a <= b <= |s| - i
    ensures s[i + a..i + b] == e[a..b]
  {
    assert s[i + a..i + b] == s[i..][a..b];
  }

  /** `w` stands in `s` from index `i` on. */
  ghost predicate At<T>(s: seq<T>, i: nat, w: seq<T>) {
    i + |w| <= |s| && s[i..i + |w|] == w
  }

  lemma AtConcat<T>(s: seq<T>, i: nat, a: seq<T>, b: seq<T>)
    requires At(s, i, a + b)
    ensures At(s, i, a) && At(s, i + |a|, b)
  {
    SliceWithin(s, i, a + b, 0, |a|);
    SliceWithin(s, i, a + b, |a|, |a + b|);
    assert (a + b)[0..|a|] == a && (a + b)[|a|..|a + b|] == b;
  }

  lemma ConcatAssociative<T>(a: seq<T>, b: seq<T>, c: seq<T>)
    ensures (a + b) + c == a + (b + c)
  {
  }

  lemma DropPrefix<T>(w: seq<T>, a: seq<T>, b: seq<T>)
    ensures w <= w + a + b && (w + a + b)[|w|..] == a + b
  {
    assert (w + a + b)[..|w|] == w;
  }

  lemma HeadAndTail<T>(s: seq<T>)
    requires s != []
    ensures s == [s[0]] + s[1..]
  {
  }

  /** What stands at `i`, a prefix of `a + b`, is a part of `a`, or `a` and a prefix of `b`. */
  lemma PrefixSplit<T>(s: seq<T>, i: nat, a: seq<T>, b: seq<T>)
    requires i <= |s| && s[i..] <= a + b
    ensures if |s| - i < |a| then s[i..] == a[..|s| - i]
            else At(s, i, a) && s[i + |a|..] <= b
  {
    var rest := s[i..];
    assert rest == (a + b)[..|rest|];
    if |rest| >= |a| {
      assert s[i..i + |a|] == rest[..|a|] == a;
      assert s[i + |a|..] == rest[|a|..] == b[..|rest| - |a|];
    }
  }

  function Be16(n: uint16): (s: bytes)
    ensures |s| == 2
  {
    [n / 0x100, n % 0x100]
  }

  function Be32(n: uint32): (s: bytes)
    ensures |s| == 4
  {
    Be16(n / 0x1_0000) + Be16(n % 0x1_0000)
  }

  function Be64(n: uint64): (s: bytes)
    ensures |s| == 8
  {
    Be32(n / 0x1_0000_0000) + Be32(n % 0x1_0000_0000)
  }

  function FromBe16(s: bytes): uint16
    requires |s| == 2
  {
    s[0] as int * 0x100 + s[1] as int
  }

  function FromBe32(s: bytes): uint32
    requires |s| == 4
  {
    FromBe16(s[..2]) * 0x1_0000 + FromBe16(s[2..])
  }

  function FromBe64(s: bytes): uint64
    requires |s| == 8
  {
    FromBe32(s[..4]) * 0x1_0000_0000 + FromBe32(s[4..])
  }

  lemma Be16RoundTrip(n: uint16)
    ensures FromBe16(Be16(n)) == n
  {
  }

  lemma Be32RoundTrip(n: uint32)
    ensures FromBe32(Be32(n)) == n
  {
    assert Be32(n)[..2] == Be16(n / 0x1_0000) && Be32(n)[2..] == Be16(n % 0x1_0000);
  }

  lemma Be64RoundTrip(n: uint64)
    ensures FromBe64(Be64(n)) == n
  {
    var hi, lo := n / 0x1_0000_0000, n % 0x1_0000_0000;
    assert Be64(n)[..4] == Be32(hi) && Be64(n)[4..] == Be32(lo);
    Be32RoundTrip(hi);
    Be32RoundTrip(lo);
  }

  /** The most significant byte comes first, in writing and in reading. */
  lemma BigEndian16(a: byte, b: byte)
    ensures Be16(a * 0x100 + b) == [a, b] && FromBe16([a, b]) == a * 0x100 + b
  {
  }

  lemma BigEndian32(a: byte, b: byte, c: byte, d: byte)
    ensures var n := a * 0x100_0000 + b * 0x1_0000 + c * 0x100 + d;
      Be32(n) == [a, b, c, d] && FromBe32([a, b, c, d]) == n
  {
    var n := a * 0x100_0000 + b * 0x1_0000 + c * 0x100 + d;
    assert n / 0x1_0000 == a * 0x100 + b && n % 0x1_0000 == c * 0x100 + d;
    BigEndian16(a, b);
    BigEndian16(c, d);
    assert [a, b, c, d][..2] == [a, b] && [a, b, c, d][2..] == [c, d];
  }

  lemma BigEndian64(hi: uint32, lo: uint32)
    ensures Be64(hi * 0x1_0000_0000 + lo) == Be32(hi) + Be32(lo)
    ensures FromBe64(Be32(hi) + Be32(lo)) == hi * 0x1_0000_0000 + lo
  {
    hide Be32, FromBe32;
    assert (Be32(hi) + Be32(lo))[..4] == Be32(hi) && (Be32(hi) + Be32(lo))[4..] == Be32(lo);
    Be32RoundTrip(hi);
    Be32RoundTrip(lo);
  }

  /** `binary.BigEndian.PutUint16(out[at:], n)`. */
  method PutUint16(out: array<byte>, at: nat, n: uint16)
    requires at + 2 <= out.Length
    modifies out
    ensures out[..] == old(out[..at]) + Be16(n) + old(out[at + 2..])
    ensures out[..at + 2] == old(out[..at]) + Be16(n)
  {
    out[at], out[at + 1] := n / 0x100, n % 0x100;
  }

  /** `binary.BigEndian.PutUint32(out[at:], n)`. */
  method PutUint32(out: array<byte>, at: nat, n: uint32)
    requires at + 4 <= out.Length
    modifies out
    ensures out[..] == old(out[..at]) + Be32(n) + old(out[at + 4..])
    ensures out[..at + 4] == old(out[..at]) + Be32(n)
  {
    PutUint16(out, at, n / 0x1_0000);
    PutUint16(out, at + 2, n % 0x1_0000);
  }

  /** `binary.BigEndian.PutUint64(out[at:], n)`. */
  method PutUint64(out: array<byte>, at: nat, n: uint64)
    requires at + 8 <= out.Length
    modifies out
    ensures out[..] == old(out[..at]) + Be64(n) + old(out[at + 8..])
    ensures out[..at + 8] == old(out[..at]) + Be64(n)
  {
    PutUint32(out, at, n / 0x1_0000_0000);
    PutUint32(out, at + 4, n % 0x1_0000_0000);
  }

  /** `copy(out[at:], src)` with room for all of `src`. */
  method CopyInto(out: array<byte>, at: nat, src: bytes)
    requires at + |src| <= out.Length
    modifies out
    ensures out[..] == old(out[..at]) + src + old(out[at + |src|..])
  {
    for k := 0 to |src|
      invariant out[..at] == old(out[..at])
      invariant forall j :: 0 <= j < k ==> out[at + j] == src[j]
      invariant forall j :: at + k <= j < out.Length ==> out[j] == old(out[j])
    {
      out[at + k] := src[k];
    }
  }
}
