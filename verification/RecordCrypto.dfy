/**
 Record protection and key derivation (internal/protocol/mmtls_crypto.go). The primitives
 are parameters known only by their laws; everything around them follows the code.
 */
module RecordCrypto {
  import opened Wire
  import opened Wrappers

  /** AES-GCM, SHA-256, HMAC-SHA-256 and P-256 key agreement, as total functions. */
  datatype Primitives = Primitives(
    seal: (bytes, bytes, bytes, bytes) -> bytes,          // key, nonce, plaintext, aad
    open: (bytes, bytes, bytes, bytes) -> Option<bytes>,  // key, nonce, ciphertext, aad
    sha256: bytes -> bytes,
    hmac: (bytes, bytes) -> bytes,                        // key, message
    agree: (bytes, bytes) -> Option<bytes>                // private key, peer public key
  )

  const TAG_LEN := 16

  ghost predicate Lawful(p: Primitives) {
    && (forall k, n, t, a :: |p.seal(k, n, t, a)| == |t| + TAG_LEN)
    && (forall k, n, t, a :: p.open(k, n, p.seal(k, n, t, a), a) == Some(t))
    && (forall k, m :: |p.hmac(k, m)| == 32)
  }

  /** `aes.NewCipher` takes keys of 16, 24 or 32 bytes. */
  predicate ValidKey(key: bytes) {
    |key| == 16 || |key| == 24 || |key| == 32
  }

  // ---- the per-record nonce ----

  /** Bitwise exclusive or on the low `n` bits. */
  function XorBits(a: nat, b: nat, n: nat): nat
    decreases n
  {
    if n == 0 then 0 else (a + b) % 2 + 2 * XorBits(a / 2, b / 2, n - 1)
  }

  function Xor(a: byte, b: byte): byte {
    XorFits(a, b);
    XorBits(a, b, 8)
  }

  lemma XorFits(a: nat, b: nat)
    ensures XorBits(a, b, 8) < 0x100
  {
    assert XorBits(a / 64, b / 64, 2) < 4;
    assert XorBits(a / 16, b / 16, 4) < 16;
  }

  function Pow2(n: nat): (r: nat)
    ensures r > 0
  {
    if n == 0 then 1 else 2 * Pow2(n - 1)
  }

  /** Exclusive or with a fixed left operand forgets nothing about the right one. */
  lemma {:induction false} XorBitsCancel(a: nat, b: nat, c: nat, n: nat)
    requires XorBits(a, b, n) == XorBits(a, c, n) && b < Pow2(n) && c < Pow2(n)
    ensures b == c
  {
    if n == 0 {
    } else {
      SameParity(a, b, c, XorBits(a / 2, b / 2, n - 1), XorBits(a / 2, c / 2, n - 1));
      XorBitsCancel(a / 2, b / 2, c / 2, n - 1);
    }
  }

  lemma SameParity(a: nat, b: nat, c: nat, x: nat, y: nat)
    requires (a + b) % 2 + 2 * x == (a + c) % 2 + 2 * y
    ensures x == y && b % 2 == c % 2
  {
  }

  lemma XorCancel(a: byte, b: byte, c: byte)
    requires Xor(a, b) == Xor(a, c)
    ensures b == c
  {
    assert Pow2(8) == 0x100 by { assert Pow2(4) == 16; }
    hide XorBits, Pow2;
    XorBitsCancel(a, b, c, 8);
  }

  /** The last eight bytes of `iv` exclusive-or the sequence number. */
  function NonceOf(iv: bytes, seqNo: uint64): (r: bytes)
    requires |iv| >= 8
    ensures |r| == |iv|
  {
    iv[..|iv| - 8] + seq(8, i requires 0 <= i < 8 => Xor(iv[|iv| - 8 + i], Be64(seqNo)[i]))
  }

  lemma NonceAt(iv: bytes, seqNo: uint64, k: nat)
    requires 8 <= |iv| && k < |iv|
    ensures NonceOf(iv, seqNo)[k]
            == var base := |iv| - 8; if k < base then iv[k] else Xor(iv[k], Be64(seqNo)[k - base])
  {
    hide Xor, Be64;
  }

  method Nonce(iv: bytes, seqNo: uint64) returns (r: bytes)
    requires |iv| >= 8
    ensures r == NonceOf(iv, seqNo)
  {
    hide Xor, Be64, NonceOf;
    var s := new byte[8];
    PutUint64(s, 0, seqNo);
    var digits := s[..];
    assert digits == Be64(seqNo);
    ghost var base, goal := |iv| - 8, NonceOf(iv, seqNo);
    forall k | 0 <= k < base ensures goal[k] == iv[k] {
      NonceAt(iv, seqNo, k);
    }
    var out := new byte[|iv|](i requires 0 <= i < |iv| => iv[i]);
    for i := 0 to 8
      invariant forall k :: 0 <= k < base + i ==> out[k] == goal[k]
      invariant forall k :: base + i <= k < |iv| ==> out[k] == iv[k]
    {
      NonceAt(iv, seqNo, base + i);
      out[out.Length - 8 + i] := Xor(out[out.Length - 8 + i], digits[i]);
    }
    r := out[..];
  }

  /** Under one iv, different sequence numbers never share a nonce. */
  lemma NonceInjective(iv: bytes, m: uint64, n: uint64)
    requires |iv| >= 8 && NonceOf(iv, m) == NonceOf(iv, n)
    ensures m == n
  {
    hide Xor, Be64;
    forall i | 0 <= i < 8 ensures Be64(m)[i] == Be64(n)[i] {
      var k := |iv| - 8 + i;
      assert NonceOf(iv, m)[k] == Xor(iv[k], Be64(m)[i]);
      assert NonceOf(iv, n)[k] == Xor(iv[k], Be64(n)[i]);
      XorCancel(iv[k], Be64(m)[i], Be64(n)[i]);
    }
    assert Be64(m) == Be64(n);
    Be64RoundTrip(m);
    Be64RoundTrip(n);
  }

  // ---- record protection ----

  /** `uint16(cipherLen)` keeps the low sixteen bits of the length. */
  function RecordAad(seqNo: uint64, contentType: byte, cipherLen: nat): bytes {
    Be64(seqNo) + [contentType, 0xf1, 0x03] + Be16(cipherLen % 0x1_0000)
  }

  method BuildRecordAad(seqNo: uint64, contentType: byte, cipherLen: nat) returns (r: bytes)
    ensures r == RecordAad(seqNo, contentType, cipherLen)
  {
    var out := new byte[13];
    PutUint64(out, 0, seqNo);
    ghost var head := out[..8];
    out[8], out[9], out[10] := contentType, 0xf1, 0x03;
    assert out[..11] == head + [contentType, 0xf1, 0x03];
    head := out[..11];
    PutUint16(out, 11, cipherLen % 0x1_0000);
    assert out[..] == head + Be16(cipherLen % 0x1_0000);
    r := out[..];
  }

  function EncryptRecordPayload(p: Primitives, key: bytes, iv: bytes, seqNo: uint64, contentType: byte,
                                plaintext: bytes): Result<bytes>
    requires |iv| == 12
  {
    if !ValidKey(key) then Err
    else Ok(p.seal(key, NonceOf(iv, seqNo), plaintext,
                   RecordAad(seqNo, contentType, |plaintext| + TAG_LEN)))
  }

  function DecryptRecordPayload(p: Primitives, key: bytes, iv: bytes, seqNo: uint64, contentType: byte,
                                ct: bytes): Result<bytes>
    requires |iv| == 12
  {
    if !ValidKey(key) then Err
    else match p.open(key, NonceOf(iv, seqNo), ct, RecordAad(seqNo, contentType, |ct|))
         case Some(plaintext) => Ok(plaintext)
         case None => Err
  }

  /** The receiver rebuilds the sender's AAD from the ciphertext length alone. */
  lemma OpenSealed(p: Primitives, key: bytes, iv: bytes, seqNo: uint64, contentType: byte, plaintext: bytes)
    requires Lawful(p) && |iv| == 12 && ValidKey(key)
    ensures var ct := EncryptRecordPayload(p, key, iv, seqNo, contentType, plaintext);
      && ct.Ok? && |ct.value| == |plaintext| + TAG_LEN
      && DecryptRecordPayload(p, key, iv, seqNo, contentType, ct.value) == Ok(plaintext)
  {
    hide NonceOf, RecordAad;
  }

  // ---- key derivation ----

  /** The block `T(i)` of section 2.3 of RFC 5869. */
  function HkdfBlock(p: Primitives, prk: bytes, info: bytes, i: nat): bytes {
    if i == 0 then [] else p.hmac(prk, HkdfBlock(p, prk, info, i - 1) + info + [i % 0x100])
  }

  function HkdfBlocks(p: Primitives, prk: bytes, info: bytes, n: nat): bytes {
    if n == 0 then [] else HkdfBlocks(p, prk, info, n - 1) + HkdfBlock(p, prk, info, n)
  }

  lemma {:induction false} HkdfLength(p: Primitives, prk: bytes, info: bytes, n: nat)
    requires Lawful(p)
    ensures |HkdfBlocks(p, prk, info, n)| == 32 * n
  {
    if n == 0 {
    } else {
      HkdfLength(p, prk, info, n - 1);
    }
  }

  function BlocksFor(length: nat): nat {
    (length + 31) / 32
  }

  /** The first `length` bytes of `T(1) | T(2) | ...`. */
  function Expand(p: Primitives, prk: bytes, info: bytes, length: nat): bytes {
    var all := HkdfBlocks(p, prk, info, BlocksFor(length));
    if |all| < length then all else all[..length]
  }

  lemma HkdfStart(p: Primitives, prk: bytes, info: bytes)
    ensures HkdfBlock(p, prk, info, 0) == [] && HkdfBlocks(p, prk, info, 0) == []
  {
  }

  lemma HkdfStep(p: Primitives, prk: bytes, info: bytes, n: nat)
    ensures HkdfBlock(p, prk, info, n + 1) == p.hmac(prk, HkdfBlock(p, prk, info, n) + info + [(n + 1) % 0x100])
    ensures HkdfBlocks(p, prk, info, n + 1) == HkdfBlocks(p, prk, info, n) + HkdfBlock(p, prk, info, n + 1)
  {
  }

  lemma ExpandIs(p: Primitives, prk: bytes, info: bytes, length: nat, n: nat)
    requires |HkdfBlocks(p, prk, info, n)| == 32 * n && length <= 32 * n < length + 32
    ensures Expand(p, prk, info, length) == HkdfBlocks(p, prk, info, n)[..length]
  {
    assert n == BlocksFor(length);
  }

  lemma CounterStep(n: nat)
    ensures (n % 0x100 + 1) % 0x100 == (n + 1) % 0x100
  {
  }

  method HkdfExpand(p: Primitives, prk: bytes, info: bytes, length: nat) returns (r: bytes)
    requires Lawful(p)
    ensures |r| == length && r == Expand(p, prk, info, length)
  {
    hide Expand, HkdfBlock, HkdfBlocks;
    var out: bytes, t: bytes, counter: byte := [], [], 1;
    ghost var n := 0;
    HkdfStart(p, prk, info);
    while |out| < length
      invariant out == HkdfBlocks(p, prk, info, n) && t == HkdfBlock(p, prk, info, n)
      invariant |out| == 32 * n && 32 * n < length + 32 && counter == (n + 1) % 0x100
      decreases length + 32 - |out|
    {
      HkdfLength(p, prk, info, n + 1);
      CounterStep(n + 1);
      HkdfStep(p, prk, info, n);
      t := p.hmac(prk, t + info + [counter]);
      out := out + t;
      counter := (counter + 1) % 0x100;
      n := n + 1;
    }
    r := out[..length];
    ExpandIs(p, prk, info, length, n);
  }

  /** Asking for more bytes keeps the ones already given. */
  lemma {:induction false} ExpandGrows(p: Primitives, prk: bytes, info: bytes, m: nat, n: nat)
    requires Lawful(p) && m <= n
    ensures |Expand(p, prk, info, n)| == n
    ensures Expand(p, prk, info, m) == Expand(p, prk, info, n)[..m]
  {
    HkdfLength(p, prk, info, BlocksFor(m));
    HkdfLength(p, prk, info, BlocksFor(n));
    BlocksGrow(p, prk, info, BlocksFor(m), BlocksFor(n));
    hide HkdfBlocks;
  }

  lemma {:induction false} BlocksGrow(p: Primitives, prk: bytes, info: bytes, m: nat, n: nat)
    requires m <= n
    ensures HkdfBlocks(p, prk, info, m) <= HkdfBlocks(p, prk, info, n)
    decreases n - m
  {
    if m == n {
    } else {
      BlocksGrow(p, prk, info, m, n - 1);
    }
  }

  function ExpandLabel(p: Primitives, secret: bytes, name: bytes, context: bytes, length: nat): bytes {
    Expand(p, secret, name + context, length)
  }

  datatype TrafficKeys = TrafficKeys(clientKey: bytes, serverKey: bytes, clientIv: bytes, serverIv: bytes)
  {
    ghost predicate Valid() {
      |clientKey| == |serverKey| == 16 && |clientIv| == |serverIv| == 12
    }
  }

  function SplitBiKeys(kb: bytes): (k: TrafficKeys)
    requires |kb| == 56
    ensures k.Valid() && k.clientKey + k.serverKey + k.clientIv + k.serverIv == kb
  {
    TrafficKeys(kb[..16], kb[16..32], kb[32..44], kb[44..56])
  }

  /** The bytes of an ASCII label. */
  function Ascii(s: string): (r: bytes)
    ensures |r| == |s|
  {
    seq(|s|, i requires 0 <= i < |s| => CharCode(s[i]))
  }

  function CharCode(c: char): byte {
    c as int % 0x80
  }

  function HandshakeKeys(p: Primitives, secret: bytes, hash: bytes): (k: TrafficKeys)
    requires Lawful(p)
    ensures k.Valid()
  {
    ExpandGrows(p, secret, Ascii("handshake key expansion") + hash, 56, 56);
    SplitBiKeys(ExpandLabel(p, secret, Ascii("handshake key expansion"), hash, 56))
  }

  function Master(p: Primitives, secret: bytes, hash: bytes): bytes {
    ExpandLabel(p, secret, Ascii("expanded secret"), hash, 32)
  }

  function AppKeys(p: Primitives, master: bytes, hash: bytes): (k: TrafficKeys)
    requires Lawful(p)
    ensures k.Valid()
  {
    ExpandGrows(p, master, Ascii("application data key expansion") + hash, 56, 56);
    SplitBiKeys(ExpandLabel(p, master, Ascii("application data key expansion"), hash, 56))
  }

  function FinishedVerifyData(p: Primitives, secret: bytes, isClient: bool, hash: bytes): bytes {
    var name := if isClient then Ascii("client finished") else Ascii("server finished");
    p.hmac(ExpandLabel(p, secret, name, [], 32), hash)
  }

  // ---- the ciphertext, iv, tag layout ----

  /** `iv` is the random value the code draws. */
  function EncryptLayout(p: Primitives, key: bytes, aad: bytes, iv: bytes, plaintext: bytes): Result<bytes>
    requires Lawful(p) && |iv| == 12
  {
    if !ValidKey(key) then Err
    else
      var ct := p.seal(key, iv, plaintext, aad);
      Ok(ct[..|ct| - TAG_LEN] + iv + ct[|ct| - TAG_LEN..])
  }

  function DecryptLayout(p: Primitives, key: bytes, aad: bytes, blob: bytes): Result<bytes> {
    if |blob| < 28 || !ValidKey(key) then Err
    else
      var n := |blob| - 28;
      match p.open(key, blob[n..n + 12], blob[..n] + blob[n + 12..], aad)
      case Some(plaintext) => Ok(plaintext)
      case None => Err
  }

  /** Moving the iv in front of the tag and back again loses nothing. */
  lemma LayoutRoundTrip(p: Primitives, key: bytes, aad: bytes, iv: bytes, plaintext: bytes)
    requires Lawful(p) && |iv| == 12 && ValidKey(key)
    ensures var blob := EncryptLayout(p, key, aad, iv, plaintext);
      && blob.Ok? && |blob.value| == |plaintext| + 28
      && DecryptLayout(p, key, aad, blob.value) == Ok(plaintext)
  {
    var ct := p.seal(key, iv, plaintext, aad);
    var blob, n := EncryptLayout(p, key, aad, iv, plaintext).value, |plaintext|;
    assert |ct| == n + TAG_LEN;
    assert blob[n..n + 12] == iv;
    assert blob[..n] + blob[n + 12..] == ct[..n] + ct[n..] == ct;
  }

  // ---- in bits and bytes ----

  /** Bit `i` of a number. */
  function Bit(n: nat, i: nat): bool {
    n / Pow2(i) % 2 == 1
  }

  lemma LowestBit(n: nat)
    ensures Bit(n, 0) == (n % 2 == 1)
  {
  }

  lemma LowestXor(a: nat, b: nat, n: nat)
    requires n > 0
    ensures XorBits(a, b, n) % 2 == (a + b) % 2 && XorBits(a, b, n) / 2 == XorBits(a / 2, b / 2, n - 1)
  {
  }

  lemma Parities(a: nat, b: nat)
    ensures (a + b) % 2 == 1 <==> (a % 2 == 1) != (b % 2 == 1)
  {
  }

  lemma BitOfHalf(n: nat, i: nat)
    requires i > 0
    ensures Bit(n, i) == Bit(n / 2, i - 1)
  {
    HalfThenPower(n, Pow2(i - 1));
  }

  lemma HalfThenPower(n: nat, q: nat)
    requires q > 0
    ensures n / 2 / q == n / (2 * q)
  {
    var a, h := n / 2 / q, n / 2;
    assert q * a <= h < q * a + q;
    assert 2 * q * a == 2 * (q * a);
    QuotientIs(n, 2 * q, a);
  }

  lemma QuotientIs(n: nat, q: nat, a: nat)
    requires 0 < q && q * a <= n < q * a + q
    ensures n / q == a
  {
    var b := n / q;
    assert q * b <= n < q * b + q;
    Multiple(q, a - b);
    Multiple(q, b - a);
    assert q * (a - b) == q * a - q * b && q * (b - a) == q * b - q * a;
  }

  lemma {:induction false} XorBitsIs(a: nat, b: nat, n: nat, i: nat)
    requires i < n
    ensures Bit(XorBits(a, b, n), i) == (Bit(a, i) != Bit(b, i))
  {
    LowestXor(a, b, n);
    hide XorBits;
    if i == 0 {
      Parities(a, b);
      LowestBit(a);
      LowestBit(b);
      LowestBit(XorBits(a, b, n));
    } else {
      hide Bit;
      BitOfHalf(XorBits(a, b, n), i);
      BitOfHalf(a, i);
      BitOfHalf(b, i);
      XorBitsIs(a / 2, b / 2, n - 1, i - 1);
    }
  }

  /** Exclusive or, bit by bit. */
  lemma XorIs(a: byte, b: byte, i: nat)
    requires i < 8
    ensures Bit(Xor(a, b), i) <==> Bit(a, i) != Bit(b, i)
  {
    hide XorBits;
    XorBitsIs(a, b, 8, i);
  }

  lemma {:induction false} SameBits(a: nat, b: nat, n: nat)
    requires a < Pow2(n) && b < Pow2(n) && forall i :: 0 <= i < n ==> Bit(a, i) == Bit(b, i)
    ensures a == b
  {
    if n == 0 {
    } else {
      assert Bit(a, 0) == Bit(b, 0);
      forall i | 0 <= i < n - 1 ensures Bit(a / 2, i) == Bit(b / 2, i) {
        BitOfHalf(a, i + 1);
        BitOfHalf(b, i + 1);
        assert Bit(a, i + 1) == Bit(b, i + 1);
      }
      SameBits(a / 2, b / 2, n - 1);
    }
  }

  lemma BytesAreEightBits()
    ensures Pow2(8) == 0x100
  {
    assert Pow2(4) == 16;
  }

  /** Doing it twice undoes it, and zero changes nothing. */
  lemma XorUndoes(a: byte, b: byte)
    ensures Xor(Xor(a, b), b) == a && Xor(a, 0) == a
  {
    BytesAreEightBits();
    hide Xor, Pow2, Bit;
    forall i | 0 <= i < 8 ensures Bit(Xor(Xor(a, b), b), i) == Bit(a, i) && Bit(Xor(a, 0), i) == Bit(a, i) {
      XorIs(a, b, i);
      XorIs(Xor(a, b), b, i);
      XorIs(a, 0, i);
      ZeroHasNoBits(i);
    }
    SameBits(Xor(Xor(a, b), b), a, 8);
    SameBits(Xor(a, 0), a, 8);
  }

  lemma {:induction false} ZeroHasNoBits(i: nat)
    ensures !Bit(0, i)
  {
    if i == 0 {
    } else {
      BitOfHalf(0, i);
      ZeroHasNoBits(i - 1);
    }
  }

  /** The nonce differs from the iv in the last eight bytes only, by the number's big-endian bytes. */
  lemma NonceIs(iv: bytes, hi: uint32, lo: uint32, k: nat)
    requires |iv| == 12 && k < 12
    ensures var n, digits := NonceOf(iv, hi * 0x1_0000_0000 + lo), Be32(hi) + Be32(lo);
      if k < 4 then n[k] == iv[k] else n[k] == Xor(iv[k], digits[k - 4]) && Xor(n[k], iv[k]) == digits[k - 4]
  {
    hide NonceOf, Be64, Be32, Xor;
    NonceAt(iv, hi * 0x1_0000_0000 + lo, k);
    BigEndian64(hi, lo);
    if k >= 4 {
      var d := (Be32(hi) + Be32(lo))[k - 4];
      XorCommutes(iv[k], d);
      XorUndoes(d, iv[k]);
    }
  }

  lemma {:induction false} XorBitsCommute(a: nat, b: nat, n: nat)
    ensures XorBits(a, b, n) == XorBits(b, a, n)
  {
    if n == 0 {
    } else {
      XorBitsCommute(a / 2, b / 2, n - 1);
    }
  }

  lemma XorCommutes(a: byte, b: byte)
    ensures Xor(a, b) == Xor(b, a)
  {
    XorBitsCommute(a, b, 8);
  }

  /** The first record of all is sealed under the iv itself. */
  lemma FirstNonceIsIv(iv: bytes)
    requires |iv| == 12
    ensures NonceOf(iv, 0) == iv
  {
    hide NonceOf, Be64, Xor;
    BigEndian64(0, 0);
    BigEndian32(0, 0, 0, 0);
    forall k | 0 <= k < 12 ensures NonceOf(iv, 0)[k] == iv[k] {
      NonceAt(iv, 0, k);
      XorUndoes(iv[k], 0);
    }
  }

  /** Number, type, version f103 and the two-byte length of the ciphertext. */
  lemma AadIs(hi: uint32, lo: uint32, contentType: byte, a: byte, b: byte)
    ensures RecordAad(hi * 0x1_0000_0000 + lo, contentType, a * 0x100 + b)
            == Be32(hi) + Be32(lo) + [contentType, 0xf1, 0x03, a, b]
  {
    hide Be64, Be32, Be16;
    BigEndian64(hi, lo);
    BigEndian16(a, b);
    assert [contentType, 0xf1, 0x03] + [a, b] == [contentType, 0xf1, 0x03, a, b];
  }

  /** What is sealed, and under which key, nonce and additional data. */
  lemma PayloadIs(p: Primitives, key: bytes, iv: bytes, hi: uint32, lo: uint32, contentType: byte, plaintext: bytes,
                  a: byte, b: byte)
    requires |iv| == 12 && |key| == 16 && |plaintext| + 16 == a * 0x100 + b
    ensures EncryptRecordPayload(p, key, iv, hi * 0x1_0000_0000 + lo, contentType, plaintext)
            == Ok(p.seal(key, NonceOf(iv, hi * 0x1_0000_0000 + lo), plaintext,
                         Be32(hi) + Be32(lo) + [contentType, 0xf1, 0x03, a, b]))
  {
    hide NonceOf, RecordAad, Be32;
    AadIs(hi, lo, contentType, a, b);
  }

  /** The bytes are the characters of a text. */
  ghost predicate Spells(b: bytes, s: string) {
    |b| == |s| && forall k :: 0 <= k < |s| ==> b[k] as int == s[k] as int
  }

  lemma AsciiIs(b: bytes, s: string)
    requires Spells(b, s) && forall k :: 0 <= k < |s| ==> s[k] as int < 0x80
    ensures Ascii(s) == b
  {
  }

  /** Up to 32 bytes, expansion is one HMAC; up to 64 it is two, the second over the first. */
  lemma ExpandIsHmac(p: Primitives, prk: bytes, info: bytes, length: nat)
    requires Lawful(p)
    ensures 0 < length <= 32 ==> Expand(p, prk, info, length) == p.hmac(prk, info + [1])[..length]
    ensures 32 < length <= 64 ==>
      Expand(p, prk, info, length)
      == p.hmac(prk, info + [1]) + p.hmac(prk, p.hmac(prk, info + [1]) + info + [2])[..length - 32]
  {
    HkdfStart(p, prk, info);
    HkdfStep(p, prk, info, 0);
    HkdfStep(p, prk, info, 1);
    hide HkdfBlock, HkdfBlocks;
    assert [] + info + [1] == info + [1];
    var one := p.hmac(prk, info + [1]);
    var two := p.hmac(prk, one + info + [2]);
    assert HkdfBlocks(p, prk, info, 1) == [] + one == one;
    assert HkdfBlocks(p, prk, info, 2) == one + two;
    if 0 < length <= 32 {
      assert BlocksFor(length) == 1;
    } else if 32 < length <= 64 {
      assert BlocksFor(length) == 2;
      assert (one + two)[..length] == one + two[..length - 32];
    }
  }

  /** Each side's Finished is an HMAC of the hash under a key made from its own label. */
  lemma VerifyDataIs(p: Primitives, secret: bytes, hash: bytes, client: bytes, server: bytes)
    requires Lawful(p) && Spells(client, "client finished") && Spells(server, "server finished")
    ensures FinishedVerifyData(p, secret, true, hash) == p.hmac(p.hmac(secret, client + [1]), hash)
    ensures FinishedVerifyData(p, secret, false, hash) == p.hmac(p.hmac(secret, server + [1]), hash)
  {
    AsciiIs(client, "client finished");
    AsciiIs(server, "server finished");
    hide Ascii, Expand;
    OneBlock(p, secret, client, []);
    OneBlock(p, secret, server, []);
    assert client + [] == client && server + [] == server;
  }

  lemma AsciiSpells(s: string)
    requires forall k :: 0 <= k < |s| ==> s[k] as int < 0x80
    ensures Spells(Ascii(s), s)
  {
  }

  lemma OneBlock(p: Primitives, prk: bytes, name: bytes, context: bytes)
    requires Lawful(p)
    ensures ExpandLabel(p, prk, name, context, 32) == p.hmac(prk, name + context + [1])
  {
    hide Expand;
    ExpandIsHmac(p, prk, name + context, 32);
    assert p.hmac(prk, name + context + [1])[..32] == p.hmac(prk, name + context + [1]);
  }

  lemma MasterIs(p: Primitives, secret: bytes, hash: bytes, name: bytes)
    requires Lawful(p) && Spells(name, "expanded secret")
    ensures Master(p, secret, hash) == p.hmac(secret, name + hash + [1])
  {
    AsciiIs(name, "expanded secret");
    OneBlock(p, secret, name, hash);
    hide Ascii, ExpandLabel;
  }

  /** The first 56 bytes of two HMAC blocks: client key, server key, client iv, server iv. */
  ghost predicate AreKeys(p: Primitives, k: TrafficKeys, prk: bytes, info: bytes) {
    var one := p.hmac(prk, info + [1]);
    var two := p.hmac(prk, one + info + [2]);
    && |one| == 32 && |two| == 32
    && k.clientKey == one[..16] && k.serverKey == one[16..]
    && k.clientIv == two[..12] && k.serverIv == two[12..24]
  }

  lemma KeysFromBlocks(p: Primitives, prk: bytes, info: bytes)
    requires Lawful(p)
    ensures |Expand(p, prk, info, 56)| == 56 && AreKeys(p, SplitBiKeys(Expand(p, prk, info, 56)), prk, info)
  {
    hide Expand;
    ExpandIsHmac(p, prk, info, 56);
    var one := p.hmac(prk, info + [1]);
    var two := p.hmac(prk, one + info + [2]);
    var kb := one + two[..24];
    assert kb[..16] == one[..16] && kb[16..32] == one[16..];
    assert kb[32..44] == two[..12] && kb[44..56] == two[12..24];
  }

  lemma HandshakeKeysAre(p: Primitives, secret: bytes, hash: bytes, name: bytes)
    requires Lawful(p) && Spells(name, "handshake key expansion")
    ensures AreKeys(p, HandshakeKeys(p, secret, hash), secret, name + hash)
  {
    AsciiIs(name, "handshake key expansion");
    KeysFromBlocks(p, secret, name + hash);
    hide Ascii, Expand, AreKeys;
  }

  lemma AppKeysAre(p: Primitives, master: bytes, hash: bytes, name: bytes)
    requires Lawful(p) && Spells(name, "application data key expansion")
    ensures AreKeys(p, AppKeys(p, master, hash), master, name + hash)
  {
    AsciiIs(name, "application data key expansion");
    KeysFromBlocks(p, master, name + hash);
    hide Ascii, Expand, AreKeys;
  }

  /** Ciphertext, iv, tag; exactly keys of 16, 24 and 32 bytes are usable. */
  lemma LayoutIs(p: Primitives, key: bytes, aad: bytes, iv: bytes, plaintext: bytes)
    requires Lawful(p) && |iv| == 12
    ensures var blob, ct, n := EncryptLayout(p, key, aad, iv, plaintext), p.seal(key, iv, plaintext, aad), |plaintext|;
      && (blob.Ok? <==> |key| in {16, 24, 32})
      && |ct| == n + 16
      && (blob.Ok? ==> |blob.value| == n + 28
                       && blob.value[..n] == ct[..n] && blob.value[n..n + 12] == iv && blob.value[n + 12..] == ct[n..])
  {
  }

  /** Keys of any other length are refused everywhere, and so is a blob with no room for iv and tag. */
  lemma Refused(p: Primitives, key: bytes, iv: bytes, seqNo: uint64, contentType: byte, aad: bytes, data: bytes)
    requires Lawful(p) && |iv| == 12
    ensures |key| !in {16, 24, 32} ==>
      && EncryptRecordPayload(p, key, iv, seqNo, contentType, data) == Err
      && DecryptRecordPayload(p, key, iv, seqNo, contentType, data) == Err
      && EncryptLayout(p, key, aad, iv, data) == Err && DecryptLayout(p, key, aad, data) == Err
    ensures |data| < 28 ==> DecryptLayout(p, key, aad, data) == Err
  {
    hide NonceOf, RecordAad;
  }
}
