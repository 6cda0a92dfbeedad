/**
 The LZ4 block codec (internal/protocol/bytes.go, `lz4AllLiteral` and `lz4Decompress`),
 after the LZ4 Block Format description.
 */
module Lz4 {
  import opened Wire
  import opened Wrappers

  /** Literals followed by a match: copy `matchLen` bytes from `offset` back. */
  datatype Sequence = Sequence(literals: bytes, offset: uint16, matchLen: nat)

  /** The closing run of literals; the low half of its token means nothing. */
  datatype Tail = Tail(literals: bytes, unused: byte)

  /** A block ends with a tail or, as this decoder also allows, right behind a match. */
  datatype Block = Block(sequences: seq<Sequence>, tail: Option<Tail>)

  // ---- what a block stands for ----

  /** The output after copying `n` bytes from `offset` back, one at a time. */
  function CopyMatch(out: bytes, offset: nat, n: nat): bytes
    requires 0 < offset <= |out|
    decreases n
  {
    if n == 0 then out else CopyMatch(out + [out[|out| - offset]], offset, n - 1)
  }

  ghost predicate ValidSequence(s: Sequence, produced: nat) {
    s.matchLen >= 4 && 0 < s.offset <= produced + |s.literals|
  }

  function Apply(out: bytes, s: Sequence): bytes
    requires 0 < s.offset <= |out| + |s.literals|
  {
    CopyMatch(out + s.literals, s.offset, s.matchLen)
  }

  ghost predicate ValidFrom(b: Block, out: bytes)
    decreases |b.sequences|
  {
    if b.sequences == [] then b.tail.Some? ==> b.tail.value.unused < 16
    else ValidSequence(b.sequences[0], |out|) && ValidFrom(Rest(b), Apply(out, b.sequences[0]))
  }

  function Rest(b: Block): Block
    requires b.sequences != []
  {
    Block(b.sequences[1..], b.tail)
  }

  /** The bytes a block stands for when `out` has been produced before it. */
  ghost function Expand(b: Block, out: bytes): bytes
    requires ValidFrom(b, out)
    decreases |b.sequences|
  {
    if b.sequences == [] then (if b.tail.Some? then out + b.tail.value.literals else out)
    else Expand(Rest(b), Apply(out, b.sequences[0]))
  }

  // ---- how a block is written ----

  /** The nibble of a token that announces the length `n`. */
  function Nibble(n: nat): (k: nat)
    ensures k < 16
  {
    if n < 15 then n else 15
  }

  /** The bytes that carry what the nibble could not: 255 repeated, then a smaller one. */
  function Extension(n: nat): bytes {
    if n < 15 then [] else Run255(n - 15)
  }

  function Run255(n: nat): (s: bytes)
    ensures s != []
  {
    if n < 255 then [n] else [255] + Run255(n - 255)
  }

  function Token(high: nat, low: nat): byte
    requires high < 16 && low < 16
  {
    high * 16 + low
  }

  function Le16(n: uint16): (s: bytes)
    ensures |s| == 2
  {
    [n % 0x100, n / 0x100]
  }

  function FromLe16(s: bytes): uint16
    requires |s| == 2
  {
    s[0] as int + 0x100 * s[1] as int
  }

  lemma Le16RoundTrip(n: uint16)
    ensures FromLe16(Le16(n)) == n
  {
  }

  function EncodeSequence(s: Sequence): bytes
    requires s.matchLen >= 4
  {
    [Token(Nibble(|s.literals|), Nibble(s.matchLen - 4))] + Extension(|s.literals|) + s.literals
    + Le16(s.offset) + Extension(s.matchLen - 4)
  }

  function EncodeTail(t: Tail): bytes
    requires t.unused < 16
  {
    [Token(Nibble(|t.literals|), t.unused)] + Extension(|t.literals|) + t.literals
  }

  ghost function EncodeFrom(b: Block, out: bytes): bytes
    requires ValidFrom(b, out)
    decreases |b.sequences|
  {
    if b.sequences == [] then (if b.tail.Some? then EncodeTail(b.tail.value) else [])
    else EncodeSequence(b.sequences[0]) + EncodeFrom(Rest(b), Apply(out, b.sequences[0]))
  }

  ghost predicate Valid(b: Block) { ValidFrom(b, []) }

  ghost function Encode(b: Block): bytes
    requires Valid(b)
  {
    EncodeFrom(b, [])
  }

  // ---- the decoder ----

  datatype Length = Length(n: nat, next: nat) | NoLength

  /** `base` plus the run at `i`: bytes of 255 and one smaller byte. */
  function ReadExtension(data: bytes, i: nat, base: nat): (r: Length)
    ensures r.Length? ==> i < r.next <= |data| && base <= r.n < base + 255 * (r.next - i)
    decreases |data| - i
  {
    if i >= |data| then NoLength
    else if data[i] == 255 then ReadExtension(data, i + 1, base + 255)
    else Length(base + data[i], i + 1)
  }

  /** `nibble + bias`, with an extension behind it when the nibble is full. */
  function ReadLength(data: bytes, i: nat, nibble: nat, bias: nat): (r: Length)
    requires i <= |data|
    ensures r.Length? ==> i <= r.next <= |data|
    ensures r.Length? ==> nibble + bias <= r.n <= nibble + bias + 255 * (r.next - i)
  {
    if nibble == 15 then ReadExtension(data, i, 15 + bias) else Length(nibble + bias, i)
  }

  /** One turn of the decoding loop. */
  datatype Turn = Fail | Finished(tail: Tail) | Onward(s: Sequence, next: nat)

  function DecodeTurn(data: bytes, i: nat, produced: nat): (t: Turn)
    requires i < |data|
    ensures t.Onward? ==> i < t.next <= |data| && ValidSequence(t.s, produced)
    ensures t.Finished? ==> t.tail.unused < 16
  {
    var lit := ReadLength(data, i + 1, data[i] / 16, 0);
    if lit.NoLength? || lit.next + lit.n > |data| then Fail
    else
      var literals, at := data[lit.next..lit.next + lit.n], lit.next + lit.n;
      if at == |data| then Finished(Tail(literals, data[i] % 16))
      else if at + 2 > |data| then Fail
      else
        var offset := FromLe16(data[at..at + 2]);
        if offset == 0 || offset > produced + lit.n then Fail
        else
          var m := ReadLength(data, at + 2, data[i] % 16, 4);
          if m.NoLength? then Fail else Onward(Sequence(literals, offset, m.n), m.next)
  }

  /** Decoding `data[i..]` behind the output `out`. */
  function DecodeFrom(data: bytes, i: nat, out: bytes): Result<bytes>
    requires i <= |data|
    decreases |data| - i
  {
    if i == |data| then Ok(out)
    else match DecodeTurn(data, i, |out|)
         case Fail => Err
         case Finished(tail) => Ok(out + tail.literals)
         case Onward(s, next) => DecodeFrom(data, next, Apply(out, s))
  }

  function Decode(data: bytes): Result<bytes> {
    DecodeFrom(data, 0, [])
  }

  /** A nibble and, when it is full, the loop over the bytes of 255 behind it. */
  method DecodeLength(data: bytes, start: nat, nibble: nat, bias: nat) returns (r: Length)
    requires start <= |data|
    ensures r == ReadLength(data, start, nibble, bias)
  {
    var i, n: nat := start, nibble + bias;
    if nibble == 15 {
      while i < |data| && data[i] == 255
        invariant i <= |data| && ReadExtension(data, i, n) == ReadExtension(data, start, 15 + bias)
      {
        n := n + 255;
        i := i + 1;
      }
      if i >= |data| {
        return NoLength;
      }
      n := n + data[i];
      i := i + 1;
    }
    return Length(n, i);
  }

  /** The byte-by-byte copy loop: it may read bytes it has itself appended. */
  method AppendMatch(before: bytes, offset: nat, matchLen: nat) returns (out: bytes)
    requires 0 < offset <= |before|
    ensures out == CopyMatch(before, offset, matchLen)
  {
    out := before;
    var start := |out| - offset;
    for j := 0 to matchLen
      invariant |out| == |before| + j
      invariant CopyMatch(out, offset, matchLen - j) == CopyMatch(before, offset, matchLen)
    {
      out := out + [out[start + j]];
    }
  }

  lemma DecodeUnfolds(data: bytes, i: nat, out: bytes)
    requires i <= |data|
    ensures i == |data| ==> DecodeFrom(data, i, out) == Ok(out)
    ensures i < |data| ==> var t := DecodeTurn(data, i, |out|);
      && (t.Fail? ==> DecodeFrom(data, i, out) == Err)
      && (t.Finished? ==> DecodeFrom(data, i, out) == Ok(out + t.tail.literals))
      && (t.Onward? ==> DecodeFrom(data, i, out) == DecodeFrom(data, t.next, Apply(out, t.s)))
  {
  }

  method Lz4Decompress(data: bytes) returns (r: Result<bytes>)
    ensures r == Decode(data)
  {
    var out: bytes := [];
    var i := 0;
    hide CopyMatch, ReadLength, FromLe16, DecodeFrom;
    while i < |data|
      invariant i <= |data| && DecodeFrom(data, i, out) == Decode(data)
    {
      DecodeUnfolds(data, i, out);
      var tok := data[i];
      var lit := DecodeLength(data, i + 1, tok / 16, 0);
      if lit.NoLength? || lit.next + lit.n > |data| {
        return Err;
      }
      ghost var turn, before := DecodeTurn(data, i, |out|), out;
      var literals := data[lit.next..lit.next + lit.n];
      out := out + literals;
      i := lit.next + lit.n;
      if i >= |data| {
        break;
      }
      if i + 2 > |data| {
        return Err;
      }
      var off := FromLe16(data[i..i + 2]);
      i := i + 2;
      if off <= 0 || off > |out| {
        return Err;
      }
      var match_ := DecodeLength(data, i, tok % 16, 4);
      if match_.NoLength? {
        return Err;
      }
      i := match_.next;
      assert turn == Onward(Sequence(literals, off, match_.n), i);
      out := AppendMatch(out, off, match_.n);
      assert out == Apply(before, turn.s);
    }
    DecodeUnfolds(data, |data|, out);
    r := Ok(out);
  }

  method Lz4AllLiteral(data: bytes) returns (out: bytes)
    ensures out == EncodeTail(Tail(data, 0))
  {
    var n := |data|;
    if n < 15 {
      return [n * 16] + data;
    }
    out := [0xf0];
    var rem := n - 15;
    while rem >= 255
      invariant out + Run255(rem) == [0xf0] + Run255(n - 15)
    {
      assert Run255(rem) == [255] + Run255(rem - 255);
      out := out + [255];
      rem := rem - 255;
    }
    out := out + [rem];
    out := out + data;
  }

  // ---- decoding undoes encoding ----

  lemma {:induction false} ReadRun(data: bytes, i: nat, n: nat, base: nat)
    requires At(data, i, Run255(n))
    ensures ReadExtension(data, i, base) == Length(base + n, i + |Run255(n)|)
    decreases n
  {
    assert data[i] == data[i..i + |Run255(n)|][0] == Run255(n)[0];
    if n < 255 {
    } else {
      AtConcat(data, i, [255], Run255(n - 255));
      ReadRun(data, i + 1, n - 255, base + 255);
    }
  }

  lemma ReadBack(data: bytes, i: nat, n: nat, bias: nat)
    requires At(data, i, Extension(n))
    ensures ReadLength(data, i, Nibble(n), bias) == Length(n + bias, i + |Extension(n)|)
  {
    if n >= 15 {
      ReadRun(data, i, n - 15, 15 + bias);
    }
  }

  /** A token and the literals behind it, as the decoder finds them. */
  lemma LiteralsRead(data: bytes, i: nat, literals: bytes, low: nat)
    requires low < 16
    requires At(data, i, [Token(Nibble(|literals|), low)] + Extension(|literals|) + literals)
    ensures i < |data| && data[i] % 16 == low
    ensures var lit := i + 1 + |Extension(|literals|)|;
      && ReadLength(data, i + 1, data[i] / 16, 0) == Length(|literals|, lit)
      && At(data, lit, literals)
  {
    hide Extension, ReadLength, Nibble;
    var t, x := Token(Nibble(|literals|), low), Extension(|literals|);
    AtConcat(data, i, [t] + x, literals);
    AtConcat(data, i, [t], x);
    assert data[i] == data[i..i + |[t]|][0];
    ReadBack(data, i + 1, |literals|, 0);
  }

  lemma TurnReadsSequence(data: bytes, i: nat, s: Sequence, produced: nat)
    requires ValidSequence(s, produced) && At(data, i, EncodeSequence(s))
    ensures DecodeTurn(data, i, produced) == Onward(s, i + |EncodeSequence(s)|)
  {
    hide Extension, Le16, Nibble, Token, ReadLength, DecodeTurn, At;
    var n, m := |s.literals|, s.matchLen - 4;
    var head := [Token(Nibble(n), Nibble(m))] + Extension(n) + s.literals;
    var at := i + |head|;
    AtConcat(data, i, head + Le16(s.offset), Extension(m));
    AtConcat(data, i, head, Le16(s.offset));
    LiteralsRead(data, i, s.literals, Nibble(m));
    ReadBack(data, at + 2, m, 4);
    TurnFromParts(data, i, s, at, at + 2 + |Extension(m)|, produced);
  }

  lemma TurnFromParts(data: bytes, i: nat, s: Sequence, at: nat, end: nat, produced: nat)
    requires ValidSequence(s, produced) && i + |s.literals| < at && at + 2 <= end <= |data|
    requires ReadLength(data, i + 1, data[i] / 16, 0) == Length(|s.literals|, at - |s.literals|)
    requires At(data, at - |s.literals|, s.literals) && At(data, at, Le16(s.offset))
    requires ReadLength(data, at + 2, data[i] % 16, 4) == Length(s.matchLen, end)
    ensures DecodeTurn(data, i, produced) == Onward(s, end)
  {
    hide ReadLength;
    Le16RoundTrip(s.offset);
    hide FromLe16, Le16;
  }

  lemma TurnReadsTail(data: bytes, i: nat, t: Tail, produced: nat)
    requires t.unused < 16 && At(data, i, EncodeTail(t)) && i + |EncodeTail(t)| == |data|
    ensures i < |data| && DecodeTurn(data, i, produced) == Finished(t)
  {
    LiteralsRead(data, i, t.literals, t.unused);
    hide Extension, Token, ReadLength, Nibble;
  }

  lemma {:induction false} DecodeEncodedFrom(b: Block, data: bytes, i: nat, out: bytes)
    requires ValidFrom(b, out) && i <= |data| && data[i..] == EncodeFrom(b, out)
    ensures DecodeFrom(data, i, out) == Ok(Expand(b, out))
    decreases |b.sequences|
  {
    hide DecodeTurn, EncodeSequence, EncodeTail, Apply;
    if b.sequences == [] {
      if b.tail.Some? {
        assert data[i..i + |EncodeTail(b.tail.value)|] == data[i..];
        TurnReadsTail(data, i, b.tail.value, |out|);
      }
    } else {
      var s := b.sequences[0];
      var e := EncodeSequence(s);
      var next := i + |e|;
      assert data[i..next] == data[i..][..|e|] == e;
      assert data[next..] == data[i..][|e|..];
      assert e != [] by { SequenceNotEmpty(s); }
      TurnReadsSequence(data, i, s, |out|);
      DecodeEncodedFrom(Rest(b), data, next, Apply(out, s));
    }
  }

  lemma SequenceNotEmpty(s: Sequence)
    requires s.matchLen >= 4
    ensures EncodeSequence(s) != []
  {
  }

  /** Decoding an encoded block gives back exactly what the block stands for. */
  lemma DecodeEncoded(b: Block)
    requires Valid(b)
    ensures Decode(Encode(b)) == Ok(Expand(b, []))
  {
    assert Encode(b)[0..] == Encode(b);
    DecodeEncodedFrom(b, Encode(b), 0, []);
  }

  /** The all-literal encoder writes a block that is one tail. */
  lemma AllLiteralRoundTrip(data: bytes)
    ensures Decode(EncodeTail(Tail(data, 0))) == Ok(data)
  {
    var b := Block([], Some(Tail(data, 0)));
    DecodeEncoded(b);
    assert Encode(b) == EncodeTail(Tail(data, 0)) && Expand(b, []) == [] + data == data;
  }

  // ---- whatever the decoder accepts is an encoded block ----

  lemma {:induction false} RunWritten(data: bytes, i: nat, base: nat)
    requires ReadExtension(data, i, base).Length?
    ensures var r := ReadExtension(data, i, base);
      data[i..r.next] == Run255(r.n - base)
    decreases |data| - i
  {
    var r := ReadExtension(data, i, base);
    if data[i] == 255 {
      RunWritten(data, i + 1, base + 255);
      assert data[i..r.next] == [255] + data[i + 1..r.next];
    } else {
      assert data[i..r.next] == [data[i]];
    }
  }

  lemma LengthWritten(data: bytes, i: nat, nibble: nat, bias: nat)
    requires i <= |data| && nibble < 16 && ReadLength(data, i, nibble, bias).Length?
    ensures var r := ReadLength(data, i, nibble, bias);
      nibble == Nibble(r.n - bias) && data[i..r.next] == Extension(r.n - bias)
  {
    if nibble == 15 {
      RunWritten(data, i, 15 + bias);
    }
  }

  lemma SequenceWritten(data: bytes, i: nat, produced: nat)
    requires i < |data| && DecodeTurn(data, i, produced).Onward?
    ensures var t := DecodeTurn(data, i, produced);
      data[i..t.next] == EncodeSequence(t.s)
  {
    hide ReadLength, Extension, Nibble, Le16, FromLe16, Token;
    var lit := ReadLength(data, i + 1, data[i] / 16, 0);
    var at := lit.next + lit.n;
    var m := ReadLength(data, at + 2, data[i] % 16, 4);
    LengthWritten(data, i + 1, data[i] / 16, 0);
    LengthWritten(data, at + 2, data[i] % 16, 4);
    Le16Written(data[at..at + 2]);
    TokenWritten(data[i]);
    FivePieces(data, i, lit.next, at, m.next);
  }

  lemma TokenWritten(token: byte)
    ensures Token(token / 16, token % 16) == token
  {
  }

  lemma FivePieces(data: bytes, i: nat, j: nat, k: nat, end: nat)
    requires i < j <= k && k + 2 <= end <= |data|
    ensures data[i..end] == [data[i]] + data[i + 1..j] + data[j..k] + data[k..k + 2] + data[k + 2..end]
  {
  }

  lemma Le16Written(s: bytes)
    requires |s| == 2
    ensures Le16(FromLe16(s)) == s
  {
  }

  lemma TailWritten(data: bytes, i: nat, produced: nat)
    requires i < |data| && DecodeTurn(data, i, produced).Finished?
    ensures data[i..] == EncodeTail(DecodeTurn(data, i, produced).tail)
  {
    hide ReadLength, Extension, Nibble, FromLe16, Token;
    var lit := ReadLength(data, i + 1, data[i] / 16, 0);
    LengthWritten(data, i + 1, data[i] / 16, 0);
    TokenWritten(data[i]);
    assert data[i..] == [data[i]] + data[i + 1..lit.next] + data[lit.next..];
  }

  /** Rebuilds the block behind an accepted input. */
  lemma {:induction false} Accepted(data: bytes, i: nat, out: bytes) returns (b: Block)
    requires i <= |data| && DecodeFrom(data, i, out).Ok?
    ensures ValidFrom(b, out) && EncodeFrom(b, out) == data[i..]
    ensures DecodeFrom(data, i, out) == Ok(Expand(b, out))
    decreases |data| - i
  {
    hide EncodeSequence, EncodeTail, Apply, DecodeTurn;
    if i == |data| {
      b := Block([], None);
    } else if DecodeTurn(data, i, |out|).Finished? {
      TailWritten(data, i, |out|);
      b := Block([], Some(DecodeTurn(data, i, |out|).tail));
    } else {
      var t := DecodeTurn(data, i, |out|);
      var rest := Accepted(data, t.next, Apply(out, t.s));
      SequenceWritten(data, i, |out|);
      b := Block([t.s] + rest.sequences, rest.tail);
      assert Rest(b) == rest;
      assert data[i..] == data[i..t.next] + data[t.next..];
    }
  }

  /** The decoder accepts exactly the encoded blocks, each with its own meaning. */
  lemma DecodesExactlyBlocks(data: bytes, out: bytes)
    ensures Decode(data) == Ok(out) <==>
            exists b :: Valid(b) && Encode(b) == data && Expand(b, []) == out
  {
    if Decode(data) == Ok(out) {
      var b := Accepted(data, 0, []);
      assert Valid(b) && Encode(b) == data && Expand(b, []) == out;
    }
    forall b | Valid(b) && Encode(b) == data
      ensures Decode(data) == Ok(Expand(b, []))
    {
      DecodeEncoded(b);
    }
  }

  // ---- what a match copies, and how much can come out ----

  /** A match keeps the output and repeats it with the period `offset`, overlap or not. */
  lemma {:induction false} MatchIsPeriodic(out: bytes, offset: nat, n: nat)
    requires 0 < offset <= |out|
    ensures var r := CopyMatch(out, offset, n);
      && |r| == |out| + n && r[..|out|] == out
      && forall p :: |out| <= p < |r| ==> r[p] == r[p - offset]
    decreases n
  {
    if n == 0 {
    } else {
      var more := out + [out[|out| - offset]];
      MatchIsPeriodic(more, offset, n - 1);
      var r := CopyMatch(more, offset, n - 1);
      assert r[..|out|] == r[..|more|][..|out|] == out;
      assert r[|out|] == r[..|more|][|out|] == more[|out|];
      assert r[|out| - offset] == r[..|out|][|out| - offset];
    }
  }

  lemma TurnOutput(data: bytes, i: nat, produced: nat)
    requires i < |data|
    ensures var t := DecodeTurn(data, i, produced);
      && (t.Onward? ==> |t.s.literals| + t.s.matchLen <= 255 * (t.next - i))
      && (t.Finished? ==> |t.tail.literals| <= |data| - i)
  {
  }

  lemma {:induction false} ExpansionFrom(data: bytes, i: nat, out: bytes)
    requires i <= |data| && DecodeFrom(data, i, out).Ok?
    ensures |DecodeFrom(data, i, out).value| <= |out| + 255 * (|data| - i)
    decreases |data| - i
  {
    if i == |data| {
    } else {
      TurnOutput(data, i, |out|);
      hide DecodeTurn;
      var t := DecodeTurn(data, i, |out|);
      if t.Onward? {
        MatchIsPeriodic(out + t.s.literals, t.s.offset, t.s.matchLen);
        hide CopyMatch;
        ExpansionFrom(data, t.next, Apply(out, t.s));
      }
    }
  }

  /** No accepted input grows more than 255-fold. */
  lemma ExpansionBound(data: bytes)
    requires Decode(data).Ok?
    ensures |Decode(data).value| <= 255 * |data|
  {
    ExpansionFrom(data, 0, []);
  }

  // ---- in bytes ----

  /** From 15 on a length takes bytes of 255, as many as fit, and one smaller byte. */
  lemma {:induction false} ExtensionIs(count: nat, last: byte)
    requires last < 255
    ensures Extension(15 + 255 * count + last) == seq(count, i => 255) + [last]
    decreases count
  {
    RunIs(count, last);
  }

  lemma {:induction false} RunIs(count: nat, last: byte)
    requires last < 255
    ensures Run255(255 * count + last) == seq(count, i => 255) + [last]
    decreases count
  {
    if count == 0 {
    } else {
      RunIs(count - 1, last);
      assert [255] + (seq(count - 1, i => 255) + [last]) == seq(count, i => 255) + [last];
    }
  }

  /** A token whose halves are the two lengths, the literals, the offset with its low byte first. */
  lemma ShortSequenceIs(literals: bytes, low: byte, high: byte, m: nat)
    requires |literals| < 15 && m < 15
    ensures EncodeSequence(Sequence(literals, low + 0x100 * high, m + 4))
            == [16 * |literals| + m] + literals + [low, high]
  {
    assert Le16(low + 0x100 * high) == [low, high];
  }

  /** So such a sequence decodes to its literals and the match behind them, if the offset reaches back into them. */
  lemma ShortSequenceRead(literals: bytes, low: byte, high: byte, m: nat)
    requires |literals| < 15 && m < 15
    ensures var offset := low + 0x100 * high;
      Decode([16 * |literals| + m] + literals + [low, high])
      == if 0 < offset <= |literals| then Ok(CopyMatch(literals, offset, m + 4)) else Err
  {
    var offset: uint16 := low + 0x100 * high;
    var s := Sequence(literals, offset, m + 4);
    if 0 < offset <= |literals| {
      ShortSequenceIs(literals, low, high, m);
      var b := Block([s], None);
      OneSequence(s);
      DecodeEncoded(b);
    } else {
      BadOffset(literals, low, high, m);
    }
  }

  lemma OneSequence(s: Sequence)
    requires ValidSequence(s, 0)
    ensures var b := Block([s], None);
      Valid(b) && Encode(b) == EncodeSequence(s) && Expand(b, []) == CopyMatch(s.literals, s.offset, s.matchLen)
  {
    hide EncodeSequence, CopyMatch;
    var b := Block([s], None);
    assert Rest(b) == Block([], None) && [] + s.literals == s.literals;
    assert EncodeFrom(Rest(b), Apply([], s)) == [] && EncodeSequence(s) + [] == EncodeSequence(s);
  }

  lemma BadOffset(literals: bytes, low: byte, high: byte, m: nat)
    requires |literals| < 15 && m < 15 && !(0 < low + 0x100 * high <= |literals|)
    ensures Decode([16 * |literals| + m] + literals + [low, high]) == Err
  {
    var data, n := [16 * |literals| + m] + literals + [low, high], |literals|;
    assert data[0] / 16 == n && data[n + 1..n + 3] == [low, high];
    assert FromLe16([low, high]) == low + 0x100 * high;
    hide FromLe16;
    assert DecodeTurn(data, 0, 0).Fail?;
  }

  /** Literals alone are a token and themselves. */
  lemma ShortTailIs(literals: bytes, unused: byte)
    requires |literals| < 15 && unused < 16
    ensures EncodeTail(Tail(literals, unused)) == [16 * |literals| + unused] + literals
  {
  }
}
