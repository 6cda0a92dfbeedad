/**
 The protobuf-style field codec (internal/protocol/bytes.go, `pbLen`, `pbVar`, `pbParse`).
 A message is a concatenation of tagged fields; parsing keeps the last value of each number.
 */
module Protobuf {
  import opened Wire
  import opened Varint

  /** What the parser stores under a field number. */
  datatype PbValue = Int(n: int) | Raw(data: bytes)

  /** The map built so far, or a slice expression out of range. */
  datatype Parsed = Fields(values: map<int, PbValue>) | Panic

  datatype Field = VarField(num: int, n: uint64) | LenField(num: int, data: bytes)
  {
    function Stored(): PbValue {
      match this
      case VarField(_, n) => Int(ToInt64(n))
      case LenField(_, data) => Raw(data)
    }

    /** The tag fits one byte without its continuation bit, the length a Go int. */
    ghost predicate Valid() {
      0 <= num <= 15 && (LenField? ==> |data| < TWO_63)
    }
  }

  /** `byte((field << 3) | wire)`. */
  function TagByte(field: int, wire: byte): byte
    requires wire < 8
  {
    (field * 8 + wire) % 0x100
  }

  function PbVar(field: int, n: uint64): bytes {
    [TagByte(field, 0)] + Encode(n)
  }

  function PbLen(field: int, data: bytes): bytes {
    [TagByte(field, 2)] + Encode(|data|) + data
  }

  function EncodeField(f: Field): bytes {
    match f
    case VarField(num, n) => PbVar(num, n)
    case LenField(num, data) => PbLen(num, data)
  }

  function EncodeAll(fs: seq<Field>): bytes {
    if fs == [] then [] else EncodeField(fs[0]) + EncodeAll(fs[1..])
  }

  function LastWins(out: map<int, PbValue>, fs: seq<Field>): map<int, PbValue>
    decreases fs
  {
    if fs == [] then out else LastWins(out[fs[0].num := fs[0].Stored()], fs[1..])
  }

  ghost predicate AllValid(fs: seq<Field>) {
    forall i :: 0 <= i < |fs| ==> fs[i].Valid()
  }

  /** The leading fields that lie wholly within the first `n` bytes of the encoding. */
  function CompleteWithin(fs: seq<Field>, n: nat): seq<Field> {
    if fs == [] || n < |EncodeField(fs[0])| then []
    else [fs[0]] + CompleteWithin(fs[1..], n - |EncodeField(fs[0])|)
  }

  /** They are the longest run of leading fields whose encodings fit in `n` bytes. */
  lemma {:induction false} CompleteIsLongest(fs: seq<Field>, n: nat)
    ensures var k := |CompleteWithin(fs, n)|;
      && k <= |fs| && CompleteWithin(fs, n) == fs[..k]
      && |EncodeAll(fs[..k])| <= n && (k < |fs| ==> n < |EncodeAll(fs[..k + 1])|)
  {
    hide EncodeField;
    if fs != [] && n >= |EncodeField(fs[0])| {
      var m := n - |EncodeField(fs[0])|;
      CompleteIsLongest(fs[1..], m);
      var k := |CompleteWithin(fs[1..], m)|;
      assert fs[..k + 1][1..] == fs[1..][..k];
      if k + 1 < |fs| {
        assert fs[..k + 2][1..] == fs[1..][..k + 1];
      }
    } else if fs != [] {
      assert fs[..1][1..] == [];
    }
  }

  /** One turn of the parsing loop: it is over, or one more field was stored. */
  datatype Turn = Over(result: Parsed) | Onward(next: nat, out: map<int, PbValue>)

  ghost function ParseTurn(data: bytes, i: nat, out: map<int, PbValue>): (t: Turn)
    requires i <= |data| < TWO_63
    ensures t.Onward? ==> i < t.next <= |data|
  {
    var tag := ReadAt(data, i);
    if !tag.Got? || (tag.value % 8 != 0 && tag.value % 8 != 2) then Over(Fields(out))
    else
      var number := ReadAt(data, tag.next);
      if !number.Got? then Over(Fields(out))
      else if tag.value % 8 == 0 then
        Onward(number.next, out[tag.value / 8 := Int(ToInt64(number.value))])
      else
        var end := AddLength(number.next, number.value);
        if end > |data| then Over(Fields(out))
        else if end < number.next then Over(Panic)
        else Onward(end, out[tag.value / 8 := Raw(data[number.next..end])])
  }

  /** Parsing from `i` on with the fields of `out` already found. */
  ghost function ParseFrom(data: bytes, i: nat, out: map<int, PbValue>): Parsed
    requires i <= |data| < TWO_63
    decreases |data| - i
  {
    match ParseTurn(data, i, out)
    case Over(result) => result
    case Onward(next, more) => ParseFrom(data, next, more)
  }

  ghost function Parse(data: bytes): Parsed
    requires |data| < TWO_63
  {
    ParseFrom(data, 0, map[])
  }

  method PbParse(data: bytes) returns (r: Parsed)
    requires |data| < TWO_63
    ensures r == Parse(data)
  {
    var out: map<int, PbValue> := map[];
    var i := 0;
    while i < |data|
      invariant i <= |data| && ParseFrom(data, i, out) == Parse(data)
    {
      var tag := ReadVarint(data, i);
      if !tag.Got? {
        break;
      }
      i := tag.next;
      var fn, wt := tag.value / 8, tag.value % 8;
      if wt == 0 {
        var v := ReadVarint(data, i);
        if !v.Got? {
          return Fields(out);
        }
        i := v.next;
        out := out[fn := Int(ToInt64(v.value))];
      } else if wt == 2 {
        var ln := ReadVarint(data, i);
        if !ln.Got? {
          return Fields(out);
        }
        i := ln.next;
        var end := AddLength(i, ln.value);
        if end > |data| {
          return Fields(out);
        }
        if end < i {
          return Panic;
        }
        var raw := data[i..end];
        i := end;
        out := out[fn := Raw(raw)];
      } else {
        return Fields(out);
      }
    }
    r := Fields(out);
  }

  lemma TagParts(num: int, wire: byte)
    requires 0 <= num <= 15 && wire < 8
    ensures var t := TagByte(num, wire); t < 128 && t / 8 == num && t % 8 == wire
  {
  }

  lemma SmallReads(data: bytes, i: nat)
    requires i < |data| && data[i] < 128
    ensures ReadAt(data, i) == Got(data[i], i + 1)
  {
    hide ReadAt;
    assert Encode(data[i]) == [data[i]] == data[i..i + 1];
    ReadEncoded(data, i, data[i]);
  }

  lemma TagRead(data: bytes, i: nat, f: Field)
    requires f.Valid() && i < |data| && data[i] == EncodeField(f)[0]
    ensures data[i] / 8 == f.num && data[i] % 8 == if f.VarField? then 0 else 2
    ensures ReadAt(data, i) == Got(data[i], i + 1)
  {
    hide ReadAt, Encode, TagByte;
    var wire: byte := if f.VarField? then 0 else 2;
    TagParts(f.num, wire);
    assert data[i] == TagByte(f.num, wire);
    SmallReads(data, i);
  }

  /** The turn at a tag whose number cannot be read, or whose payload is not all there. */
  lemma TurnEnds(data: bytes, i: nat, out: map<int, PbValue>)
    requires i <= |data| < TWO_63 && ReadAt(data, i).Got?
    requires var r := ReadAt(data, ReadAt(data, i).next);
      !r.Got? || (ReadAt(data, i).value % 8 == 2 && |data| < r.next + r.value < TWO_63)
    ensures ParseTurn(data, i, out) == Over(Fields(out))
  {
    hide ReadAt;
  }

  lemma TurnStoresInt(data: bytes, i: nat, out: map<int, PbValue>)
    requires i <= |data| < TWO_63 && ReadAt(data, i).Got? && ReadAt(data, i).value % 8 == 0
    requires ReadAt(data, ReadAt(data, i).next).Got?
    ensures var tag := ReadAt(data, i);
      var r := ReadAt(data, tag.next);
      ParseTurn(data, i, out) == Onward(r.next, out[tag.value / 8 := Int(ToInt64(r.value))])
  {
    hide ReadAt, ToInt64;
  }

  lemma TurnStoresRaw(data: bytes, i: nat, out: map<int, PbValue>)
    requires i <= |data| < TWO_63 && ReadAt(data, i).Got? && ReadAt(data, i).value % 8 == 2
    requires var r := ReadAt(data, ReadAt(data, i).next);
      r.Got? && r.next + r.value <= |data|
    ensures var tag := ReadAt(data, i);
      var r := ReadAt(data, tag.next);
      ParseTurn(data, i, out) ==
      Onward(r.next + r.value, out[tag.value / 8 := Raw(data[r.next..r.next + r.value])])
  {
    hide ReadAt;
  }

  /** One complete field at `i`: the parser stores it and goes on behind it. */
  lemma ParseField(data: bytes, i: nat, f: Field, out: map<int, PbValue>)
    requires f.Valid() && At(data, i, EncodeField(f)) && |data| < TWO_63
    ensures ParseTurn(data, i, out) == Onward(i + |EncodeField(f)|, out[f.num := f.Stored()])
  {
    hide Encode, EncodeField, ReadAt, ParseTurn, Field.Valid;
    var size := if f.VarField? then f.n else |f.data|;
    FieldParts(data, i, f, size);
    TagRead(data, i, f);
    ReadEncoded(data, i + 1, size);
    if f.VarField? {
      TurnStoresInt(data, i, out);
    } else {
      TurnStoresRaw(data, i, out);
    }
  }

  lemma FieldParts(data: bytes, i: nat, f: Field, size: nat)
    requires At(data, i, EncodeField(f)) && size == if f.VarField? then f.n else |f.data|
    ensures i < |data| && data[i] == EncodeField(f)[0] && At(data, i + 1, Encode(size))
    ensures |EncodeField(f)| == 1 + |Encode(size)| + (if f.LenField? then size else 0)
    ensures f.LenField? ==> At(data, i + 1 + |Encode(size)|, f.data)
  {
    hide Encode;
    var t := EncodeField(f)[0];
    assert data[i] == data[i..i + |EncodeField(f)|][0];
    if f.LenField? {
      AtConcat(data, i, [t] + Encode(size), f.data);
    }
    AtConcat(data, i, [t], Encode(size));
  }

  /** A field cut short by the end of the data is dropped. */
  lemma ParseCutField(data: bytes, i: nat, f: Field, out: map<int, PbValue>)
    requires f.Valid() && i <= |data| && |data| - i < |EncodeField(f)| && i + |EncodeField(f)| < TWO_63
    requires data[i..] == EncodeField(f)[..|data| - i]
    ensures ParseTurn(data, i, out) == Over(Fields(out))
  {
    if i < |data| {
      hide Encode, EncodeField, ReadAt, ParseTurn, At;
      var size := if f.VarField? then f.n else |f.data|;
      CutFieldParts(data, i, f, size);
      TagRead(data, i, f);
      if i + 1 + |Encode(size)| <= |data| {
        ReadEncoded(data, i + 1, size);
      } else {
        ReadCut(data, i + 1, size);
      }
      TurnEnds(data, i, out);
    }
  }

  lemma CutFieldParts(data: bytes, i: nat, f: Field, size: nat)
    requires i < |data| && |data| - i < |EncodeField(f)| && data[i..] == EncodeField(f)[..|data| - i]
    requires size == if f.VarField? then f.n else |f.data|
    ensures data[i] == EncodeField(f)[0]
    ensures |EncodeField(f)| == 1 + |Encode(size)| + (if f.LenField? then size else 0)
    ensures var at := i + 1 + |Encode(size)|;
      if at <= |data| then f.LenField? && at + size > |data| && At(data, i + 1, Encode(size))
      else data[i + 1..] == Encode(size)[..|data| - i - 1]
  {
    hide Encode;
    var e, n := EncodeField(f), |Encode(size)|;
    SliceWithinCut(data, i, e, 0, 1);
    assert data[i] == data[i + 0..i + 1][0];
    if i + 1 + n <= |data| {
      SliceWithinCut(data, i, e, 1, 1 + n);
      assert e[1..1 + n] == Encode(size);
    } else {
      SliceWithinCut(data, i, e, 1, |data| - i);
      assert e[1..|data| - i] == Encode(size)[..|data| - i - 1];
      assert data[i + 1..] == data[i + 1..|data|];
    }
  }

  /** The message at `i` starts with a whole first field, or is a part of it. */
  lemma FirstField(fs: seq<Field>, data: bytes, i: nat)
    requires fs != [] && i <= |data| && data[i..] <= EncodeAll(fs)
    ensures var e := EncodeField(fs[0]);
      if |data| - i < |e| then data[i..] == e[..|data| - i]
      else At(data, i, e) && data[i + |e|..] <= EncodeAll(fs[1..])
    ensures |EncodeAll(fs)| == |EncodeField(fs[0])| + |EncodeAll(fs[1..])| && EncodeField(fs[0]) != []
  {
    assert EncodeField(fs[0]) != [] by { hide Encode; }
    hide EncodeField, At;
    PrefixSplit(data, i, EncodeField(fs[0]), EncodeAll(fs[1..]));
  }

  /** Parsing `data[i..]`, a prefix of the encoding of `fs`, takes its first field or ends. */
  lemma ParseStep(fs: seq<Field>, data: bytes, i: nat, out: map<int, PbValue>)
    requires fs != [] && fs[0].Valid() && i <= |data| && i + |EncodeAll(fs)| < TWO_63
    requires data[i..] <= EncodeAll(fs)
    ensures var j := i + |EncodeField(fs[0])|;
      if |data| < j then ParseFrom(data, i, out) == Fields(out)
      else i < j && data[j..] <= EncodeAll(fs[1..]) && j + |EncodeAll(fs[1..])| < TWO_63
           && ParseFrom(data, i, out) == ParseFrom(data, j, out[fs[0].num := fs[0].Stored()])
  {
    hide EncodeField, ParseTurn, EncodeAll, Field.Valid, Field.Stored;
    FirstField(fs, data, i);
    if |data| < i + |EncodeField(fs[0])| {
      ParseCutField(data, i, fs[0], out);
    } else {
      ParseField(data, i, fs[0], out);
    }
  }

  lemma {:induction false} ParsePrefixFrom(fs: seq<Field>, data: bytes, i: nat, out: map<int, PbValue>)
    requires AllValid(fs) && i <= |data| && i + |EncodeAll(fs)| < TWO_63
    requires data[i..] <= EncodeAll(fs)
    ensures ParseFrom(data, i, out) == Fields(LastWins(out, CompleteWithin(fs, |data| - i)))
    decreases fs
  {
    hide EncodeField, ParseFrom, Field.Stored;
    if fs == [] {
      assert ParseFrom(data, i, out) == Fields(out) by { EndOfData(data, i, out); }
    } else {
      ParseStep(fs, data, i, out);
      var j := i + |EncodeField(fs[0])|;
      if j <= |data| {
        ParsePrefixFrom(fs[1..], data, j, out[fs[0].num := fs[0].Stored()]);
        LastWinsCons(out, fs[0], CompleteWithin(fs[1..], |data| - j));
      }
    }
  }

  lemma EndOfData(data: bytes, i: nat, out: map<int, PbValue>)
    requires i == |data| < TWO_63
    ensures ParseFrom(data, i, out) == Fields(out)
  {
  }

  lemma LastWinsCons(out: map<int, PbValue>, f: Field, fs: seq<Field>)
    ensures LastWins(out, [f] + fs) == LastWins(out[f.num := f.Stored()], fs)
  {
    assert ([f] + fs)[1..] == fs;
  }

  /** Any prefix of a message parses to the last-wins map of the fields it completes. */
  lemma ParsePrefix(fs: seq<Field>, data: bytes)
    requires AllValid(fs) && |EncodeAll(fs)| < TWO_63 && data <= EncodeAll(fs)
    ensures Parse(data) == Fields(LastWins(map[], CompleteWithin(fs, |data|)))
  {
    assert data[0..] == data;
    ParsePrefixFrom(fs, data, 0, map[]);
  }

  lemma {:induction false} AllComplete(fs: seq<Field>)
    ensures CompleteWithin(fs, |EncodeAll(fs)|) == fs
  {
    if fs == [] {
    } else {
      AllComplete(fs[1..]);
    }
  }

  /** A whole message parses to the last-wins map of all its fields. */
  lemma ParseMessage(fs: seq<Field>)
    requires AllValid(fs) && |EncodeAll(fs)| < TWO_63
    ensures Parse(EncodeAll(fs)) == Fields(LastWins(map[], fs))
  {
    ParsePrefix(fs, EncodeAll(fs));
    AllComplete(fs);
  }

  /** The map holds exactly the numbers present, each with its last occurrence. */
  lemma {:induction false} LastWinsMeaning(out: map<int, PbValue>, fs: seq<Field>, i: nat)
    requires i < |fs| && forall j :: i < j < |fs| ==> fs[j].num != fs[i].num
    ensures fs[i].num in LastWins(out, fs) && LastWins(out, fs)[fs[i].num] == fs[i].Stored()
    decreases fs
  {
    if i == 0 {
      Untouched(out[fs[0].num := fs[0].Stored()], fs[1..], fs[0].num);
    } else {
      assert fs[1..][i - 1] == fs[i];
      LastWinsMeaning(out[fs[0].num := fs[0].Stored()], fs[1..], i - 1);
    }
  }

  /** A number no field carries keeps what it had before, present or absent. */
  lemma {:induction false} Untouched(out: map<int, PbValue>, fs: seq<Field>, k: int)
    requires forall j :: 0 <= j < |fs| ==> fs[j].num != k
    ensures k in LastWins(out, fs) <==> k in out
    ensures k in out ==> LastWins(out, fs)[k] == out[k]
    decreases fs
  {
    if fs == [] {
    } else {
      Untouched(out[fs[0].num := fs[0].Stored()], fs[1..], k);
    }
  }

  /**
   The one-byte tag is the whole restriction on field numbers: a field of either kind comes
   back under its own number exactly when that number is 0 to 15.
   */
  lemma FieldNumberRange(f: Field)
    requires |EncodeField(f)| < TWO_63
    ensures Parse(EncodeField(f)) == Fields(map[f.num := f.Stored()]) <==> 0 <= f.num <= 15
  {
    hide Parse, Encode, Field.Stored, Field.Valid;
    if EncodeField(f)[0] < 128 {
      var g := SmallTag(f);
      hide EncodeField;
      LoneField(g);
      Singletons(g.num, f.num, f.Stored());
    } else {
      LargeTag(f);
    }
  }

  /** With a small tag byte the bytes are those of a valid field, under the number modulo 32. */
  lemma SmallTag(f: Field) returns (g: Field)
    requires EncodeField(f)[0] < 128 && |EncodeField(f)| < TWO_63
    ensures g.Valid() && EncodeField(g) == EncodeField(f) && g.Stored() == f.Stored()
    ensures g.num == f.num <==> 0 <= f.num <= 15
  {
    hide Encode, TagByte;
    match f
    case VarField(num, n) =>
      SmallTagByte(num, 0);
      g := VarField(TagByte(num, 0) / 8, n);
    case LenField(num, data) =>
      SmallTagByte(num, 2);
      g := LenField(TagByte(num, 2) / 8, data);
  }

  lemma SmallTagByte(num: int, wire: byte)
    requires wire < 8 && TagByte(num, wire) < 128
    ensures var k := TagByte(num, wire) / 8;
      0 <= k <= 15 && TagByte(k, wire) == TagByte(num, wire) && (k == num <==> 0 <= num <= 15)
  {
  }

  lemma LargeTag(f: Field)
    requires EncodeField(f)[0] >= 128 && |EncodeField(f)| < TWO_63
    ensures Parse(EncodeField(f)) != Fields(map[f.num := f.Stored()]) && !(0 <= f.num <= 15)
  {
    hide Encode, Parse;
    match f
    case VarField(num, n) =>
      assert EncodeField(f) == PbVar(num, n);
      LostField(num, n);
      Singletons(num, num, f.Stored());
    case LenField(num, data) =>
      assert EncodeField(f) == PbLen(num, data);
      LostLength(num, data);
  }

  ghost predicate RawsBelow(out: map<int, PbValue>, n: nat) {
    forall k :: k in out && out[k].Raw? ==> |out[k].data| < n
  }

  /** Behind a tag, what is stored is shorter than what is left: its length takes a byte at least. */
  lemma {:induction false} StoredRawsBelow(data: bytes, i: nat, out: map<int, PbValue>, n: nat)
    requires i <= |data| < TWO_63 && RawsBelow(out, n)
    requires ReadAt(data, i).Got? ==> |data| <= ReadAt(data, i).next + n
    ensures var r := ParseFrom(data, i, out); r.Fields? ==> RawsBelow(r.values, n)
    decreases |data| - i
  {
    hide ReadAt;
    match ParseTurn(data, i, out)
    case Over(result) =>
    case Onward(next, more) => StoredRawsBelow(data, next, more, n);
  }

  /** A tag byte with its high bit set swallows the length of a bytes field, and the field is lost. */
  lemma LostLength(num: int, d: bytes)
    requires TagByte(num, 2) >= 128 && |PbLen(num, d)| < TWO_63
    ensures Parse(PbLen(num, d)) != Fields(map[num := Raw(d)]) && !(0 <= num <= 15)
  {
    var data := PbLen(num, d);
    LengthSwallowed(num, d);
    hide ReadAt, PbLen, Encode;
    StoredRawsBelow(data, 0, map[], |d|);
    assert num in map[num := Raw(d)];
  }

  lemma LengthSwallowed(num: int, d: bytes)
    requires TagByte(num, 2) >= 128
    ensures var r := ReadAt(PbLen(num, d), 0); r.Got? ==> |PbLen(num, d)| == r.next + |d|
  {
    hide Encode;
    var data, last := PbLen(num, d), |Encode(|d|)|;
    EncodeMeaning(|d|);
    assert forall k :: 0 <= k < last ==> data[k + 1] == Encode(|d|)[k];
    RunEndIs(data, 0, last);
  }

  /** A tag byte with its high bit set swallows the number behind it. */
  lemma LostField(num: int, n: uint64)
    requires TagByte(num, 0) >= 128
    ensures |PbVar(num, n)| < TWO_63 && !(0 <= num <= 15)
    ensures Parse(PbVar(num, n)) == Fields(map[])
  {
    hide Encode;
    var data := PbVar(num, n);
    TenGroups(n);
    EncodeMeaning(n);
    RunEndIs(data, 0, |data| - 1);
    NothingBehindTag(data);
  }

  lemma Singletons(j: int, k: int, v: PbValue)
    ensures map[j := v] == map[k := v] <==> j == k
    ensures map[k := v] != map[]
  {
    assert j in map[j := v] && k in map[k := v];
  }

  lemma LoneField(f: Field)
    requires f.Valid() && |EncodeField(f)| < TWO_63
    ensures Parse(EncodeField(f)) == Fields(map[f.num := f.Stored()])
  {
    hide EncodeField, ParseFrom;
    assert EncodeAll([f]) == EncodeField(f);
    ParseMessage([f]);
    LastWinsCons(map[], f, []);
  }

  lemma NothingBehindTag(data: bytes)
    requires 0 < |data| < TWO_63 && RunEnd(data, 0) == |data| - 1
    ensures Parse(data) == Fields(map[])
  {
  }

  /** Every field is found under its own number, and nothing else is. */
  ghost predicate Recovers(parsed: Parsed, fs: seq<Field>) {
    && parsed.Fields?
    && (forall i :: 0 <= i < |fs| ==> fs[i].num in parsed.values && parsed.values[fs[i].num] == fs[i].Stored())
    && (forall k :: k in parsed.values ==> exists i :: 0 <= i < |fs| && fs[i].num == k)
  }

  ghost predicate DistinctNumbers(fs: seq<Field>) {
    forall i, j :: 0 <= i < j < |fs| ==> fs[i].num != fs[j].num
  }

  /** A message whose numbers do not repeat is recovered field by field. */
  lemma DistinctRecovered(fs: seq<Field>)
    requires AllValid(fs) && DistinctNumbers(fs) && |EncodeAll(fs)| < TWO_63
    ensures Recovers(Parse(EncodeAll(fs)), fs)
  {
    hide Parse, EncodeAll, Field.Stored;
    ParseMessage(fs);
    var m := LastWins(map[], fs);
    forall i | 0 <= i < |fs| ensures fs[i].num in m && m[fs[i].num] == fs[i].Stored() {
      LastWinsMeaning(map[], fs, i);
    }
    forall k | k in m ensures exists i :: 0 <= i < |fs| && fs[i].num == k {
      if forall i :: 0 <= i < |fs| ==> fs[i].num != k {
        Untouched(map[], fs, k);
      }
    }
  }

  /** Appending the next field's bytes to those of the fields before it. */
  lemma {:induction false} EncodeNext(fs: seq<Field>, k: nat)
    requires k < |fs|
    ensures EncodeAll(fs[..k + 1]) == EncodeAll(fs[..k]) + EncodeField(fs[k])
    ensures EncodeAll(fs[..0]) == [] && fs[..|fs|] == fs
  {
    hide EncodeField;
    if k > 0 {
      EncodeNext(fs[1..], k - 1);
      assert fs[..k + 1][1..] == fs[1..][..k] && fs[..k][1..] == fs[1..][..k - 1];
    } else {
      assert fs[..1][1..] == [];
    }
  }

  // ---- in bytes ----

  /** The byte in front of a field: eight times its number, plus 2 when bytes follow. */
  lemma FieldIs(num: nat, n: uint64, data: bytes)
    requires num <= 15
    ensures EncodeField(VarField(num, n)) == [8 * num] + Encode(n)
    ensures EncodeField(LenField(num, data)) == [8 * num + 2] + Encode(|data|) + data
  {
    TagIs(num, 0);
    TagIs(num, 2);
    hide Encode, TagByte;
  }

  /** From 16 on the high bit is set, and from 32 on the number itself is cut. */
  lemma TagIs(num: nat, wire: byte)
    requires wire < 8
    ensures num < 32 ==> TagByte(num, wire) == 8 * num + wire
    ensures TagByte(num + 32, wire) == TagByte(num, wire)
  {
  }

  /** A field of either kind as the parser finds it, the number read as a signed one. */
  lemma FieldRead(num: nat, n: uint64, data: bytes)
    requires num <= 15 && |data| < TWO_63 - 11
    ensures var v := if n < 0x8000_0000_0000_0000 then n else n - 0x1_0000_0000_0000_0000;
      |[8 * num] + Encode(n)| < TWO_63 && Parse([8 * num] + Encode(n)) == Fields(map[num := Int(v)])
    ensures |[8 * num + 2] + Encode(|data|) + data| < TWO_63
            && Parse([8 * num + 2] + Encode(|data|) + data) == Fields(map[num := Raw(data)])
  {
    hide Parse, Encode, EncodeField, Field.Stored;
    TenGroups(n);
    TenGroups(|data|);
    FieldIs(num, n, data);
    LoneField(VarField(num, n));
    LoneField(LenField(num, data));
    StoredIs(num, n, data);
  }

  lemma StoredIs(num: int, n: uint64, data: bytes)
    ensures VarField(num, n).Stored()
            == Int(if n < 0x8000_0000_0000_0000 then n else n - 0x1_0000_0000_0000_0000)
    ensures LenField(num, data).Stored() == Raw(data)
  {
  }

  /** A field of any other kind ends the parse: it and everything behind it are dropped. */
  lemma OtherKindEnds(num: nat, kind: byte, rest: bytes)
    requires num <= 15 && kind in {1, 3, 4, 5, 6, 7} && 1 + |rest| < TWO_63
    ensures Parse([8 * num + kind] + rest) == Fields(map[])
  {
    hide ReadAt;
    SmallReads([8 * num + kind] + rest, 0);
  }

  /**
   A length that promises more than is there drops the field, unless the end computed from it
   passes the largest Go int: then the slice panics.
   */
  lemma LengthBeyondData(num: nat, n: uint64, rest: bytes)
    requires num <= 15 && |rest| < TWO_63 - 11 && n > |rest|
    ensures var data := [8 * num + 2] + Encode(n) + rest;
      && |data| < TWO_63
      && Parse(data) == if 1 + |Encode(n)| + n < 0x8000_0000_0000_0000 then Fields(map[]) else Panic
  {
    hide ReadAt, Encode;
    TenGroups(n);
    var data := [8 * num + 2] + Encode(n) + rest;
    assert At(data, 1, Encode(n)) by { assert data[1..1 + |Encode(n)|] == Encode(n); }
    SmallReads(data, 0);
    ReadEncoded(data, 1, n);
  }
}
