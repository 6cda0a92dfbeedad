/**
 Framing of the mmtls layer (internal/protocol/mmtls_protocol.go): records, handshake
 messages, Finished, session tickets and shortlink packets.
 */
module Records {
  import opened Wire
  import opened Wrappers

  const RECORD_VERSION: uint16 := 0xf103
  const CT_ALERT: byte := 0x15
  const CT_HANDSHAKE: byte := 0x16
  const CT_APP_DATA: byte := 0x17
  const CT_PSK_HANDSHAKE: byte := 0x19
  const HS_CLIENT_HELLO: byte := 0x01
  const HS_SERVER_HELLO: byte := 0x02
  const HS_NEW_SESSION_TICKET: byte := 0x04
  const HS_CERT_VERIFY: byte := 0x0f
  const HS_FINISHED: byte := 0x14

  // ---- records ----

  datatype Record = Record(contentType: byte, payload: bytes)

  predicate KnownContentType(ct: byte) {
    ct == CT_ALERT || ct == CT_HANDSHAKE || ct == CT_APP_DATA || ct == CT_PSK_HANDSHAKE || ct == 0x14
  }

  predicate ValidRecord(r: Record) {
    KnownContentType(r.contentType) && |r.payload| <= 0xffff
  }

  function EncodeRecord(r: Record): bytes
    requires |r.payload| <= 0xffff
  {
    [r.contentType] + Be16(RECORD_VERSION) + Be16(|r.payload|) + r.payload
  }

  ghost predicate AllValid(rs: seq<Record>) {
    forall i :: 0 <= i < |rs| ==> ValidRecord(rs[i])
  }

  ghost function EncodeRecords(rs: seq<Record>): bytes
    requires AllValid(rs)
  {
    if rs == [] then [] else EncodeRecord(rs[0]) + EncodeRecords(rs[1..])
  }

  method BuildRecord(contentType: byte, payload: bytes) returns (r: Result<bytes>)
    ensures r == if |payload| > 0xffff then Err else Ok(EncodeRecord(Record(contentType, payload)))
  {
    if |payload| > 0xffff {
      return Err;
    }
    var out := new byte[5 + |payload|];
    out[0] := contentType;
    PutUint16(out, 1, RECORD_VERSION);
    ghost var head := out[..3];
    assert head == [contentType] + Be16(RECORD_VERSION);
    PutUint16(out, 3, |payload|);
    assert out[..5] == head + Be16(|payload|);
    CopyInto(out, 5, payload);
    assert out[..] == head + Be16(|payload|) + payload;
    return Ok(out[..]);
  }

  /** How many bytes the record at the front of `data` takes, if all of it is there. */
  function FrontRecord(data: bytes): (n: Option<nat>)
    ensures n.Some? ==> 5 <= n.value <= |data|
  {
    if |data| < 5 || FromBe16(data[1..3]) != RECORD_VERSION || !KnownContentType(data[0]) then None
    else
      var end := 5 + FromBe16(data[3..5]);
      if end > |data| then None else Some(end)
  }

  /** The complete records at the front of `data`. */
  function Parse(data: bytes): seq<Record> {
    match FrontRecord(data)
    case None => []
    case Some(n) => [Record(data[0], data[5..n])] + Parse(data[n..])
  }

  /** How many bytes those records take. */
  function Consumed(data: bytes): (n: nat)
    ensures n <= |data|
  {
    match FrontRecord(data)
    case None => 0
    case Some(n) => n + Consumed(data[n..])
  }

  /** The loop's view of the same: the record at `off`, and what parsing makes of it. */
  lemma RecordAtOffset(data: bytes, off: nat)
    requires off <= |data|
    ensures var rest, front := data[off..], FrontRecord(data[off..]);
      if off + 5 > |data| then Parse(rest) == [] && Consumed(rest) == 0
      else
        var ver, end := FromBe16(data[off + 1..off + 3]), off + 5 + FromBe16(data[off + 3..off + 5]);
        if ver != RECORD_VERSION || !KnownContentType(data[off]) || end > |data|
        then Parse(rest) == [] && Consumed(rest) == 0
        else Parse(rest) == [Record(data[off], data[off + 5..end])] + Parse(data[end..])
             && Consumed(rest) == end - off + Consumed(data[end..])
  {
    var rest := data[off..];
    hide FromBe16;
    if off + 5 <= |data| {
      assert rest[1..3] == data[off + 1..off + 3] && rest[3..5] == data[off + 3..off + 5];
      var end := off + 5 + FromBe16(data[off + 3..off + 5]);
      if end <= |data| {
        assert rest[5..end - off] == data[off + 5..end] && rest[end - off..] == data[end..];
      }
    }
  }

  method ParseRecords(data: bytes) returns (recs: seq<Record>, off: nat)
    ensures recs == Parse(data) && off == Consumed(data)
  {
    recs := [];
    off := 0;
    assert data[0..] == data;
    hide Parse, Consumed, FrontRecord, FromBe16;
    while off + 5 <= |data|
      invariant off <= |data|
      invariant recs + Parse(data[off..]) == Parse(data)
      invariant off + Consumed(data[off..]) == Consumed(data)
    {
      RecordAtOffset(data, off);
      var ct := data[off];
      var ver := FromBe16(data[off + 1..off + 3]);
      var ln := FromBe16(data[off + 3..off + 5]);
      if ver != RECORD_VERSION || !KnownContentType(ct) {
        break;
      }
      var end := off + 5 + ln;
      if end > |data| {
        break;
      }
      ConcatAssociative(recs, [Record(ct, data[off + 5..end])], Parse(data[end..]));
      recs := recs + [Record(ct, data[off + 5..end])];
      off := end;
    }
    RecordAtOffset(data, off);
  }

  /** Bytes arriving later neither change nor hide the record at the front. */
  lemma FrontIsStable(a: bytes, b: bytes)
    requires FrontRecord(a).Some?
    ensures FrontRecord(a + b) == FrontRecord(a)
    ensures var n := FrontRecord(a).value;
      (a + b)[0] == a[0] && (a + b)[5..n] == a[5..n] && (a + b)[n..] == a[n..] + b
  {
    var n := FrontRecord(a).value;
    assert (a + b)[1..3] == a[1..3] && (a + b)[3..5] == a[3..5];
    assert (a + b)[5..n] == a[5..n] && (a + b)[n..] == a[n..] + b;
  }

  /** Parsing a part of a stream, then the rest behind what was consumed, loses nothing. */
  lemma {:induction false} ParseSplit(a: bytes, b: bytes)
    ensures Parse(a + b) == Parse(a) + Parse(a[Consumed(a)..] + b)
    decreases |a|
  {
    match FrontRecord(a)
    case None =>
      assert a[0..] == a;
    case Some(n) =>
      FrontIsStable(a, b);
      hide FrontRecord;
      ParseSplit(a[n..], b);
      var rest := a[n..][Consumed(a[n..])..];
      assert rest == a[Consumed(a)..];
      ConcatAssociative([Record(a[0], a[5..n])], Parse(a[n..]), Parse(rest + b));
  }

  lemma FrontEncoded(r: Record, rest: bytes)
    requires ValidRecord(r)
    ensures Parse(EncodeRecord(r) + rest) == [r] + Parse(rest)
  {
    var data := EncodeRecord(r) + rest;
    assert data[1..3] == Be16(RECORD_VERSION) && data[3..5] == Be16(|r.payload|);
    Be16RoundTrip(RECORD_VERSION);
    Be16RoundTrip(|r.payload|);
    assert data[5..|EncodeRecord(r)|] == r.payload && data[|EncodeRecord(r)|..] == rest;
    hide Be16, FromBe16, EncodeRecord;
  }

  /** Records written one after another are read back in order, whatever follows them. */
  lemma {:induction false} ParseEncoded(rs: seq<Record>, rest: bytes)
    requires AllValid(rs)
    ensures Parse(EncodeRecords(rs) + rest) == rs + Parse(rest)
  {
    if rs == [] {
      assert EncodeRecords(rs) + rest == rest;
    } else {
      hide EncodeRecord, Parse;
      ConcatAssociative(EncodeRecord(rs[0]), EncodeRecords(rs[1..]), rest);
      FrontEncoded(rs[0], EncodeRecords(rs[1..]) + rest);
      ParseEncoded(rs[1..], rest);
      HeadAndTail(rs);
      ConcatAssociative([rs[0]], rs[1..], Parse(rest));
    }
  }

  /** Conversely, every parsed record is valid and re-encodes to the bytes it was read from. */
  lemma {:induction false} ParseIsExact(data: bytes)
    ensures AllValid(Parse(data)) && EncodeRecords(Parse(data)) == data[..Consumed(data)]
    decreases |data|
  {
    match FrontRecord(data)
    case None =>
    case Some(n) =>
      FrontWritten(data);
      ParseIsExact(data[n..]);
      hide EncodeRecord;
      assert Parse(data)[1..] == Parse(data[n..]);
      assert data[..Consumed(data)] == data[..n] + data[n..][..Consumed(data[n..])];
  }

  lemma FrontWritten(data: bytes)
    requires FrontRecord(data).Some?
    ensures var n := FrontRecord(data).value;
      ValidRecord(Record(data[0], data[5..n])) && EncodeRecord(Record(data[0], data[5..n])) == data[..n]
  {
    var n := FrontRecord(data).value;
    Be16Written(data[1..3]);
    Be16Written(data[3..5]);
    assert data[..n] == [data[0]] + data[1..3] + data[3..5] + data[5..n];
  }

  lemma Be16Written(s: bytes)
    requires |s| == 2
    ensures Be16(FromBe16(s)) == s
  {
  }

  // ---- handshake messages ----

  /** `uint32(total)` drops the upper half of a longer length. */
  function BuildHandshakeBytes(msgType: byte, body: bytes): bytes {
    Be32((1 + |body|) % 0x1_0000_0000) + [msgType] + body
  }

  method BuildHandshake(msgType: byte, body: bytes) returns (r: bytes)
    ensures r == BuildHandshakeBytes(msgType, body)
  {
    hide Be32;
    var total := 1 + |body|;
    var out := new byte[4 + total];
    PutUint32(out, 0, total % 0x1_0000_0000);
    ghost var head := out[..4];
    out[4] := msgType;
    assert out[..5] == head + [msgType];
    CopyInto(out, 5, body);
    return out[..];
  }

  // ---- ClientHello ----

  const CIPHER_ECDHE: uint16 := 0xc02b
  const KEY_LEN := 65

  /** One offered key share behind its length. */
  function KeyShare(group: uint32, pub: bytes): bytes
    requires |pub| == KEY_LEN
  {
    Be32(4 + 2 + KEY_LEN) + Be32(group) + Be16(KEY_LEN) + pub
  }

  function ClientHelloBytes(random: bytes, timestamp: uint32, g1Pub: bytes, g2Pub: bytes): Result<bytes> {
    if |random| != 32 || |g1Pub| != KEY_LEN || |g2Pub| != KEY_LEN then Err
    else
      var ks := [0x00, 0x10, 2] + KeyShare(1, g1Pub) + KeyShare(2, g2Pub) + [0, 0, 0, 1];
      var ext := [0x01] + Be32(|ks|) + ks;
      Ok(BuildHandshakeBytes(HS_CLIENT_HELLO,
           [0x03, 0xf1, 1] + Be16(CIPHER_ECDHE) + random + Be32(timestamp) + Be32(|ext|) + ext))
  }

  datatype Handshake = Handshake(msgType: byte, body: bytes)

  function SplitHandshake(payload: bytes): Result<Handshake> {
    if |payload| < 5 then Err
    else
      var total := FromBe32(payload[..4]) as int;
      if total <= 0 || 4 + total > |payload| then Err
      else Ok(Handshake(payload[4], payload[5..4 + total]))
  }

  /** Splitting undoes building exactly when the length fits its four bytes. */
  lemma HandshakeRoundTrip(msgType: byte, body: bytes)
    ensures SplitHandshake(BuildHandshakeBytes(msgType, body)) == Ok(Handshake(msgType, body))
            <==> 1 + |body| < 0x1_0000_0000
  {
    var out, n := BuildHandshakeBytes(msgType, body), (1 + |body|) % 0x1_0000_0000;
    assert out[..4] == Be32(n);
    Be32RoundTrip(n);
    hide BuildHandshakeBytes, Be32, FromBe32;
    if 1 + |body| < 0x1_0000_0000 {
      assert out[5..4 + n] == body by { assert out == Be32(n) + [msgType] + body; }
    }
  }

  // ---- Finished ----

  function FinishedBody(verifyData: bytes): bytes
    requires |verifyData| <= 0xffff
  {
    Be16(|verifyData|) + verifyData
  }

  function BuildFinished(verifyData: bytes): Result<bytes> {
    if |verifyData| != 32 then Err
    else Ok(BuildHandshakeBytes(HS_FINISHED, FinishedBody(verifyData)))
  }

  function ParseFinished(body: bytes): Result<bytes> {
    if |body| < 2 then Err
    else
      var n := FromBe16(body[..2]);
      if 2 + n > |body| then Err else Ok(body[2..2 + n])
  }

  /** The other side finds a Finished message holding exactly the verify data. */
  lemma FinishedRoundTrip(verifyData: bytes)
    requires |verifyData| == 32
    ensures BuildFinished(verifyData).Ok?
    ensures var h := SplitHandshake(BuildFinished(verifyData).value);
      && h == Ok(Handshake(HS_FINISHED, FinishedBody(verifyData)))
      && ParseFinished(h.value.body) == Ok(verifyData)
  {
    var body := FinishedBody(verifyData);
    HandshakeRoundTrip(HS_FINISHED, body);
    assert body[..2] == Be16(32) && body[2..34] == verifyData;
    Be16RoundTrip(32);
    hide Be16, FromBe16;
  }

  // ---- session tickets ----

  datatype PskTicket = PskTicket(pskType: byte, lifetime: uint32, ticketEntry: bytes)

  /** The ticket at `o`: a length, then an entry of at least five bytes. */
  function TicketAt(body: bytes, o: nat): (r: Option<PskTicket>)
    ensures r.Some? ==> o + 4 + |r.value.ticketEntry| <= |body|
  {
    if o + 4 > |body| then None
    else
      var elen := FromBe32(body[o..o + 4]);
      if o + 4 + elen > |body| || elen < 5 then None
      else
        var entry := body[o + 4..o + 4 + elen];
        Some(PskTicket(entry[0], FromBe32(entry[1..5]), entry))
  }

  /** The tickets from `o` on, at most `count` of them. */
  function TicketsFrom(body: bytes, o: nat, count: nat): seq<PskTicket>
    decreases count
  {
    if count == 0 then []
    else match TicketAt(body, o)
         case None => []
         case Some(t) => [t] + TicketsFrom(body, o + 4 + |t.ticketEntry|, count - 1)
  }

  function Tickets(body: bytes): seq<PskTicket> {
    if body == [] then [] else TicketsFrom(body, 1, body[0])
  }

  /** The loop's view of the ticket at `o`, and what it makes of the rest. */
  lemma TicketTurn(body: bytes, o: nat, count: nat)
    requires o <= |body|
    ensures var rest := TicketsFrom(body, o, count);
      if count == 0 || o + 4 > |body| then rest == []
      else
        var elen: nat := FromBe32(body[o..o + 4]);
        if o + 4 + elen > |body| || elen < 5 then rest == []
        else
          var entry := body[o + 4..o + 4 + elen];
          rest == [PskTicket(entry[0], FromBe32(entry[1..5]), entry)] + TicketsFrom(body, o + 4 + elen, count - 1)
  {
    hide FromBe32;
  }

  method ParseNewSessionTicket(body: bytes) returns (out: seq<PskTicket>)
    ensures out == Tickets(body)
  {
    hide FromBe32, TicketsFrom;
    out := [];
    if |body| == 0 {
      return;
    }
    var count: nat := body[0];
    var o: nat, i: nat := 1, 0;
    while i < count && o + 4 <= |body|
      invariant i <= count && o <= |body|
      invariant out + TicketsFrom(body, o, count - i) == Tickets(body)
    {
      TicketTurn(body, o, count - i);
      var elen := FromBe32(body[o..o + 4]);
      o := o + 4;
      if o + elen > |body| || elen < 5 {
        return;
      }
      var entry := body[o..o + elen];
      o := o + elen;
      var ticket := PskTicket(entry[0], FromBe32(entry[1..5]), entry);
      ConcatAssociative(out, [ticket], TicketsFrom(body, o, count - i - 1));
      out := out + [ticket];
      i := i + 1;
    }
    TicketTurn(body, o, count - i);
  }

  /** A ticket entry starts with its type and lifetime. */
  ghost predicate ValidTicket(t: PskTicket) {
    && 5 <= |t.ticketEntry| < 0x1_0000_0000
    && t.ticketEntry[0] == t.pskType && t.ticketEntry[1..5] == Be32(t.lifetime)
  }

  ghost predicate AllTickets(ts: seq<PskTicket>) {
    forall i :: 0 <= i < |ts| ==> ValidTicket(ts[i])
  }

  ghost function EncodeTickets(ts: seq<PskTicket>): bytes
    requires AllTickets(ts)
  {
    if ts == [] then []
    else EncodeTicket(ts[0]) + EncodeTickets(ts[1..])
  }

  function EncodeTicket(t: PskTicket): bytes
    requires |t.ticketEntry| < 0x1_0000_0000
  {
    Be32(|t.ticketEntry|) + t.ticketEntry
  }

  lemma TicketReadBack(t: PskTicket, body: bytes, o: nat)
    requires ValidTicket(t) && At(body, o, EncodeTicket(t))
    ensures TicketAt(body, o) == Some(t)
  {
    var e := t.ticketEntry;
    AtConcat(body, o, Be32(|e|), e);
    Be32RoundTrip(|e|);
    Be32RoundTrip(t.lifetime);
    hide Be32, FromBe32;
  }

  lemma {:induction false} TicketsReadBack(ts: seq<PskTicket>, body: bytes, o: nat)
    requires AllTickets(ts) && At(body, o, EncodeTickets(ts))
    ensures TicketsFrom(body, o, |ts|) == ts
    decreases |ts|
  {
    hide EncodeTicket, TicketAt, At, Be32;
    if ts == [] {
    } else {
      AtConcat(body, o, EncodeTicket(ts[0]), EncodeTickets(ts[1..]));
      TicketReadBack(ts[0], body, o);
      TicketSize(ts[0]);
      hide EncodeTickets, ValidTicket;
      TicketsReadBack(ts[1..], body, o + 4 + |ts[0].ticketEntry|);
      HeadAndTail(ts);
    }
  }

  lemma TicketSize(t: PskTicket)
    requires |t.ticketEntry| < 0x1_0000_0000
    ensures |EncodeTicket(t)| == 4 + |t.ticketEntry|
  {
  }

  /** A ticket message listing `ts` yields exactly those tickets, in order. */
  lemma TicketsRoundTrip(ts: seq<PskTicket>, trailing: bytes)
    requires |ts| < 0x100 && AllTickets(ts)
    ensures Tickets([|ts|] + EncodeTickets(ts) + trailing) == ts
  {
    hide EncodeTickets, TicketsFrom;
    var body := [|ts|] + EncodeTickets(ts) + trailing;
    assert body[1..1 + |EncodeTickets(ts)|] == EncodeTickets(ts);
    TicketsReadBack(ts, body, 1);
  }

  // ---- shortlink packets ----

  const SHORTLINK_MAGIC: uint16 := 0x1110
  const DEFAULT_VER: uint16 := 0x076d

  function ShortlinkBytes(cmd: uint32, seqNo: uint32, body: bytes, ver: uint16): bytes {
    Be32((16 + |body|) % 0x1_0000_0000) + Be16(SHORTLINK_MAGIC)
    + Be16(if ver == 0 then DEFAULT_VER else ver) + Be32(cmd) + Be32(seqNo) + body
  }

  method BuildShortlink(cmd: uint32, seqNo: uint32, body: bytes, ver: uint16) returns (r: bytes)
    ensures r == ShortlinkBytes(cmd, seqNo, body, ver)
  {
    hide Be32, Be16;
    var v := if ver == 0 then DEFAULT_VER else ver;
    var total := 16 + |body|;
    var out := new byte[total];
    PutUint32(out, 0, total % 0x1_0000_0000);
    ghost var a := out[..4];
    PutUint16(out, 4, SHORTLINK_MAGIC);
    ghost var b := out[..6];
    PutUint16(out, 6, v);
    ghost var c := out[..8];
    PutUint32(out, 8, cmd);
    ghost var d := out[..12];
    PutUint32(out, 12, seqNo);
    ghost var e := out[..16];
    CopyInto(out, 16, body);
    r := out[..];
    assert r == e + body;
    assert a == Be32(total % 0x1_0000_0000) && b == a + Be16(SHORTLINK_MAGIC) && c == b + Be16(v);
  }

  datatype ShortlinkPacket = ShortlinkPacket(totalLen: uint32, magic: uint16, ver: uint16, cmd: uint32,
                                             seqNo: uint32, body: bytes)

  /** A declared total below 16 makes the body slice run backwards. */
  datatype ShortlinkResult = Packet(packet: ShortlinkPacket) | TooShort | CutOff | Panic

  function ParseShortlink(pkt: bytes): ShortlinkResult {
    if |pkt| < 16 then TooShort
    else
      var total := FromBe32(pkt[..4]);
      if total > |pkt| then CutOff
      else if total < 16 then Panic
      else Packet(ShortlinkPacket(total, FromBe16(pkt[4..6]), FromBe16(pkt[6..8]), FromBe32(pkt[8..12]),
                                  FromBe32(pkt[12..16]), pkt[16..total]))
  }

  /** A built packet is read back field by field, trailing bytes being ignored. */
  lemma ShortlinkRoundTrip(cmd: uint32, seqNo: uint32, body: bytes, ver: uint16, trailing: bytes)
    requires 16 + |body| < 0x1_0000_0000
    ensures ParseShortlink(ShortlinkBytes(cmd, seqNo, body, ver) + trailing) ==
            Packet(ShortlinkPacket(16 + |body|, SHORTLINK_MAGIC, if ver == 0 then DEFAULT_VER else ver,
                                   cmd, seqNo, body))
  {
    hide Be16, Be32, FromBe16, FromBe32;
    var n, v := 16 + |body|, if ver == 0 then DEFAULT_VER else ver;
    var all := ShortlinkBytes(cmd, seqNo, body, ver);
    var pkt := all + trailing;
    Be32RoundTrip(n); Be16RoundTrip(SHORTLINK_MAGIC); Be16RoundTrip(v);
    Be32RoundTrip(cmd); Be32RoundTrip(seqNo);
    var f1 := Be32(n);
    var f2 := f1 + Be16(SHORTLINK_MAGIC);
    var f3 := f2 + Be16(v);
    var f4 := f3 + Be32(cmd);
    var f5 := f4 + Be32(seqNo);
    assert all == f5 + body;
    assert pkt[0..0 + |all|] == all;
    AtConcat(pkt, 0, f5, body);
    AtConcat(pkt, 0, f4, Be32(seqNo));
    AtConcat(pkt, 0, f3, Be32(cmd));
    AtConcat(pkt, 0, f2, Be16(v));
    AtConcat(pkt, 0, f1, Be16(SHORTLINK_MAGIC));
    assert pkt[..4] == pkt[0..0 + |f1|];
  }

  // ---- in bytes ----

  /** A record is its type, the version f103, two bytes of length and that many bytes. */
  lemma RecordIs(ct: byte, payload: bytes, a: byte, b: byte)
    requires |payload| == a * 0x100 + b
    ensures EncodeRecord(Record(ct, payload)) == [ct, 0xf1, 0x03, a, b] + payload
  {
    BigEndian16(0xf1, 0x03);
    BigEndian16(a, b);
    hide Be16;
    assert [ct] + [0xf1, 0x03] + [a, b] == [ct, 0xf1, 0x03, a, b];
  }

  /** Five types are read: 0x14, alert, handshake, application data, PSK handshake. Any other stops the parse. */
  lemma RecordRead(ct: byte, payload: bytes, a: byte, b: byte, rest: bytes)
    requires |payload| == a * 0x100 + b
    ensures var data := [ct, 0xf1, 0x03, a, b] + payload + rest;
      if ct in {0x14, 0x15, 0x16, 0x17, 0x19} then Parse(data) == [Record(ct, payload)] + Parse(rest)
      else Parse(data) == [] && Consumed(data) == 0
  {
    RecordIs(ct, payload, a, b);
    hide EncodeRecord, Be16, FromBe16;
    if ct in {0x14, 0x15, 0x16, 0x17, 0x19} {
      FrontEncoded(Record(ct, payload), rest);
    }
  }

  /** Another version stops it too, and a record not all there waits for the rest. */
  lemma RecordNotRead(data: bytes)
    requires |data| < 5 || data[1] != 0xf1 || data[2] != 0x03 || |data| - 5 < data[3] as int * 0x100 + data[4] as int
    ensures Parse(data) == [] && Consumed(data) == 0
  {
    if |data| >= 5 {
      assert data[1..3] == [data[1], data[2]] && data[3..5] == [data[3], data[4]];
      BigEndian16(data[1], data[2]);
      BigEndian16(data[3], data[4]);
      BigEndian16(0xf1, 0x03);
    }
  }

  /** Four bytes of length, counting the type, the type, the body. */
  lemma HandshakeIs(msgType: byte, body: bytes, a: byte, b: byte, c: byte, d: byte)
    requires 1 + |body| == a * 0x100_0000 + b * 0x1_0000 + c * 0x100 + d
    ensures BuildHandshakeBytes(msgType, body) == [a, b, c, d, msgType] + body
  {
    BigEndian32(a, b, c, d);
    hide Be32;
    assert [a, b, c, d] + [msgType] == [a, b, c, d, msgType];
  }

  /** Of a longer payload the rest is ignored; a length of zero, or beyond the payload, is refused. */
  lemma SplitIs(msgType: byte, body: bytes, a: byte, b: byte, c: byte, d: byte)
    ensures var n := a * 0x100_0000 + b * 0x1_0000 + c * 0x100 + d;
      SplitHandshake([a, b, c, d, msgType] + body)
      == if 1 <= n <= 1 + |body| then Ok(Handshake(msgType, body[..n - 1])) else Err
  {
    var payload := [a, b, c, d, msgType] + body;
    assert payload[..4] == [a, b, c, d];
    BigEndian32(a, b, c, d);
    hide FromBe32;
    var n := a * 0x100_0000 + b * 0x1_0000 + c * 0x100 + d;
    if 1 <= n <= 1 + |body| {
      assert payload[5..4 + n] == body[..n - 1];
    }
  }

  lemma SplitShort(payload: bytes)
    requires |payload| < 5
    ensures SplitHandshake(payload) == Err
  {
  }

  /** Exactly 32 bytes make a Finished, of type 14, behind their own length. */
  lemma FinishedIs(v: bytes)
    ensures BuildFinished(v) == if |v| == 32 then Ok([0, 0, 0, 35, 0x14, 0, 32] + v) else Err
  {
    if |v| == 32 {
      BigEndian16(0, 32);
      hide Be16;
      var body := FinishedBody(v);
      assert body == [0, 32] + v;
      HandshakeIs(0x14, body, 0, 0, 0, 35);
      assert [0, 0, 0, 35, 0x14] + ([0, 32] + v) == [0, 0, 0, 35, 0x14, 0, 32] + v;
    }
  }

  lemma FinishedRead(a: byte, b: byte, rest: bytes)
    ensures ParseFinished([a, b] + rest)
            == if a * 0x100 + b <= |rest| then Ok(rest[..a * 0x100 + b]) else Err
    ensures ParseFinished([]) == ParseFinished([a]) == Err
  {
    var body, n := [a, b] + rest, a * 0x100 + b;
    assert body[..2] == [a, b];
    BigEndian16(a, b);
    hide FromBe16;
    if n <= |rest| {
      assert body[2..2 + n] == rest[..n];
    }
  }

  /** The whole hello: the first key stands under group 1, the second under group 2. */
  lemma ClientHelloIs(random: bytes, timestamp: uint32, g1: bytes, g2: bytes)
    ensures ClientHelloBytes(random, timestamp, g1, g2)
            == if |random| != 32 || |g1| != 65 || |g2| != 65 then Err
               else Ok([0, 0, 0, 208, 1, 0x03, 0xf1, 1, 0xc0, 0x2b] + random + Be32(timestamp)
                       + [0, 0, 0, 162, 1, 0, 0, 0, 157, 0, 0x10, 2]
                       + [0, 0, 0, 71, 0, 0, 0, 1, 0, 65] + g1
                       + [0, 0, 0, 71, 0, 0, 0, 2, 0, 65] + g2
                       + [0, 0, 0, 1])
  {
    if |random| == 32 && |g1| == 65 && |g2| == 65 {
      KeyShareIs(1, g1);
      KeyShareIs(2, g2);
      BigEndian16(0xc0, 0x2b);
      BigEndian32(0, 0, 0, 157);
      BigEndian32(0, 0, 0, 162);
      var ks := [0x00, 0x10, 2] + KeyShare(1, g1) + KeyShare(2, g2) + [0, 0, 0, 1];
      var ext := [0x01] + Be32(|ks|) + ks;
      hide KeyShare, BuildHandshakeBytes;
      assert |ks| == 157 && |ext| == 162;
      var body := [0x03, 0xf1, 1] + [0xc0, 0x2b] + random + Be32(timestamp) + [0, 0, 0, 162] + ext;
      HandshakeIs(1, body, 0, 0, 0, 208);
      hide Be32, Be16;
      assert ClientHelloBytes(random, timestamp, g1, g2) == Ok([0, 0, 0, 208, 1] + body);
      hide ClientHelloBytes;
      var front := [0x03, 0xf1, 1] + [0xc0, 0x2b] + random + Be32(timestamp) + [0, 0, 0, 162];
      assert [0, 0, 0, 208, 1] + front
             == [0, 0, 0, 208, 1, 0x03, 0xf1, 1, 0xc0, 0x2b] + random + Be32(timestamp) + [0, 0, 0, 162];
      ConcatAssociative([0, 0, 0, 208, 1], front, ext);
      assert [0, 0, 0, 162] + ext
             == [0, 0, 0, 162, 1, 0, 0, 0, 157, 0, 0x10, 2] + KeyShare(1, g1) + KeyShare(2, g2) + [0, 0, 0, 1];
      AssembleHello([0, 0, 0, 208, 1, 0x03, 0xf1, 1, 0xc0, 0x2b] + random + Be32(timestamp), [0, 0, 0, 162], ext,
                    [0, 0, 0, 162, 1, 0, 0, 0, 157, 0, 0x10, 2], g1, g2);
    }
  }

  lemma AssembleHello(front: bytes, size: bytes, ext: bytes, top: bytes, g1: bytes, g2: bytes)
    requires |g1| == |g2| == 65 && size + ext == top + KeyShare(1, g1) + KeyShare(2, g2) + [0, 0, 0, 1]
    ensures front + size + ext
            == front + top + [0, 0, 0, 71, 0, 0, 0, 1, 0, 65] + g1
               + [0, 0, 0, 71, 0, 0, 0, 2, 0, 65] + g2 + [0, 0, 0, 1]
  {
    KeyShareIs(1, g1);
    KeyShareIs(2, g2);
    hide KeyShare;
    ConcatAssociative(front, size, ext);
    var a, b := [0, 0, 0, 71, 0, 0, 0, 1, 0, 65], [0, 0, 0, 71, 0, 0, 0, 2, 0, 65];
    assert front + (top + (a + g1) + (b + g2) + [0, 0, 0, 1]) == front + top + a + g1 + b + g2 + [0, 0, 0, 1];
  }

  lemma KeyShareIs(group: byte, pub: bytes)
    requires |pub| == 65
    ensures KeyShare(group, pub) == [0, 0, 0, 71, 0, 0, 0, group, 0, 65] + pub
  {
    BigEndian32(0, 0, 0, 71);
    BigEndian32(0, 0, 0, group);
    BigEndian16(0, 65);
    hide Be32, Be16;
    assert [0, 0, 0, 71] + [0, 0, 0, group] + [0, 65] == [0, 0, 0, 71, 0, 0, 0, group, 0, 65];
  }

  /** A listed entry: its type first, then four bytes of lifetime. */
  lemma TicketIs(n: byte, size: byte, pskType: byte, a: byte, b: byte, c: byte, d: byte, more: bytes, rest: bytes)
    requires 5 + |more| == size && n > 0
    ensures var entry := [pskType, a, b, c, d] + more;
      var body := [n, 0, 0, 0, size] + entry + rest;
      Tickets(body) == [PskTicket(pskType, a * 0x100_0000 + b * 0x1_0000 + c * 0x100 + d, entry)]
                       + TicketsFrom(body, 5 + |entry|, n - 1)
  {
    hide FromBe32, TicketsFrom;
    var entry := [pskType, a, b, c, d] + more;
    EntryAt(n, size, entry, rest);
    EntryIs(pskType, a, b, c, d, more);
    TicketListed(n, entry, [n, 0, 0, 0, size] + entry + rest);
  }

  lemma TicketListed(n: byte, entry: bytes, body: bytes)
    requires n > 0 && 5 <= |entry| && 5 + |entry| <= |body|
    requires body[0] == n && FromBe32(body[1..5]) == |entry| && body[5..5 + |entry|] == entry
    ensures Tickets(body) == [PskTicket(entry[0], FromBe32(entry[1..5]), entry)] + TicketsFrom(body, 5 + |entry|, n - 1)
  {
    hide FromBe32, TicketsFrom;
    TicketTurn(body, 1, n);
  }

  lemma EntryIs(pskType: byte, a: byte, b: byte, c: byte, d: byte, more: bytes)
    ensures var entry := [pskType, a, b, c, d] + more;
      entry[0] == pskType && FromBe32(entry[1..5]) == a * 0x100_0000 + b * 0x1_0000 + c * 0x100 + d
  {
    assert ([pskType, a, b, c, d] + more)[1..5] == [a, b, c, d];
    BigEndian32(a, b, c, d);
  }

  lemma EntryAt(n: byte, size: byte, entry: bytes, rest: bytes)
    requires |entry| == size
    ensures var body := [n, 0, 0, 0, size] + entry + rest;
      body[0] == n && FromBe32(body[1..5]) == size && body[5..5 + |entry|] == entry
  {
    var body := [n, 0, 0, 0, size] + entry + rest;
    assert body[1..5] == [0, 0, 0, size];
    BigEndian32(0, 0, 0, size);
    hide FromBe32;
  }

  /** An entry shorter than five bytes ends the list, whatever follows. */
  lemma ShortTicketEnds(n: byte, size: byte, rest: bytes)
    requires size < 5
    ensures Tickets([n, 0, 0, 0, size] + rest) == []
  {
    var body := [n, 0, 0, 0, size] + rest;
    assert body[1..5] == [0, 0, 0, size];
    BigEndian32(0, 0, 0, size);
    hide FromBe32, TicketsFrom;
    TicketTurn(body, 1, n);
  }

  /** Length, magic 1110, version (076d for 0), command, sequence number, body. */
  lemma ShortlinkIs(cmd: uint32, seqNo: uint32, body: bytes, v: byte, w: byte, a: byte, b: byte, c: byte, d: byte)
    requires 16 + |body| == a * 0x100_0000 + b * 0x1_0000 + c * 0x100 + d
    ensures ShortlinkBytes(cmd, seqNo, body, v * 0x100 + w)
            == [a, b, c, d] + [0x11, 0x10] + (if v == w == 0 then [0x07, 0x6d] else [v, w]) + Be32(cmd) + Be32(seqNo)
               + body
  {
    BigEndian32(a, b, c, d);
    BigEndian16(0x11, 0x10);
    BigEndian16(v, w);
    BigEndian16(0x07, 0x6d);
    hide Be32, Be16;
  }

  /** Which packets are refused, and how: a length below 16 bytes panics. */
  lemma ShortlinkRefused(pkt: bytes)
    ensures |pkt| < 16 ==> ParseShortlink(pkt) == TooShort
    ensures |pkt| >= 16 ==>
      var n := pkt[0] as int * 0x100_0000 + pkt[1] as int * 0x1_0000 + pkt[2] as int * 0x100 + pkt[3] as int;
      && (ParseShortlink(pkt) == CutOff <==> |pkt| < n)
      && (ParseShortlink(pkt) == ShortlinkResult.Panic <==> n < 16)
      && (ParseShortlink(pkt).Packet? ==> ParseShortlink(pkt).packet.body == pkt[16..n])
  {
    if |pkt| >= 16 {
      assert pkt[..4] == [pkt[0], pkt[1], pkt[2], pkt[3]];
      BigEndian32(pkt[0], pkt[1], pkt[2], pkt[3]);
      hide FromBe32, FromBe16;
    }
  }
}
