/**
 The mmtls client connection (internal/protocol/mmtls_client.go): records reassembled from
 an arbitrary byte stream, sequence numbers, and the handshake with its transcript.
 */
module MmtlsClient {
  import opened Wire
  import opened Wrappers
  import opened Records
  import opened RecordCrypto
  import opened Flights

  /** What one `Read` call finds: some bytes, or an error (with or without bytes). */
  datatype ReadEvent = ReadEvent(data: bytes, failed: bool)

  /** The bytes still to come before the first error or empty read. */
  ghost function Future(events: seq<ReadEvent>): bytes {
    if events == [] || events[0].failed || events[0].data == [] then []
    else events[0].data + Future(events[1..])
  }

  /** A connection: `incoming` is what the network will deliver, `wire` what it was given. */
  class Conn {
    var incoming: seq<ReadEvent>
    var wire: bytes

    constructor (incoming: seq<ReadEvent>)
      ensures this.incoming == incoming && wire == []
    {
      this.incoming := incoming;
      wire := [];
    }

    /** Reads at most `limit` bytes; the rest of a longer delivery stays queued. */
    method Read(limit: nat) returns (data: bytes, failed: bool)
      requires limit > 0
      modifies this`incoming
      ensures failed || data == [] ==> old(Future(incoming)) == []
      ensures !failed && data != [] ==> |data| <= limit
      ensures !failed && data != [] ==> old(Future(incoming)) == data + Future(incoming)
    {
      if incoming == [] {
        return [], true;
      }
      var event := incoming[0];
      if event.failed || |event.data| <= limit {
        data, failed := event.data, event.failed;
        incoming := incoming[1..];
      } else {
        data, failed := event.data[..limit], false;
        ghost var later := Future(incoming[1..]);
        var left := ReadEvent(event.data[limit..], false);
        incoming := [left] + incoming[1..];
        assert incoming[1..] == old(incoming)[1..];
        assert event.data + later == data + (left.data + later);
      }
    }

    /** A write either hands over everything or fails after some prefix. */
    method Write(data: bytes) returns (ok: bool)
      modifies this`wire
      ensures ok ==> wire == old(wire) + data
      ensures !ok ==> old(wire) <= wire <= old(wire) + data
    {
      var n :| 0 <= n <= |data|;
      ok := n == |data|;
      wire := wire + data[..n];
    }
  }

  /** The fresh randomness of one handshake: two key pairs, of which the first is used. */
  datatype Ephemeral = Ephemeral(priv: bytes, g1Pub: bytes, g2Pub: bytes, random: bytes, timestamp: uint32)
  {
    function Hello(): Result<bytes> {
      ClientHelloBytes(random, timestamp, g1Pub, g2Pub)
    }
  }

  /** The two records a client writes during a handshake numbered from `txSeq`. */
  ghost predicate HandshakeWritten(p: Primitives, hello: bytes, f: Flight, txSeq: uint64, written: bytes) {
    var message := BuildFinished(FinishedVerifyData(p, f.secret, true, f.hFinal));
    && f.keys.Valid() && message.Ok? && |hello| <= 0xffff
    && var ct := EncryptRecordPayload(p, f.keys.clientKey, f.keys.clientIv, Next(txSeq), CT_HANDSHAKE, message.value);
       && ct.Ok? && |ct.value| <= 0xffff
       && written == EncodeRecord(Record(CT_HANDSHAKE, hello)) + EncodeRecord(Record(CT_HANDSHAKE, ct.value))
  }

  function Next(seqNo: uint64): uint64 {
    (seqNo + 1) % TWO_64
  }

  /** A counter after `n` records. */
  function Advanced(seqNo: uint64, n: nat): uint64 {
    (seqNo + n) % TWO_64
  }

  lemma CountOn(seqNo: uint64, n: nat)
    ensures Advanced(Next(seqNo), n) == Advanced(seqNo, n + 1)
  {
  }

  lemma DropTwice<T>(s: seq<T>, n: nat)
    requires 1 + n <= |s|
    ensures s[1..][n..] == s[n + 1..]
  {
  }

  class Client {
    const prim: Primitives
    const conn: Conn

    var clientHello: bytes
    var serverPub: bytes
    var secret: Option<bytes>
    var master: bytes
    var transcript: bytes
    var hCertV: Option<bytes>
    var hFinal: Option<bytes>
    var nstEntries: seq<PskTicket>
    var handshakeKeys: TrafficKeys
    var appKeys: TrafficKeys
    var txSeq: uint64
    var rxSeq: uint64
    var appSeq: uint32
    var rxbuf: bytes
    var recq: seq<Record>

    constructor (prim: Primitives, conn: Conn)
      ensures this.prim == prim && this.conn == conn
      ensures transcript == [] && hCertV == None && hFinal == None && nstEntries == []
      ensures txSeq == 0 && rxSeq == 0 && rxbuf == [] && recq == []
    {
      this.prim, this.conn := prim, conn;
      clientHello, serverPub, secret, master := [], [], None, [];
      transcript, hCertV, hFinal, nstEntries := [], None, None, [];
      var none := TrafficKeys([], [], [], []);
      handshakeKeys, appKeys := none, none;
      txSeq, rxSeq, appSeq := 0, 0, 0;
      rxbuf, recq := [], [];
    }

    /** Every record this client can still deliver, however the bytes are cut up. */
    ghost function StreamRecords(): seq<Record>
      reads this`rxbuf, this`recq, conn`incoming
    {
      recq + Parse(rxbuf + Future(conn.incoming))
    }

    method NextRecord() returns (r: Result<Record>)
      modifies this`rxbuf, this`recq, conn`incoming
      ensures r.Ok? ==> old(StreamRecords()) == [r.value] + StreamRecords()
      ensures r.Err? ==> old(StreamRecords()) == []
    {
      hide Parse, Consumed, Future;
      while |recq| == 0
        invariant StreamRecords() == old(StreamRecords())
        decreases |Future(conn.incoming)|, |recq| == 0
      {
        ghost var future := Future(conn.incoming);
        var recs, consumed := ParseRecords(rxbuf);
        if |recs| > 0 {
          ParseSplit(rxbuf, future);
          recq := recq + recs;
          rxbuf := rxbuf[consumed..];
          break;
        }
        var buf, failed := conn.Read(65536);
        if failed {
          assert rxbuf + [] == rxbuf;
          return Err;
        }
        if |buf| == 0 {
          assert rxbuf + [] == rxbuf;
          return Err;
        }
        assert rxbuf + (buf + Future(conn.incoming)) == (rxbuf + buf) + Future(conn.incoming);
        rxbuf := rxbuf + buf;
      }
      r := Ok(recq[0]);
      recq := recq[1..];
    }

    /** Reads until the connection gives no more: exactly the records of the whole stream. */
    method DrainRecords() returns (delivered: seq<Record>)
      modifies this`rxbuf, this`recq, conn`incoming
      ensures delivered == old(StreamRecords())
    {
      delivered := [];
      while true
        invariant delivered + StreamRecords() == old(StreamRecords())
        decreases |StreamRecords()|
      {
        var r := NextRecord();
        if r.Err? {
          return;
        }
        delivered := delivered + [r.value];
      }
    }

    /** Writes one record; only a complete write advances the sequence number. */
    method SendPlain(contentType: byte, payload: bytes) returns (ok: bool)
      modifies this`txSeq, conn`wire
      ensures ok ==> |payload| <= 0xffff && txSeq == Next(old(txSeq))
                     && conn.wire == old(conn.wire) + EncodeRecord(Record(contentType, payload))
      ensures !ok ==> txSeq == old(txSeq) && old(conn.wire) <= conn.wire
    {
      var rec := BuildRecord(contentType, payload);
      if rec.Err? {
        return false;
      }
      ok := conn.Write(rec.value);
      if !ok {
        return;
      }
      txSeq := Next(txSeq);
    }

    method SendEncrypted(contentType: byte, plaintext: bytes, key: bytes, iv: bytes) returns (ok: bool)
      requires |iv| == 12
      modifies this`txSeq, conn`wire
      ensures ok ==>
        var ct := EncryptRecordPayload(prim, key, iv, old(txSeq), contentType, plaintext);
        && ct.Ok? && |ct.value| <= 0xffff && txSeq == Next(old(txSeq))
        && conn.wire == old(conn.wire) + EncodeRecord(Record(contentType, ct.value))
      ensures !ok ==> txSeq == old(txSeq) && old(conn.wire) <= conn.wire
    {
      var ct := EncryptRecordPayload(prim, key, iv, txSeq, contentType, plaintext);
      if ct.Err? {
        return false;
      }
      ok := SendPlain(contentType, ct.value);
    }

    /** Takes the next record of the stream and counts it. */
    method RecvPlain() returns (r: Result<Record>)
      modifies this`rxbuf, this`recq, this`rxSeq, conn`incoming
      ensures r.Ok? <==> old(StreamRecords()) != []
      ensures r.Ok? ==> old(StreamRecords()) == [r.value] + StreamRecords() && rxSeq == Next(old(rxSeq))
      ensures r.Err? ==> rxSeq == old(rxSeq)
    {
      r := NextRecord();
      if r.Ok? {
        rxSeq := Next(rxSeq);
      }
    }

    /** Takes the next record; it counts only if it opens under the expected number. */
    method RecvDecrypt(key: bytes, iv: bytes) returns (r: Result<Record>)
      requires |iv| == 12
      modifies this`rxbuf, this`recq, this`rxSeq, conn`incoming
      ensures var recs := old(StreamRecords());
        && (recs == [] ==> r.Err? && rxSeq == old(rxSeq))
        && (recs != [] ==>
              var pt := DecryptRecordPayload(prim, key, iv, old(rxSeq), recs[0].contentType, recs[0].payload);
              && StreamRecords() == recs[1..]
              && (pt.Ok? ==> r == Ok(Record(recs[0].contentType, pt.value)) && rxSeq == Next(old(rxSeq)))
              && (pt.Err? ==> r.Err? && rxSeq == old(rxSeq)))
    {
      var rec := NextRecord();
      if rec.Err? {
        return Err;
      }
      var pt := DecryptRecordPayload(prim, key, iv, rxSeq, rec.value.contentType, rec.value.payload);
      if pt.Err? {
        return Err;
      }
      rxSeq := Next(rxSeq);
      r := Ok(Record(rec.value.contentType, pt.value));
    }

    method Feed(payload: bytes)
      modifies this`transcript
      ensures transcript == old(transcript) + payload
    {
      transcript := transcript + payload;
    }

    /** The part of the state a server flight runs through. */
    ghost function Now(): Progress
      reads this`transcript, this`hCertV, this`nstEntries, this`rxSeq
    {
      Progress(transcript, hCertV, nstEntries, rxSeq)
    }

    /** The fields as an accepted flight leaves them. */
    ghost predicate Holds(f: Flight)
      requires Lawful(prim)
      reads this`serverPub, this`secret, this`handshakeKeys, this`transcript, this`hCertV, this`nstEntries
      reads this`hFinal, this`master, this`appKeys
    {
      && serverPub == f.serverPub && secret == Some(f.secret) && handshakeKeys == f.keys
      && transcript == f.transcript && hCertV == f.hCertV && nstEntries == f.tickets
      && hFinal == Some(f.hFinal) && master == Master(prim, f.secret, f.hFinal)
      && appKeys == AppKeys(prim, master, f.hFinal)
    }

    /** Succeeds on exactly the flights the protocol describes, whatever their length. */
    method RecvServerFlight(priv: bytes) returns (ok: bool)
      requires Lawful(prim)
      modifies this`serverPub, this`secret, this`handshakeKeys
      modifies this`transcript, this`hCertV, this`nstEntries, this`hFinal, this`master, this`appKeys
      modifies this`rxbuf, this`recq, this`rxSeq, conn`incoming
      ensures var flight := ServerFlight(prim, priv, old(Now()), old(StreamRecords()));
        && (ok <==> flight.Some?)
        && (ok ==> Holds(flight.value) && flight.value.used <= |old(StreamRecords())|
                   && StreamRecords() == old(StreamRecords())[flight.value.used..]
                   && rxSeq == Advanced(old(rxSeq), flight.value.used))
    {
      hide StreamRecords, Encrypted, AcceptHello, Master, AppKeys, Advanced;
      ghost var st, recs := Now(), StreamRecords();
      var hello := RecvPlain();
      if hello.Err? {
        return false;
      }
      assert recs[0] == hello.value && recs[1..] == StreamRecords();
      ok := TakeHello(priv, hello.value.payload);
      if !ok {
        return;
      }
      assert Now() == HelloFed(st, recs[0].payload);
      hide HelloFed;
      ghost var count := Encrypted(prim, handshakeKeys, secret.value, Now(), StreamRecords());
      ok := RecvEncryptedFlight(secret.value, handshakeKeys);
      if ok {
        CountOn(st.rxSeq, count.value.2);
        DropTwice(recs, count.value.2);
      }
    }

    /** Checks and feeds the ServerHello, and derives the handshake keys from it. */
    method TakeHello(priv: bytes, payload: bytes) returns (ok: bool)
      requires Lawful(prim)
      modifies this`transcript, this`serverPub, this`secret, this`handshakeKeys
      ensures var a := AcceptHello(prim, priv, old(transcript), payload);
        && (ok <==> a.Some?)
        && (ok ==> transcript == old(transcript) + payload && serverPub == a.value.serverPub
                   && secret == Some(a.value.secret) && handshakeKeys == a.value.keys)
    {
      hide SplitHandshake, ParseServerHello, Agree, HandshakeKeys;
      var h := SplitHandshake(payload);
      if h.Err? || h.value.msgType != HS_SERVER_HELLO {
        return false;
      }
      Feed(payload);
      var sh := ParseServerHello(h.value.body);
      if sh.Err? || sh.value.serverGroup != GROUP_SECP256R1 {
        return false;
      }
      serverPub := sh.value.serverPubKey;
      secret := Agree(prim, priv, serverPub);
      if secret.None? {
        return false;
      }
      handshakeKeys := HandshakeKeys(prim, secret.value, prim.sha256(transcript));
      return true;
    }

    /** Feeds any other message, and notes a CertVerify or a ticket. */
    method TakeMessage(pt: bytes, ghost st: Progress)
      requires SplitHandshake(pt).Ok?
      requires st.transcript == transcript && st.hCertV == hCertV && st.tickets == nstEntries
      modifies this`transcript, this`hCertV, this`nstEntries
      ensures var n := Note(prim, st, pt);
        transcript == n.transcript && hCertV == n.hCertV && nstEntries == n.tickets
    {
      hide SplitHandshake, Tickets;
      var h := SplitHandshake(pt).value;
      Feed(pt);
      if h.msgType == HS_CERT_VERIFY {
        hCertV := Some(prim.sha256(transcript));
      } else if h.msgType == HS_NEW_SESSION_TICKET {
        nstEntries := ParseNewSessionTicket(h.body);
      }
    }

    /** Derives the application keys and verifies the server's Finished, which is fed only if valid. */
    method TakeFinished(sec: bytes, pt: bytes, ghost st: Progress) returns (ok: bool)
      requires Lawful(prim) && SplitHandshake(pt).Ok? && st.transcript == transcript
      modifies this`transcript, this`hFinal, this`master, this`appKeys
      ensures ok <==> FinishedOk(prim, sec, st, pt)
      ensures transcript == if ok then old(transcript) + pt else old(transcript)
      ensures hFinal == Some(prim.sha256(old(transcript)))
      ensures master == Master(prim, sec, hFinal.value) && appKeys == AppKeys(prim, master, hFinal.value)
    {
      hide SplitHandshake, ParseFinished, FinishedVerifyData, Master, AppKeys;
      hFinal := Some(prim.sha256(transcript));
      master := Master(prim, sec, hFinal.value);
      appKeys := AppKeys(prim, master, hFinal.value);
      var got := ParseFinished(SplitHandshake(pt).value.body);
      if got.Err? {
        return false;
      }
      var want := FinishedVerifyData(prim, sec, false, hFinal.value);
      if got.value != want {
        return false;
      }
      Feed(pt);
      return true;
    }

    /** The loop over encrypted handshake messages, up to and including Finished. */
    method RecvEncryptedFlight(sec: bytes, keys: TrafficKeys) returns (ok: bool)
      requires Lawful(prim) && secret == Some(sec) && handshakeKeys == keys && keys.Valid()
      modifies this`transcript, this`hCertV, this`nstEntries, this`hFinal, this`master, this`appKeys
      modifies this`rxbuf, this`recq, this`rxSeq, conn`incoming
      ensures var end := Encrypted(prim, keys, sec, old(Now()), old(StreamRecords()));
        && (ok <==> end.Some?)
        && (ok ==>
              && transcript == end.value.0.transcript + end.value.1
              && hCertV == end.value.0.hCertV && nstEntries == end.value.0.tickets
              && hFinal == Some(prim.sha256(end.value.0.transcript))
              && master == Master(prim, sec, hFinal.value)
              && appKeys == AppKeys(prim, master, hFinal.value)
              && end.value.2 <= |old(StreamRecords())|
              && StreamRecords() == old(StreamRecords())[end.value.2..]
              && rxSeq == Advanced(old(rxSeq), end.value.2))
    {
      hide StreamRecords, Encrypted, SplitHandshake, Note, Master, AppKeys;
      hide DecryptRecordPayload, FinishedOk, Tickets, Next, CountingFrom;
      NoneCounted(Encrypted(prim, keys, sec, Now(), StreamRecords()));
      ghost var goal := Encrypted(prim, keys, sec, Now(), StreamRecords());
      ghost var all, n, rx: nat := StreamRecords(), 0, rxSeq;
      assert all[0..] == all;
      while true
        invariant n <= |all| && StreamRecords() == all[n..] && rxSeq == (rx + n) % TWO_64
        invariant goal == CountingFrom(n, Encrypted(prim, keys, sec, Now(), all[n..]))
        decreases |all| - n
      {
        EncryptedStep(prim, keys, sec, Now(), all, n);
        ghost var st := Now();
        var r := RecvDecrypt(keys.serverKey, keys.serverIv);
        if r.Err? {
          return false;
        }
        NextAgain(rx, n);
        n := n + 1;
        var pt := r.value.payload;
        var h := SplitHandshake(pt);
        if h.Err? {
          return false;
        }
        if h.value.msgType == HS_FINISHED {
          ok := TakeFinished(sec, pt, st);
          return;
        }
        TakeMessage(pt, st);
        NoteCounts(prim, st, pt);
        assert Now().rxSeq == Note(prim, st, pt).rxSeq by { NextIs(st.rxSeq); }
      }
    }

    method SendClientHello(eph: Ephemeral) returns (ok: bool)
      modifies this`clientHello, this`transcript, this`txSeq, conn`wire
      ensures ok ==>
        && eph.Hello().Ok? && clientHello == eph.Hello().value && |clientHello| <= 0xffff
        && transcript == old(transcript) + clientHello && txSeq == Next(old(txSeq))
        && conn.wire == old(conn.wire) + EncodeRecord(Record(CT_HANDSHAKE, clientHello))
    {
      hide ClientHelloBytes;
      var ch := eph.Hello();
      if ch.Err? {
        return false;
      }
      clientHello := ch.value;
      Feed(clientHello);
      ok := SendPlain(CT_HANDSHAKE, clientHello);
    }

    method SendClientFinished() returns (ok: bool)
      requires handshakeKeys.Valid() && (hFinal.Some? ==> secret.Some?)
      modifies this`txSeq, conn`wire
      ensures ok ==>
        && hFinal.Some? && txSeq == Next(old(txSeq))
        && var message := BuildFinished(FinishedVerifyData(prim, secret.value, true, hFinal.value));
           && message.Ok?
           && var ct := EncryptRecordPayload(prim, handshakeKeys.clientKey, handshakeKeys.clientIv, old(txSeq),
                                             CT_HANDSHAKE, message.value);
              && ct.Ok? && |ct.value| <= 0xffff
              && conn.wire == old(conn.wire) + EncodeRecord(Record(CT_HANDSHAKE, ct.value))
    {
      hide BuildFinished, FinishedVerifyData, EncryptRecordPayload;
      if hFinal.None? {
        return false;
      }
      var message := BuildFinished(FinishedVerifyData(prim, secret.value, true, hFinal.value));
      if message.Err? {
        return false;
      }
      ok := SendEncrypted(CT_HANDSHAKE, message.value, handshakeKeys.clientKey, handshakeKeys.clientIv);
    }

    /** The progress of this client once its own hello has been fed. */
    ghost function HelloSent(eph: Ephemeral): Progress
      requires eph.Hello().Ok?
      reads this`transcript, this`hCertV, this`nstEntries, this`rxSeq
    {
      Progress(transcript + eph.Hello().value, hCertV, nstEntries, rxSeq)
    }

    method DoHandshake(eph: Ephemeral) returns (ok: bool)
      requires Lawful(prim)
      modifies this, conn
      ensures ok ==>
        && eph.Hello().Ok?
        && var flight := ServerFlight(prim, eph.priv, old(HelloSent(eph)), old(StreamRecords()));
           && flight.Some? && Holds(flight.value) && flight.value.used <= |old(StreamRecords())|
           && StreamRecords() == old(StreamRecords())[flight.value.used..]
           && rxSeq == (old(rxSeq) + flight.value.used) % TWO_64
           && txSeq == Next(Next(old(txSeq)))
           && old(conn.wire) <= conn.wire
           && HandshakeWritten(prim, eph.Hello().value, flight.value, old(txSeq), conn.wire[|old(conn.wire)|..])
    {
      hide StreamRecords, ServerFlight, ClientHelloBytes, BuildFinished, FinishedVerifyData, EncryptRecordPayload;
      hide EncodeRecord, Master, AppKeys;
      ghost var w := conn.wire;
      ok := SendClientHello(eph);
      if !ok {
        return;
      }
      ok := RecvServerFlight(eph.priv);
      if !ok {
        return;
      }
      ghost var f := ServerFlight(prim, eph.priv, old(HelloSent(eph)), old(StreamRecords())).value;
      assert handshakeKeys == f.keys && secret == Some(f.secret) && hFinal == Some(f.hFinal);
      hide Client.Holds;
      ghost var hello := EncodeRecord(Record(CT_HANDSHAKE, clientHello));
      ok := SendClientFinished();
      if ok {
        DropPrefix(w, hello, conn.wire[|w + hello|..]);
        assert conn.wire == w + hello + conn.wire[|w + hello|..];
      }
    }
  }

  /**
   A new client that completes its handshake has spoken with a server whose flight, of any
   length and cut up in any way, is one; its transcript, hashes, keys and counters are
   exactly those the messages of that flight determine.
   */
  method ConnectMmtls(prim: Primitives, conn: Conn, eph: Ephemeral) returns (client: Client, ok: bool)
    requires Lawful(prim) && conn.wire == []
    modifies conn
    ensures fresh(client) && client.conn == conn && client.prim == prim
    ensures ok ==>
      && eph.Hello().Ok?
      && exists messages, f ::
           && IsFlight(prim, eph.priv, Progress(eph.Hello().value, None, [], 0),
                       Parse(Future(old(conn.incoming))), messages, f)
           && client.Holds(f)
           && client.txSeq == 2 && client.rxSeq == (1 + |messages|) % TWO_64
           && HandshakeWritten(prim, eph.Hello().value, f, 0, conn.wire)
  {
    hide ServerFlight, ClientHelloBytes, IsFlight, HandshakeWritten;
    client := new Client(prim, conn);
    assert client.StreamRecords() == Parse(Future(conn.incoming)) by {
      assert client.rxbuf + Future(conn.incoming) == Future(conn.incoming);
    }
    ghost var recs := client.StreamRecords();
    ok := client.DoHandshake(eph);
    if ok {
      var st := Progress(eph.Hello().value, None, [], 0);
      assert [] + eph.Hello().value == eph.Hello().value;
      ghost var f := ServerFlight(prim, eph.priv, st, recs).value;
      FlightExactly(prim, eph.priv, st, recs, f);
      ghost var messages :| IsFlight(prim, eph.priv, st, recs, messages, f);
      assert f.used == 1 + |messages| by { FlightLength(prim, eph.priv, st, recs, messages, f); }
      assert conn.wire[0..] == conn.wire;
    }
  }

  lemma FlightLength(p: Primitives, priv: bytes, st: Progress, recs: seq<Record>, messages: seq<bytes>, f: Flight)
    requires Lawful(p) && IsFlight(p, priv, st, recs, messages, f)
    ensures f.used == 1 + |messages|
  {
  }

  // ---- runs of protected records ----

  function Sealed(p: Primitives, key: bytes, iv: bytes, seqNo: uint64, m: Record): Record
    requires |iv| == 12 && ValidKey(key)
  {
    Record(m.contentType, EncryptRecordPayload(p, key, iv, seqNo, m.contentType, m.payload).value)
  }

  /** `messages` as records sealed under one key, numbered from `first`. */
  function SealAll(p: Primitives, key: bytes, iv: bytes, first: uint64, messages: seq<Record>): seq<Record>
    requires |iv| == 12 && ValidKey(key)
    decreases |messages|
  {
    if messages == [] then []
    else [Sealed(p, key, iv, first, messages[0])] + SealAll(p, key, iv, Next(first), messages[1..])
  }

  ghost predicate Sendable(messages: seq<Record>) {
    forall i :: 0 <= i < |messages| ==>
      KnownContentType(messages[i].contentType) && |messages[i].payload| + TAG_LEN <= 0xffff
  }

  lemma NextIs(seqNo: uint64)
    ensures Next(seqNo) == (seqNo + 1) % TWO_64
  {
  }

  lemma NextAgain(first: uint64, i: nat)
    ensures Next((first + i) % TWO_64) == (first + (i + 1)) % TWO_64
  {
  }

  lemma NextThen(first: uint64, i: nat)
    ensures (Next(first) + i) % TWO_64 == (first + (i + 1)) % TWO_64
  {
  }

  /** Record `i` of a run carries the number `first + i`. */
  lemma {:induction false} RunNumbers(p: Primitives, key: bytes, iv: bytes, first: uint64, messages: seq<Record>,
                                      i: nat)
    requires |iv| == 12 && ValidKey(key) && i < |messages|
    ensures var all := SealAll(p, key, iv, first, messages);
      |all| == |messages| && all[i] == Sealed(p, key, iv, (first + i) % TWO_64, messages[i])
    decreases |messages|
  {
    hide Sealed, Next;
    if i == 0 {
      if |messages| > 1 {
        RunNumbers(p, key, iv, Next(first), messages[1..], 0);
      }
      assert (first + 0) % TWO_64 == first;
    } else {
      RunNumbers(p, key, iv, Next(first), messages[1..], i - 1);
      NextThen(first, i - 1);
    }
  }

  lemma SealedIsValid(p: Primitives, key: bytes, iv: bytes, seqNo: uint64, m: Record)
    requires Lawful(p) && |iv| == 12 && ValidKey(key)
    requires KnownContentType(m.contentType) && |m.payload| + TAG_LEN <= 0xffff
    ensures ValidRecord(Sealed(p, key, iv, seqNo, m))
  {
    OpenSealed(p, key, iv, seqNo, m.contentType, m.payload);
    hide EncryptRecordPayload, DecryptRecordPayload;
  }

  /** Every record of a run is one a peer can read, and the run is its head and the rest. */
  lemma {:induction false} RunIsValid(p: Primitives, key: bytes, iv: bytes, first: uint64, messages: seq<Record>)
    requires Lawful(p) && |iv| == 12 && ValidKey(key) && Sendable(messages)
    ensures var all := SealAll(p, key, iv, first, messages);
      && AllValid(all)
      && (messages != [] ==>
            var head, tail := Sealed(p, key, iv, first, messages[0]), SealAll(p, key, iv, Next(first), messages[1..]);
            && ValidRecord(head) && AllValid(tail)
            && EncodeRecords(all) == EncodeRecord(head) + EncodeRecords(tail))
    decreases |messages|
  {
    hide Sealed, Next, EncodeRecord, ValidRecord;
    if messages == [] {
    } else {
      assert |messages[0].payload| + TAG_LEN <= 0xffff;
      SealedIsValid(p, key, iv, first, messages[0]);
      RunIsValid(p, key, iv, Next(first), messages[1..]);
      var head, tail := Sealed(p, key, iv, first, messages[0]), SealAll(p, key, iv, Next(first), messages[1..]);
      var all := SealAll(p, key, iv, first, messages);
      assert all == [head] + tail && all[1..] == tail;
      assert forall i :: 0 <= i < |all| ==> all[i] == if i == 0 then head else tail[i - 1];
      assert |head.payload| <= 0xffff by { assert ValidRecord(head); FitsRecord(head); }
    }
  }

  lemma FitsRecord(r: Record)
    requires ValidRecord(r)
    ensures |r.payload| <= 0xffff
  {
  }

  /** Any number of sends in a row puts exactly the sealed run on the wire. */
  method SendRun(client: Client, messages: seq<Record>, key: bytes, iv: bytes) returns (ok: bool)
    requires Lawful(client.prim) && |iv| == 12 && ValidKey(key) && Sendable(messages)
    modifies client`txSeq, client.conn`wire
    ensures AllValid(SealAll(client.prim, key, iv, old(client.txSeq), messages))
    ensures ok ==>
      && client.conn.wire == old(client.conn.wire)
                             + EncodeRecords(SealAll(client.prim, key, iv, old(client.txSeq), messages))
      && client.txSeq == (old(client.txSeq) + |messages|) % TWO_64
    decreases |messages|
  {
    ghost var wire, first := client.conn.wire, client.txSeq;
    RunIsValid(client.prim, key, iv, first, messages);
    if messages == [] {
      return true;
    }
    hide EncryptRecordPayload, EncodeRecord, AllValid, SealAll, EncodeRecords;
    ok := client.SendEncrypted(messages[0].contentType, messages[0].payload, key, iv);
    if !ok {
      return;
    }
    ok := SendRun(client, messages[1..], key, iv);
    if ok {
      ConcatAssociative(wire, EncodeRecord(Sealed(client.prim, key, iv, first, messages[0])),
                        EncodeRecords(SealAll(client.prim, key, iv, Next(first), messages[1..])));
      NextThen(first, |messages| - 1);
    }
  }

  /**
   A receiver counting from the sender's first number gets every plaintext back in order,
   however the connection cuts up the bytes.
   */
  method ReceiveRun(client: Client, ghost messages: seq<Record>, ghost later: seq<Record>, n: nat,
                    key: bytes, iv: bytes)
    returns (received: seq<Record>)
    requires Lawful(client.prim) && |iv| == 12 && ValidKey(key) && n == |messages|
    requires client.StreamRecords() == SealAll(client.prim, key, iv, client.rxSeq, messages) + later
    modifies client`rxbuf, client`recq, client`rxSeq, client.conn`incoming
    ensures received == messages && client.StreamRecords() == later
    ensures client.rxSeq == (old(client.rxSeq) + n) % TWO_64
    decreases n
  {
    ghost var first := client.rxSeq;
    if n == 0 {
      assert [] + later == later;
      return [];
    }
    NextOpens(client.prim, key, iv, first, messages, later);
    hide Client.StreamRecords, DecryptRecordPayload, SealAll;
    var r := client.RecvDecrypt(key, iv);
    var rest := ReceiveRun(client, messages[1..], later, n - 1, key, iv);
    received := [r.value] + rest;
    HeadAndTail(messages);
    NextThen(first, n - 1);
  }

  lemma NextOpens(p: Primitives, key: bytes, iv: bytes, seqNo: uint64, messages: seq<Record>, later: seq<Record>)
    requires Lawful(p) && |iv| == 12 && ValidKey(key) && messages != []
    ensures var run, m := SealAll(p, key, iv, seqNo, messages) + later, messages[0];
      && run != [] && run[1..] == SealAll(p, key, iv, Next(seqNo), messages[1..]) + later
      && run[0].contentType == m.contentType
      && DecryptRecordPayload(p, key, iv, seqNo, m.contentType, run[0].payload) == Ok(m.payload)
  {
    OpenSealed(p, key, iv, seqNo, messages[0].contentType, messages[0].payload);
    hide EncryptRecordPayload, DecryptRecordPayload, Next;
  }

  /** The bytes a run puts on the wire, followed by anything, are a stream of exactly its records. */
  lemma RunOnTheWire(p: Primitives, key: bytes, iv: bytes, first: uint64, messages: seq<Record>, rest: bytes)
    requires Lawful(p) && |iv| == 12 && ValidKey(key) && Sendable(messages)
    ensures var all := SealAll(p, key, iv, first, messages);
      AllValid(all) && Parse(EncodeRecords(all) + rest) == all + Parse(rest)
  {
    RunIsValid(p, key, iv, first, messages);
    ParseEncoded(SealAll(p, key, iv, first, messages), rest);
  }

  /** The counter wraps, so nonces meet again exactly at a distance that is a multiple of 2^64. */
  lemma NoncesMeet(iv: bytes, first: uint64, i: nat, j: nat)
    requires |iv| == 12 && i <= j
    ensures NonceOf(iv, (first + i) % TWO_64) == NonceOf(iv, (first + j) % TWO_64) <==> (j - i) % TWO_64 == 0
  {
    hide NonceOf;
    var m, n := (first + i) % TWO_64, (first + j) % TWO_64;
    SameNumber(first + i, first + j);
    if NonceOf(iv, m) == NonceOf(iv, n) {
      NonceInjective(iv, m, n);
    }
  }

  lemma SameNumber(a: nat, b: nat)
    requires a <= b
    ensures a % TWO_64 == b % TWO_64 <==> (b - a) % TWO_64 == 0
  {
  }

  /** No two records of a run of at most 2^64 share a nonce, wherever the counter started. */
  lemma NoncesDistinct(p: Primitives, key: bytes, iv: bytes, first: uint64, messages: seq<Record>, i: nat, j: nat)
    requires |iv| == 12 && ValidKey(key) && i < j < |messages| <= TWO_64
    ensures var all, m, n := SealAll(p, key, iv, first, messages), (first + i) % TWO_64, (first + j) % TWO_64;
      && |all| == |messages|
      && all[i] == Sealed(p, key, iv, m, messages[i]) && all[j] == Sealed(p, key, iv, n, messages[j])
      && NonceOf(iv, m) != NonceOf(iv, n)
  {
    hide NonceOf, SealAll, Sealed;
    RunNumbers(p, key, iv, first, messages, i);
    RunNumbers(p, key, iv, first, messages, j);
    NoncesMeet(iv, first, i, j);
  }

  // ---- in bytes ----

  /** The hello offers the key pair whose private half is kept under group 1. */
  lemma HelloOffers(eph: Ephemeral)
    requires |eph.random| == 32 && |eph.g1Pub| == 65 && |eph.g2Pub| == 65
    ensures eph.Hello()
            == Ok([0, 0, 0, 208, 1, 0x03, 0xf1, 1, 0xc0, 0x2b] + eph.random + Be32(eph.timestamp)
                  + [0, 0, 0, 162, 1, 0, 0, 0, 157, 0, 0x10, 2]
                  + [0, 0, 0, 71, 0, 0, 0, 1, 0, 65] + eph.g1Pub
                  + [0, 0, 0, 71, 0, 0, 0, 2, 0, 65] + eph.g2Pub
                  + [0, 0, 0, 1])
  {
    hide ClientHelloBytes;
    ClientHelloIs(eph.random, eph.timestamp, eph.g1Pub, eph.g2Pub);
  }

  /** The 39 bytes of the client's Finished: the HMAC under the client's label of the final hash. */
  ghost predicate IsClientFinished(p: Primitives, f: Flight, client: bytes, message: bytes) {
    message == [0, 0, 0, 35, 0x14, 0, 32] + p.hmac(p.hmac(f.secret, client + [1]), f.hFinal)
  }

  /**
   On the wire of a handshake whose hello went out first, under number 0, stand two handshake
   records: the hello, and the Finished sealed under the client's key with number 1, whose
   nonce is the iv with its last byte exclusive-or 1.
   */
  lemma HandshakeOnTheWire(p: Primitives, hello: bytes, f: Flight, written: bytes, client: bytes, server: bytes)
    returns (message: bytes, nonce: bytes)
    requires Lawful(p) && f.keys.Valid() && HandshakeWritten(p, hello, f, 0, written)
    requires Spells(client, "client finished") && Spells(server, "server finished")
    ensures IsClientFinished(p, f, client, message)
    ensures |nonce| == 12 && nonce[..11] == f.keys.clientIv[..11] && nonce[11] == Xor(f.keys.clientIv[11], 1)
    ensures Parse(written)
            == [Record(0x16, hello),
                Record(0x16, p.seal(f.keys.clientKey, nonce, message,
                                    [0, 0, 0, 0, 0, 0, 0, 1, 0x16, 0xf1, 0x03, 0, 55]))]
  {
    hide Xor, NonceOf, EncodeRecord, Parse;
    var key, iv, verify := f.keys.clientKey, f.keys.clientIv, p.hmac(p.hmac(f.secret, client + [1]), f.hFinal);
    VerifyDataIs(p, f.secret, f.hFinal, client, server);
    Records.FinishedIs(verify);
    message := [0, 0, 0, 35, 0x14, 0, 32] + verify;
    hide BuildFinished, FinishedVerifyData;
    nonce := NonceOf(iv, 1);
    SecondNonce(iv);
    SealedSecond(p, key, iv, message);
    var ct := p.seal(key, nonce, message, [0, 0, 0, 0, 0, 0, 0, 1, 0x16, 0xf1, 0x03, 0, 55]);
    assert EncryptRecordPayload(p, key, iv, Next(0), CT_HANDSHAKE, message) == Ok(ct);
    hide EncryptRecordPayload, HandshakeWritten;
    TwoRecords(hello, ct, written);
  }

  lemma SecondNonce(iv: bytes)
    requires |iv| == 12
    ensures var n := NonceOf(iv, 1); |n| == 12 && n[..11] == iv[..11] && n[11] == Xor(iv[11], 1)
  {
    hide NonceOf, Xor, Be32;
    BigEndian32(0, 0, 0, 0);
    BigEndian32(0, 0, 0, 1);
    var n := NonceOf(iv, 1);
    forall k | 0 <= k < 12 ensures n[k] == if k < 11 then iv[k] else Xor(iv[k], 1) {
      NonceIs(iv, 0, 1, k);
      if 4 <= k < 11 {
        XorUndoes(iv[k], 0);
      }
    }
    assert n[..11] == iv[..11];
  }

  lemma SealedSecond(p: Primitives, key: bytes, iv: bytes, message: bytes)
    requires |key| == 16 && |iv| == 12 && |message| == 39
    ensures EncryptRecordPayload(p, key, iv, 1, 0x16, message)
            == Ok(p.seal(key, NonceOf(iv, 1), message, [0, 0, 0, 0, 0, 0, 0, 1, 0x16, 0xf1, 0x03, 0, 55]))
  {
    hide NonceOf, EncryptRecordPayload, Be32;
    PayloadIs(p, key, iv, 0, 1, 0x16, message, 0, 55);
    BigEndian32(0, 0, 0, 0);
    BigEndian32(0, 0, 0, 1);
    assert [0, 0, 0, 0] + [0, 0, 0, 1] + [0x16, 0xf1, 0x03, 0, 55] == [0, 0, 0, 0, 0, 0, 0, 1, 0x16, 0xf1, 0x03, 0, 55];
  }

  /** Two handshake records and nothing else are read as just these. */
  lemma TwoRecords(hello: bytes, ct: bytes, written: bytes)
    requires |hello| <= 0xffff && |ct| <= 0xffff
    requires written == EncodeRecord(Record(0x16, hello)) + EncodeRecord(Record(0x16, ct))
    ensures Parse(written) == [Record(0x16, hello), Record(0x16, ct)]
  {
    hide EncodeRecord, Parse;
    var a, b := EncodeRecord(Record(0x16, hello)), EncodeRecord(Record(0x16, ct));
    FrontEncoded(Record(0x16, hello), b);
    FrontEncoded(Record(0x16, ct), []);
    assert b + [] == b;
    RecordNotRead([]);
  }
}
