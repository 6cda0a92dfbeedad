/**
 The server's side of a handshake as a function of the records received
 (internal/protocol/mmtls_client.go, `recvServerFlight`), and what an accepted one is.
 */
module Flights {
  import opened Wire
  import opened Wrappers
  import opened Records
  import opened RecordCrypto

  const GROUP_SECP256R1: uint32 := 1
  const EXT_KEY_SHARE: byte := 1

  datatype ServerHello = ServerHello(serverRandom: bytes, cipher: uint16, serverGroup: uint32, serverPubKey: bytes)

  /** The first 65-byte point behind a `00 41 04` marker, if any. */
  function FirstKeyShare(blob: bytes, i: nat): bytes
    decreases |blob| - i
  {
    if i + 67 > |blob| then []
    else if blob[i] == 0x00 && blob[i + 1] == 0x41 && blob[i + 2] == 0x04 then blob[i + 2..i + 67]
    else FirstKeyShare(blob, i + 1)
  }

  function ParseServerHello(body: bytes): Result<ServerHello> {
    if |body| < 40 then Err
    else
      var cipher, random := FromBe16(body[2..4]), body[4..36];
      var extLen := FromBe32(body[36..40]);
      if 40 + extLen > |body| then Err
      else
        var ext := body[40..40 + extLen];
        if |ext| > 0 && ext[0] == EXT_KEY_SHARE then
          if |ext| < 13 then Err
          else
            var group, klen := FromBe32(ext[7..11]), FromBe16(ext[11..13]);
            if 13 + klen > |ext| then Err else Ok(ServerHello(random, cipher, group, ext[13..13 + klen]))
        else Ok(ServerHello(random, cipher, GROUP_SECP256R1, FirstKeyShare(ext, 0)))
  }

  ghost predicate MarkerAt(blob: bytes, i: nat) {
    i + 67 <= |blob| && blob[i] == 0x00 && blob[i + 1] == 0x41 && blob[i + 2] == 0x04
  }

  /** The marker found is the first one with a whole point behind it; without one nothing is found. */
  lemma {:induction false} FirstKeyShareIsFirst(blob: bytes, i: nat)
    ensures var r := FirstKeyShare(blob, i);
      if r == [] then forall k :: i <= k ==> !MarkerAt(blob, k)
      else exists k :: i <= k && MarkerAt(blob, k) && r == blob[k + 2..k + 67]
                       && forall j :: i <= j < k ==> !MarkerAt(blob, j)
    decreases |blob| - i
  {
    if i + 67 <= |blob| && !MarkerAt(blob, i) {
      FirstKeyShareIsFirst(blob, i + 1);
    }
  }

  /** The key share extension as the server writes it; six bytes of lengths are not looked at. */
  function ServerShare(lengths: bytes, group: uint32, pub: bytes, more: bytes): bytes
    requires |lengths| == 6 && |pub| <= 0xffff
  {
    [EXT_KEY_SHARE] + lengths + Be32(group) + Be16(|pub|) + pub + more
  }

  function ServerHelloBody(version: bytes, cipher: uint16, random: bytes, ext: bytes, trailing: bytes): bytes
    requires |ext| < 0x1_0000_0000
  {
    version + Be16(cipher) + random + Be32(|ext|) + ext + trailing
  }

  lemma ShareParts(lengths: bytes, group: uint32, pub: bytes, more: bytes)
    requires |lengths| == 6 && |pub| <= 0xffff
    ensures var ext := ServerShare(lengths, group, pub, more);
      && |ext| == 13 + |pub| + |more| && ext[0] == EXT_KEY_SHARE
      && ext[7..11] == Be32(group) && ext[11..13] == Be16(|pub|) && ext[13..13 + |pub|] == pub
  {
    hide Be32, Be16;
  }

  lemma HelloParts(version: bytes, cipher: uint16, random: bytes, ext: bytes, trailing: bytes)
    requires |version| == 2 && |random| == 32 && |ext| < 0x1_0000_0000
    ensures var body := ServerHelloBody(version, cipher, random, ext, trailing);
      && |body| == 40 + |ext| + |trailing|
      && body[2..4] == Be16(cipher) && body[4..36] == random && body[36..40] == Be32(|ext|)
      && body[40..40 + |ext|] == ext
  {
    hide Be32, Be16;
  }

  /** A ServerHello with a key share is read back field by field. */
  lemma ServerHelloRead(version: bytes, cipher: uint16, random: bytes, lengths: bytes, group: uint32, pub: bytes,
                        more: bytes, trailing: bytes)
    requires |version| == 2 && |random| == 32 && |lengths| == 6 && |pub| <= 0xffff
    requires 13 + |pub| + |more| < 0x1_0000_0000
    ensures var ext := ServerShare(lengths, group, pub, more);
      && |ext| < 0x1_0000_0000
      && ParseServerHello(ServerHelloBody(version, cipher, random, ext, trailing))
         == Ok(ServerHello(random, cipher, group, pub))
  {
    hide ServerShare, ServerHelloBody, Be32, Be16, FromBe16, FromBe32;
    ShareParts(lengths, group, pub, more);
    var ext := ServerShare(lengths, group, pub, more);
    HelloParts(version, cipher, random, ext, trailing);
    Be16RoundTrip(cipher);
    Be32RoundTrip(|ext|);
    Be32RoundTrip(group);
    Be16RoundTrip(|pub|);
  }

  /** Everything the client learns from an accepted flight of `used` records. */
  datatype Flight = Flight(used: nat, serverPub: bytes, secret: bytes, keys: TrafficKeys, transcript: bytes,
                           hCertV: Option<bytes>, hFinal: bytes, tickets: seq<PskTicket>)

  /** The client's running state between two encrypted messages. */
  datatype Progress = Progress(transcript: bytes, hCertV: Option<bytes>, tickets: seq<PskTicket>, rxSeq: uint64)

  predicate HasType(message: bytes, msgType: byte) {
    SplitHandshake(message).Ok? && SplitHandshake(message).value.msgType == msgType
  }

  /** The next record's plaintext under the handshake keys. */
  function Open(p: Primitives, keys: TrafficKeys, rxSeq: uint64, r: Record): Result<bytes>
    requires keys.Valid()
  {
    DecryptRecordPayload(p, keys.serverKey, keys.serverIv, rxSeq, r.contentType, r.payload)
  }

  /** One message that is not Finished: fed to the transcript, then noted by its type. */
  function Note(p: Primitives, st: Progress, message: bytes): Progress
    requires SplitHandshake(message).Ok?
  {
    var h, transcript := SplitHandshake(message).value, st.transcript + message;
    Progress(transcript,
             if h.msgType == HS_CERT_VERIFY then Some(p.sha256(transcript)) else st.hCertV,
             if h.msgType == HS_NEW_SESSION_TICKET then Tickets(h.body) else st.tickets,
             (st.rxSeq + 1) % TWO_64)
  }

  lemma NoteCounts(p: Primitives, st: Progress, message: bytes)
    requires SplitHandshake(message).Ok?
    ensures Note(p, st, message).rxSeq == (st.rxSeq + 1) % TWO_64
  {
  }

  /** Finished is checked against the transcript before it, and only then fed. */
  predicate FinishedOk(p: Primitives, secret: bytes, st: Progress, message: bytes)
    requires SplitHandshake(message).Ok?
  {
    ParseFinished(SplitHandshake(message).value.body) ==
    Ok(FinishedVerifyData(p, secret, false, p.sha256(st.transcript)))
  }

  /** The encrypted part of the flight: the state at its end, and how many records it took. */
  function Encrypted(p: Primitives, keys: TrafficKeys, secret: bytes, st: Progress, recs: seq<Record>)
    : End
    requires keys.Valid()
    decreases |recs|
  {
    if recs == [] then None
    else match Open(p, keys, st.rxSeq, recs[0])
         case Err => None
         case Ok(message) =>
           if SplitHandshake(message).Err? then None
           else if HasType(message, HS_FINISHED) then
             if FinishedOk(p, secret, st, message) then Some((st, message, 1)) else None
           else match Encrypted(p, keys, secret, Note(p, st, message), recs[1..])
                case None => None
                case Some(end) => Some((end.0, end.1, end.2 + 1))
  }

  type End = Option<(Progress, bytes, nat)>

  /** The same end with `n` more records counted. */
  function CountingFrom(n: nat, end: End): End {
    match end
    case None => None
    case Some(e) => Some((e.0, e.1, n + e.2))
  }

  lemma NoneCounted(end: End)
    ensures CountingFrom(0, end) == end
  {
  }

  /** What the record at `n` makes of the rest. */
  lemma EncryptedStep(p: Primitives, keys: TrafficKeys, secret: bytes, st: Progress, all: seq<Record>, n: nat)
    requires keys.Valid() && n <= |all|
    ensures var now := CountingFrom(n, Encrypted(p, keys, secret, st, all[n..]));
      && (n == |all| ==> all[n..] == [] && now == None)
      && (n < |all| ==>
            var m := Open(p, keys, st.rxSeq, all[n]);
            && all[n..] != [] && all[n..][0] == all[n] && all[n..][1..] == all[n + 1..]
            && (m.Err? || SplitHandshake(m.value).Err? ==> now == None)
            && (m.Ok? && HasType(m.value, HS_FINISHED) ==>
                  now == if FinishedOk(p, secret, st, m.value) then Some((st, m.value, n + 1)) else None)
            && (m.Ok? && SplitHandshake(m.value).Ok? && !HasType(m.value, HS_FINISHED) ==>
                  now == CountingFrom(n + 1, Encrypted(p, keys, secret, Note(p, st, m.value), all[n + 1..]))))
  {
    hide Open, SplitHandshake, FinishedOk, Note;
    assert n < |all| ==> all[n..][0] == all[n] && all[n..][1..] == all[n + 1..];
  }

  function Agree(p: Primitives, priv: bytes, peer: bytes): Option<bytes> {
    match p.agree(priv, peer)
    case None => None
    case Some(shared) => Some(p.sha256(shared))
  }

  /** What a ServerHello gives: the peer key, the shared secret, the handshake keys. */
  datatype Agreement = Agreement(serverPub: bytes, secret: bytes, keys: TrafficKeys)

  function AcceptHello(p: Primitives, priv: bytes, base: bytes, hello: bytes): (a: Option<Agreement>)
    requires Lawful(p)
    ensures a.Some? ==> a.value.keys.Valid()
  {
    if !HasType(hello, HS_SERVER_HELLO) then None
    else match ParseServerHello(SplitHandshake(hello).value.body)
         case Err => None
         case Ok(sh) =>
           if sh.serverGroup != GROUP_SECP256R1 then None
           else match Agree(p, priv, sh.serverPubKey)
                case None => None
                case Some(secret) =>
                  Some(Agreement(sh.serverPubKey, secret, HandshakeKeys(p, secret, p.sha256(base + hello))))
  }

  function HelloFed(st: Progress, hello: bytes): Progress {
    st.(transcript := st.transcript + hello, rxSeq := (st.rxSeq + 1) % TWO_64)
  }

  /** The whole flight, starting with a plain ServerHello. */
  function ServerFlight(p: Primitives, priv: bytes, st: Progress, recs: seq<Record>): (f: Option<Flight>)
    requires Lawful(p)
    ensures f.Some? ==> f.value.keys.Valid()
  {
    if recs == [] then None
    else match AcceptHello(p, priv, st.transcript, recs[0].payload)
         case None => None
         case Some(a) =>
           match Encrypted(p, a.keys, a.secret, HelloFed(st, recs[0].payload), recs[1..])
           case None => None
           case Some(end) =>
             Some(Flight(end.2 + 1, a.serverPub, a.secret, a.keys, end.0.transcript + end.1,
                         end.0.hCertV, p.sha256(end.0.transcript), end.0.tickets))
  }

  // ---- what an accepted flight is ----

  /** The messages are the records opened one after another, counting from `rxSeq`. */
  ghost predicate Opened(p: Primitives, keys: TrafficKeys, rxSeq: uint64, recs: seq<Record>, messages: seq<bytes>)
    requires keys.Valid()
  {
    && |messages| <= |recs|
    && forall i :: 0 <= i < |messages| ==>
         Open(p, keys, (rxSeq + i) % TWO_64, recs[i]) == Ok(messages[i])
  }

  /** All messages split, and exactly the last one is a Finished. */
  ghost predicate EndsInFinished(messages: seq<bytes>) {
    && |messages| > 0
    && (forall i :: 0 <= i < |messages| ==> SplitHandshake(messages[i]).Ok?)
    && (forall i :: 0 <= i < |messages| ==> (HasType(messages[i], HS_FINISHED) <==> i == |messages| - 1))
  }

  /** The index behind the last message of a type among the first `n`, or 0. */
  ghost function BehindLast(messages: seq<bytes>, msgType: byte, n: nat): (k: nat)
    requires n <= |messages|
    ensures k <= n && (k > 0 ==> HasType(messages[k - 1], msgType))
    ensures forall i :: k <= i < n ==> !HasType(messages[i], msgType)
  {
    if n == 0 then 0
    else if HasType(messages[n - 1], msgType) then n
    else BehindLast(messages, msgType, n - 1)
  }

  /** The transcript once `n` messages have been fed behind `base`. */
  ghost function Fed(base: bytes, messages: seq<bytes>, n: nat): bytes
    requires n <= |messages|
  {
    if n == 0 then base else Fed(base, messages, n - 1) + messages[n - 1]
  }

  /** The certificate hash covers everything up to the last CertVerify, if there was one. */
  ghost function CertHash(p: Primitives, st: Progress, messages: seq<bytes>, n: nat): Option<bytes>
    requires n <= |messages|
  {
    var k := BehindLast(messages, HS_CERT_VERIFY, n);
    if k == 0 then st.hCertV else Some(p.sha256(Fed(st.transcript, messages, k)))
  }

  ghost function LastTickets(st: Progress, messages: seq<bytes>, n: nat): seq<PskTicket>
    requires n <= |messages|
  {
    var k := BehindLast(messages, HS_NEW_SESSION_TICKET, n);
    if k == 0 then st.tickets else Tickets(SplitHandshake(messages[k - 1]).value.body)
  }

  /** The state after noting the first `n` messages, said without stepping. */
  ghost function After(p: Primitives, st: Progress, messages: seq<bytes>, n: nat): Progress
    requires n <= |messages|
  {
    Progress(Fed(st.transcript, messages, n), CertHash(p, st, messages, n), LastTickets(st, messages, n),
             (st.rxSeq + n) % TWO_64)
  }

  lemma NoteIsAfter(p: Primitives, st: Progress, messages: seq<bytes>, n: nat)
    requires n < |messages| && SplitHandshake(messages[n]).Ok?
    ensures Note(p, After(p, st, messages, n), messages[n]) == After(p, st, messages, n + 1)
  {
    hide SplitHandshake, Tickets;
    assert ((st.rxSeq + n) % TWO_64 + 1) % TWO_64 == (st.rxSeq + (n + 1)) % TWO_64;
  }

  /** A flight in the protocol's own terms: the messages, and what must hold of them. */
  ghost predicate Accepts(p: Primitives, keys: TrafficKeys, secret: bytes, st: Progress, recs: seq<Record>,
                          messages: seq<bytes>)
    requires keys.Valid()
  {
    && Opened(p, keys, st.rxSeq, recs, messages)
    && EndsInFinished(messages)
    && FinishedOk(p, secret, After(p, st, messages, |messages| - 1), messages[|messages| - 1])
  }

  /** The state after `n` messages does not depend on later ones. */
  lemma {:induction false} AfterPrefix(p: Primitives, st: Progress, a: seq<bytes>, b: seq<bytes>, n: nat)
    requires n <= |a| && a <= b
    ensures After(p, st, a, n) == After(p, st, b, n)
  {
    SameFed(st.transcript, a, b, n);
    SameBehindLast(a, b, HS_CERT_VERIFY, n);
    SameBehindLast(a, b, HS_NEW_SESSION_TICKET, n);
    SameFed(st.transcript, a, b, BehindLast(a, HS_CERT_VERIFY, n));
    hide SplitHandshake, Tickets, Fed, BehindLast;
  }

  lemma {:induction false} SameFed(base: bytes, a: seq<bytes>, b: seq<bytes>, n: nat)
    requires n <= |a| && a <= b
    ensures Fed(base, a, n) == Fed(base, b, n)
  {
    if n == 0 {
    } else {
      SameFed(base, a, b, n - 1);
    }
  }

  lemma {:induction false} SameBehindLast(a: seq<bytes>, b: seq<bytes>, msgType: byte, n: nat)
    requires n <= |a| && a <= b
    ensures BehindLast(a, msgType, n) == BehindLast(b, msgType, n)
  {
    hide HasType;
    if n == 0 {
    } else {
      SameBehindLast(a, b, msgType, n - 1);
    }
  }

  /** The messages opened so far, none of which is a Finished. */
  ghost predicate Middle(p: Primitives, keys: TrafficKeys, st: Progress, recs: seq<Record>, messages: seq<bytes>)
    requires keys.Valid()
  {
    && Opened(p, keys, st.rxSeq, recs, messages)
    && (forall i :: 0 <= i < |messages| ==> SplitHandshake(messages[i]).Ok?)
    && (forall i :: 0 <= i < |messages| ==> !HasType(messages[i], HS_FINISHED))
  }

  /** Rebuilds the messages of an accepted flight of which `done` have been read. */
  lemma {:induction false} MessagesOf(p: Primitives, keys: TrafficKeys, secret: bytes, st: Progress,
                                      recs: seq<Record>, done: seq<bytes>)
    returns (messages: seq<bytes>)
    requires keys.Valid() && Middle(p, keys, st, recs, done)
    requires Encrypted(p, keys, secret, After(p, st, done, |done|), recs[|done|..]).Some?
    ensures |messages| > 0 && Accepts(p, keys, secret, st, recs, messages)
    ensures var end := Encrypted(p, keys, secret, After(p, st, done, |done|), recs[|done|..]).value;
      end == (After(p, st, messages, |messages| - 1), messages[|messages| - 1], |messages| - |done|)
    decreases |recs| - |done|
  {
    hide SplitHandshake, HasType, FinishedOk, Open, Note, Fed, CertHash, LastTickets;
    var n := |done|;
    var now := After(p, st, done, n);
    assert recs[n..][0] == recs[n] && recs[n..][1..] == recs[n + 1..];
    var message := Open(p, keys, now.rxSeq, recs[n]).value;
    var more := done + [message];
    AfterPrefix(p, st, done, more, n);
    if HasType(message, HS_FINISHED) {
      messages := more;
    } else {
      NoteIsAfter(p, st, more, n);
      messages := MessagesOf(p, keys, secret, st, recs, more);
    }
  }

  /** From the state after `n` of its messages, an acceptable flight is accepted. */
  lemma {:induction false} AcceptedFrom(p: Primitives, keys: TrafficKeys, secret: bytes, st: Progress,
                                        recs: seq<Record>, messages: seq<bytes>, n: nat)
    requires keys.Valid() && Accepts(p, keys, secret, st, recs, messages) && n < |messages|
    ensures Encrypted(p, keys, secret, After(p, st, messages, n), recs[n..]) ==
            Some((After(p, st, messages, |messages| - 1), messages[|messages| - 1], |messages| - n))
    decreases |messages| - n
  {
    hide SplitHandshake, HasType, FinishedOk, Open, Note, Fed, CertHash, LastTickets;
    assert recs[n..][0] == recs[n] && recs[n..][1..] == recs[n + 1..];
    if n + 1 == |messages| {
    } else {
      NoteIsAfter(p, st, messages, n);
      AcceptedFrom(p, keys, secret, st, recs, messages, n + 1);
    }
  }

  lemma NothingNoted(p: Primitives, st: Progress)
    ensures After(p, st, [], 0) == st
  {
  }

  /**
   The loop accepts exactly the flights the protocol describes, and ends in the state
   reached by all messages before the Finished.
   */
  lemma EncryptedExactly(p: Primitives, keys: TrafficKeys, secret: bytes, st: Progress, recs: seq<Record>,
                         end: Progress, last: bytes, used: nat)
    requires keys.Valid()
    ensures Encrypted(p, keys, secret, st, recs) == Some((end, last, used)) <==>
            exists messages :: used == |messages| > 0 && Accepts(p, keys, secret, st, recs, messages)
                               && end == After(p, st, messages, used - 1) && last == messages[used - 1]
  {
    hide Encrypted, SplitHandshake, HasType, FinishedOk, Open, Fed, CertHash, LastTickets;
    NothingNoted(p, st);
    assert recs[0..] == recs;
    if Encrypted(p, keys, secret, st, recs) == Some((end, last, used)) {
      var messages := MessagesOf(p, keys, secret, st, recs, []);
    }
    forall messages | used == |messages| > 0 && Accepts(p, keys, secret, st, recs, messages)
      ensures Encrypted(p, keys, secret, st, recs) ==
              Some((After(p, st, messages, used - 1), messages[used - 1], used))
    {
      AfterPrefix(p, st, [], messages, 0);
      AcceptedFrom(p, keys, secret, st, recs, messages, 0);
    }
  }

  /** A flight: an acceptable hello, then `messages`, and the state they lead to. */
  ghost predicate IsFlight(p: Primitives, priv: bytes, st: Progress, recs: seq<Record>, messages: seq<bytes>, f: Flight)
    requires Lawful(p)
  {
    && |messages| > 0 && f.used == 1 + |messages| <= |recs|
    && AcceptHello(p, priv, st.transcript, recs[0].payload) == Some(Agreement(f.serverPub, f.secret, f.keys))
    && var st1, m := HelloFed(st, recs[0].payload), |messages|;
       && Accepts(p, f.keys, f.secret, st1, recs[1..], messages)
       && f.transcript == Fed(st1.transcript, messages, m)
       && f.hFinal == p.sha256(Fed(st1.transcript, messages, m - 1))
       && f.hCertV == CertHash(p, st1, messages, m - 1)
       && f.tickets == LastTickets(st1, messages, m - 1)
  }

  /** A flight succeeds, and with these results, exactly when it is one. */
  lemma FlightExactly(p: Primitives, priv: bytes, st: Progress, recs: seq<Record>, f: Flight)
    requires Lawful(p)
    ensures ServerFlight(p, priv, st, recs) == Some(f) <==>
            exists messages :: IsFlight(p, priv, st, recs, messages, f)
  {
    if ServerFlight(p, priv, st, recs) == Some(f) {
      var messages := FlightMessages(p, priv, st, recs, f);
    }
    forall messages | IsFlight(p, priv, st, recs, messages, f)
      ensures ServerFlight(p, priv, st, recs) == Some(f)
    {
      FlightAccepted(p, priv, st, recs, messages, f);
    }
  }

  lemma FlightMessages(p: Primitives, priv: bytes, st: Progress, recs: seq<Record>, f: Flight)
    returns (messages: seq<bytes>)
    requires Lawful(p) && ServerFlight(p, priv, st, recs) == Some(f)
    ensures IsFlight(p, priv, st, recs, messages, f)
  {
    hide Encrypted, SplitHandshake, AcceptHello, FinishedOk, Open, CertHash, LastTickets;
    var st1 := HelloFed(st, recs[0].payload);
    var end := Encrypted(p, f.keys, f.secret, st1, recs[1..]).value;
    EncryptedExactly(p, f.keys, f.secret, st1, recs[1..], end.0, end.1, end.2);
    messages :| end.2 == |messages| > 0 && Accepts(p, f.keys, f.secret, st1, recs[1..], messages)
                && end.0 == After(p, st1, messages, end.2 - 1) && end.1 == messages[end.2 - 1];
  }

  lemma FlightAccepted(p: Primitives, priv: bytes, st: Progress, recs: seq<Record>, messages: seq<bytes>, f: Flight)
    requires Lawful(p) && IsFlight(p, priv, st, recs, messages, f)
    ensures ServerFlight(p, priv, st, recs) == Some(f)
  {
    hide Encrypted, SplitHandshake, AcceptHello, FinishedOk, Open, CertHash, LastTickets;
    var st1, m := HelloFed(st, recs[0].payload), |messages|;
    EncryptedExactly(p, f.keys, f.secret, st1, recs[1..], After(p, st1, messages, m - 1), messages[m - 1], m);
  }

  // ---- a server that keeps to the protocol is accepted ----

  /** The records carry the messages, each sealed under the server's keys and its own number. */
  ghost predicate SealedUnder(p: Primitives, keys: TrafficKeys, rxSeq: uint64, recs: seq<Record>, messages: seq<bytes>)
    requires keys.Valid()
  {
    && |messages| <= |recs|
    && forall i :: 0 <= i < |messages| ==>
         EncryptRecordPayload(p, keys.serverKey, keys.serverIv, (rxSeq + i) % TWO_64, recs[i].contentType, messages[i])
         == Ok(recs[i].payload)
  }

  lemma SealedOpens(p: Primitives, keys: TrafficKeys, rxSeq: uint64, recs: seq<Record>, messages: seq<bytes>)
    requires Lawful(p) && keys.Valid() && SealedUnder(p, keys, rxSeq, recs, messages)
    ensures Opened(p, keys, rxSeq, recs, messages)
  {
    hide EncryptRecordPayload, DecryptRecordPayload;
    forall i | 0 <= i < |messages| ensures Open(p, keys, (rxSeq + i) % TWO_64, recs[i]) == Ok(messages[i]) {
      OpenSealed(p, keys.serverKey, keys.serverIv, (rxSeq + i) % TWO_64, recs[i].contentType, messages[i]);
    }
  }

  /** The part of a hello a server fills in. */
  datatype ServerPart = ServerPart(version: bytes, cipher: uint16, random: bytes, lengths: bytes, pub: bytes,
                                   more: bytes, trailing: bytes)
  {
    predicate Fits() {
      && |version| == 2 && |random| == 32 && |lengths| == 6 && |pub| <= 0xffff
      && 64 + |pub| + |more| + |trailing| < 0x1_0000_0000
    }

    function Body(): bytes
      requires Fits()
    {
      ServerHelloBody(version, cipher, random, ServerShare(lengths, GROUP_SECP256R1, pub, more), trailing)
    }

    function Message(): bytes
      requires Fits()
    {
      BuildHandshakeBytes(HS_SERVER_HELLO, Body())
    }
  }

  lemma HelloSize(h: ServerPart)
    requires h.Fits()
    ensures 1 + |h.Body()| < 0x1_0000_0000
  {
    hide Be16, Be32;
  }

  lemma HelloAccepted(p: Primitives, priv: bytes, base: bytes, h: ServerPart)
    requires Lawful(p) && h.Fits() && Agree(p, priv, h.pub).Some?
    ensures var secret := Agree(p, priv, h.pub).value;
      AcceptHello(p, priv, base, h.Message())
      == Some(Agreement(h.pub, secret, HandshakeKeys(p, secret, p.sha256(base + h.Message()))))
  {
    hide SplitHandshake, BuildHandshakeBytes, ParseServerHello, ServerHelloBody, ServerShare, HandshakeKeys, Agree;
    HelloSize(h);
    HandshakeRoundTrip(HS_SERVER_HELLO, h.Body());
    ServerHelloRead(h.version, h.cipher, h.random, h.lengths, GROUP_SECP256R1, h.pub, h.more, h.trailing);
  }

  /** The Finished a server owes after the middle messages. */
  ghost function OwedFinished(p: Primitives, secret: bytes, base: bytes, middle: seq<bytes>): Result<bytes> {
    BuildFinished(FinishedVerifyData(p, secret, false, p.sha256(Fed(base, middle, |middle|))))
  }

  lemma FinishedAccepted(p: Primitives, keys: TrafficKeys, secret: bytes, st: Progress, recs: seq<Record>,
                         middle: seq<bytes>)
    requires Lawful(p) && keys.Valid()
    requires forall i :: 0 <= i < |middle| ==> SplitHandshake(middle[i]).Ok? && !HasType(middle[i], HS_FINISHED)
    requires OwedFinished(p, secret, st.transcript, middle).Ok?
    requires SealedUnder(p, keys, st.rxSeq, recs, middle + [OwedFinished(p, secret, st.transcript, middle).value])
    ensures Accepts(p, keys, secret, st, recs, middle + [OwedFinished(p, secret, st.transcript, middle).value])
  {
    hide FinishedVerifyData, SplitHandshake, BuildFinished, ParseFinished, Open, SealedUnder, CertHash, LastTickets;
    var fin := OwedFinished(p, secret, st.transcript, middle).value;
    var messages := middle + [fin];
    SealedOpens(p, keys, st.rxSeq, recs, messages);
    var verify := FinishedVerifyData(p, secret, false, p.sha256(Fed(st.transcript, middle, |middle|)));
    VerifyDataSize(p, secret, p.sha256(Fed(st.transcript, middle, |middle|)));
    FinishedRoundTrip(verify);
    SameFed(st.transcript, middle, messages, |middle|);
    assert HasType(fin, HS_FINISHED);
    hide Fed, Opened;
  }

  lemma VerifyDataSize(p: Primitives, secret: bytes, hash: bytes)
    requires Lawful(p)
    ensures |FinishedVerifyData(p, secret, false, hash)| == 32
  {
  }

  /**
   A server that answers with a key the client can agree on, then any messages that are not
   a Finished, then the Finished it owes, each sealed under the handshake keys, is accepted.
   */
  lemma HonestServerAccepted(p: Primitives, priv: bytes, st: Progress, recs: seq<Record>, h: ServerPart,
                             middle: seq<bytes>)
    requires Lawful(p) && h.Fits() && Agree(p, priv, h.pub).Some?
    requires forall i :: 0 <= i < |middle| ==> SplitHandshake(middle[i]).Ok? && !HasType(middle[i], HS_FINISHED)
    requires |recs| > 0 && recs[0].payload == h.Message()
    requires var secret, base := Agree(p, priv, h.pub).value, st.transcript + h.Message();
      var fin := OwedFinished(p, secret, base, middle);
      fin.Ok? ==> SealedUnder(p, HandshakeKeys(p, secret, p.sha256(base)), (st.rxSeq + 1) % TWO_64, recs[1..],
                              middle + [fin.value])
    ensures var f := ServerFlight(p, priv, st, recs);
      f.Some? && f.value.used == 2 + |middle| && f.value.serverPub == h.pub
      && f.value.secret == Agree(p, priv, h.pub).value
  {
    hide SplitHandshake, AcceptHello, HandshakeKeys, Agree, SealedUnder, FinishedVerifyData, Fed, Accepts;
    hide CertHash, LastTickets, HasType, ServerPart.Message, ServerPart.Fits, ServerFlight, After;
    var secret, base := Agree(p, priv, h.pub).value, st.transcript + h.Message();
    var keys, st1 := HandshakeKeys(p, secret, p.sha256(base)), HelloFed(st, h.Message());
    HelloAccepted(p, priv, st.transcript, h);
    VerifyDataSize(p, secret, p.sha256(Fed(base, middle, |middle|)));
    var fin := OwedFinished(p, secret, base, middle).value;
    var messages := middle + [fin];
    FinishedAccepted(p, keys, secret, st1, recs[1..], middle);
    SealedCount(p, keys, st1.rxSeq, recs[1..], messages);
    var m := |messages|;
    var f := Flight(1 + m, h.pub, secret, keys, Fed(base, messages, m), CertHash(p, st1, messages, m - 1),
                    p.sha256(Fed(base, messages, m - 1)), LastTickets(st1, messages, m - 1));
    FlightAccepted(p, priv, st, recs, messages, f);
  }

  lemma SealedCount(p: Primitives, keys: TrafficKeys, rxSeq: uint64, recs: seq<Record>, messages: seq<bytes>)
    requires keys.Valid() && SealedUnder(p, keys, rxSeq, recs, messages)
    ensures |messages| <= |recs|
  {
  }

  // ---- in bytes ----

  /** Behind version, cipher, random and a four-byte length: a key share, or else a search for one. */
  lemma ServerHelloIs(version: bytes, c1: byte, c2: byte, random: bytes, a: byte, b: byte, c: byte, d: byte,
                      rest: bytes)
    requires |version| == 2 && |random| == 32
    ensures var n := a * 0x100_0000 + b * 0x1_0000 + c * 0x100 + d;
      var sh := ParseServerHello(version + [c1, c2] + random + [a, b, c, d] + rest);
      && (n > |rest| ==> sh == Err)
      && (n == 0 || (0 < n <= |rest| && rest[0] != 1) ==>
            sh == Ok(ServerHello(random, c1 * 0x100 + c2, 1, FirstKeyShare(rest[..n], 0))))
      && (0 < n <= |rest| && rest[0] == 1 ==> sh == KeyShareOf(random, c1 * 0x100 + c2, rest[..n]))
  {
    var body := version + [c1, c2] + random + [a, b, c, d] + rest;
    var n := a * 0x100_0000 + b * 0x1_0000 + c * 0x100 + d;
    assert body[2..4] == [c1, c2] && body[4..36] == random && body[36..40] == [a, b, c, d];
    BigEndian16(c1, c2);
    BigEndian32(a, b, c, d);
    hide FromBe16, FromBe32, FirstKeyShare;
    if n <= |rest| {
      assert body[40..40 + n] == rest[..n];
      if n > 0 {
        ShareIs(random, c1 * 0x100 + c2, rest[..n]);
      }
    }
  }

  /** Of the key share only the group, at 7, and the key, behind its length at 11, are looked at. */
  function KeyShareOf(random: bytes, cipher: uint16, ext: bytes): Result<ServerHello> {
    if |ext| < 13 then Err
    else
      var group: uint32 :=
        ext[7] as int * 0x100_0000 + ext[8] as int * 0x1_0000 + ext[9] as int * 0x100 + ext[10] as int;
      var klen := ext[11] as int * 0x100 + ext[12] as int;
      if 13 + klen > |ext| then Err else Ok(ServerHello(random, cipher, group, ext[13..13 + klen]))
  }

  lemma ShareIs(random: bytes, cipher: uint16, ext: bytes)
    ensures |ext| >= 13 ==>
      && FromBe32(ext[7..11])
         == ext[7] as int * 0x100_0000 + ext[8] as int * 0x1_0000 + ext[9] as int * 0x100 + ext[10] as int
      && FromBe16(ext[11..13]) == ext[11] as int * 0x100 + ext[12] as int
  {
    if |ext| >= 13 {
      assert ext[7..11] == [ext[7], ext[8], ext[9], ext[10]] && ext[11..13] == [ext[11], ext[12]];
      BigEndian32(ext[7], ext[8], ext[9], ext[10]);
      BigEndian16(ext[11], ext[12]);
    }
  }

  /** A hello is accepted exactly if it is of type 2, over group 1 and with a key to agree on. */
  lemma HelloExactly(p: Primitives, priv: bytes, base: bytes, hello: bytes)
    requires Lawful(p)
    ensures var h, a := SplitHandshake(hello), AcceptHello(p, priv, base, hello);
      a.Some? <==> h.Ok? && h.value.msgType == 2
                   && var sh := ParseServerHello(h.value.body);
                      sh.Ok? && sh.value.serverGroup == 1 && p.agree(priv, sh.value.serverPubKey).Some?
    ensures var h, a := SplitHandshake(hello), AcceptHello(p, priv, base, hello);
      a.Some? ==>
        var sh := ParseServerHello(h.value.body).value;
        var secret := p.sha256(p.agree(priv, sh.serverPubKey).value);
        a.value == Agreement(sh.serverPubKey, secret, HandshakeKeys(p, secret, p.sha256(base + hello)))
  {
    hide SplitHandshake, ParseServerHello, HandshakeKeys;
  }

  /** Type 0f takes the hash of the transcript with it, type 4 lists the tickets, others are only fed. */
  lemma NoteIs(p: Primitives, st: Progress, message: bytes, msgType: byte, body: bytes)
    requires SplitHandshake(message) == Ok(Handshake(msgType, body))
    ensures var fed, n := st.transcript + message, (st.rxSeq + 1) % 0x1_0000_0000_0000_0000;
      Note(p, st, message)
      == if msgType == 0x0f then Progress(fed, Some(p.sha256(fed)), st.tickets, n)
         else if msgType == 4 then Progress(fed, st.hCertV, Tickets(body), n)
         else Progress(fed, st.hCertV, st.tickets, n)
  {
    hide SplitHandshake, Tickets;
  }

  /** The server's Finished is good exactly if it holds the HMAC under the server's label of the transcript so far. */
  lemma FinishedOkIs(p: Primitives, secret: bytes, st: Progress, body: bytes, message: bytes, server: bytes)
    requires Lawful(p) && SplitHandshake(message) == Ok(Handshake(0x14, body)) && Spells(server, "server finished")
    requires |body| == 34 && body[0] == 0 && body[1] == 32
    ensures FinishedOk(p, secret, st, message)
            <==> body[2..] == p.hmac(p.hmac(secret, server + [1]), p.sha256(st.transcript))
  {
    AsciiSpells("client finished");
    VerifyDataIs(p, secret, p.sha256(st.transcript), Ascii("client finished"), server);
    FinishedRead(0, 32, body[2..]);
    assert body == [0, 32] + body[2..] && body[2..][..32] == body[2..];
    hide SplitHandshake, ParseFinished, FinishedVerifyData;
  }
}
