/**
 Session payloads (internal/protocol/ilink.go): the nested request message, the packet
 that carries it encrypted, and the decryption that looks for the payload in a reply.
 */
module Ilink {
  import opened Wire
  import opened Wrappers
  import opened Protobuf
  import opened RecordCrypto
  import Lz4
  import Records
  import Varint
  import Wpkg

  // ---- decrypting a session payload ----

  /** No reply slice opened, some slice did, or the header decoder panicked. */
  datatype Opened = Plain(plaintext: bytes) | Failed | Crashed

  /** One attempt: the blob must decrypt and its content decompress. */
  function Attempt(p: Primitives, key: bytes, blob: bytes): Result<bytes> {
    match DecryptLayout(p, key, [], blob)
    case Err => Err
    case Ok(comp) => Lz4.Decode(comp)
  }

  function TryAt(p: Primitives, key: bytes, body: bytes, off: nat): Result<bytes> {
    if off >= |body| || |body| - off < 29 then Err else Attempt(p, key, body[off..])
  }

  /** The outcome of the first offset that works. */
  function FirstOpening(p: Primitives, key: bytes, body: bytes, offsets: seq<nat>): Opened {
    if offsets == [] then Failed
    else match TryAt(p, key, body, offsets[0])
         case Ok(plaintext) => Plain(plaintext)
         case Err => FirstOpening(p, key, body, offsets[1..])
  }

  function UpTo(n: nat): seq<nat> {
    seq(n, i => i)
  }

  /** The offset behind a decodable header, then everything near the start. */
  ghost function Offsets(body: bytes): seq<nat>
    requires |body| < TWO_63
  {
    var head := Wpkg.Decode(body);
    (if head.Decoded? then [head.length] else []) + UpTo(if |body| < 220 then |body| else 220)
  }

  ghost function Session(p: Primitives, key: bytes, body: bytes): Opened
    requires |body| < TWO_63
  {
    if Wpkg.Decode(body).Panic? then Crashed else FirstOpening(p, key, body, Offsets(body))
  }

  lemma {:induction false} FirstOpeningAppend(p: Primitives, key: bytes, body: bytes, a: seq<nat>, off: nat)
    requires FirstOpening(p, key, body, a) == Failed
    ensures FirstOpening(p, key, body, a + [off]) ==
            match TryAt(p, key, body, off) case Ok(pt) => Plain(pt) case Err => Failed
    ensures forall x :: x in a ==> TryAt(p, key, body, x).Err?
  {
    hide TryAt;
    if a == [] {
      assert [off][1..] == [] && a + [off] == [off];
    } else {
      FirstOpeningAppend(p, key, body, a[1..], off);
      assert (a + [off])[1..] == a[1..] + [off];
      assert forall x :: x in a <==> x == a[0] || x in a[1..];
    }
  }

  lemma {:induction false} FirstOpeningPrefix(p: Primitives, key: bytes, body: bytes, a: seq<nat>, b: seq<nat>)
    requires a <= b && FirstOpening(p, key, body, a) != Failed
    ensures FirstOpening(p, key, body, b) == FirstOpening(p, key, body, a)
  {
    hide TryAt;
    if TryAt(p, key, body, a[0]).Err? {
      FirstOpeningPrefix(p, key, body, a[1..], b[1..]);
    }
  }

  /** Skipping offsets already seen changes nothing: they have failed before. */
  method SessionDecrypt(p: Primitives, key: bytes, body: bytes) returns (r: Opened)
    requires |body| < TWO_63
    ensures r == Session(p, key, body)
  {
    hide DecryptLayout, Lz4.Decode, Wpkg.Decode, FirstOpening, UpTo;
    var offsets: seq<nat> := [];
    var head := Wpkg.DecodeWpkgHead(body);
    if head.Panic? {
      return Crashed;
    }
    if head.Decoded? {
      offsets := [head.length];
    }
    offsets := offsets + UpTo(if |body| < 220 then |body| else 220);
    assert offsets == Offsets(body);
    hide Offsets;
    var seen: set<nat> := {};
    assert FirstOpening(p, key, body, offsets[..0]) == Failed by { NoneTried(p, key, body, offsets); }
    for j := 0 to |offsets|
      invariant FirstOpening(p, key, body, offsets[..j]) == Failed
      invariant forall x :: x in seen ==> x in offsets[..j]
    {
      var off := offsets[j];
      assert offsets[..j + 1] == offsets[..j] + [off];
      FirstOpeningAppend(p, key, body, offsets[..j], off);
      if off in seen || off >= |body| {
        continue;
      }
      seen := seen + {off};
      var blob := body[off..];
      if |blob| < 29 {
        continue;
      }
      var comp := DecryptLayout(p, key, [], blob);
      if comp.Err? {
        continue;
      }
      var pt := Lz4.Lz4Decompress(comp.value);
      if pt.Ok? {
        FirstOpeningPrefix(p, key, body, offsets[..j + 1], offsets);
        return Plain(pt.value);
      }
    }
    assert offsets[..|offsets|] == offsets;
    r := Failed;
  }

  lemma NoneTried(p: Primitives, key: bytes, body: bytes, offsets: seq<nat>)
    ensures FirstOpening(p, key, body, offsets[..0]) == Failed
  {
  }

  /** The all-literal compression of a plaintext, as the sender produces it. */
  function Compressed(plaintext: bytes): bytes {
    Lz4.EncodeTail(Lz4.Tail(plaintext, 0))
  }

  /**
   Every plaintext, the empty one included, survives: behind a header with any positive
   keys, the header's own length is the first offset tried, and the blob behind it is
   never shorter than 29 bytes.
   */
  lemma SessionRoundTrip(p: Primitives, key: bytes, iv: bytes, head: bytes, ints: map<int, uint64>,
                         byts: map<int, bytes>, plaintext: bytes)
    requires Lawful(p) && |iv| == 12 && ValidKey(key)
    requires Wpkg.ValidKeys(ints) && Wpkg.ValidKeys(byts) && Wpkg.IsHead(head, ints, byts)
    requires |head| + |Compressed(plaintext)| + 28 < TWO_63
    ensures var blob := EncryptLayout(p, key, [], iv, Compressed(plaintext));
      && blob.Ok? && |blob.value| == |Compressed(plaintext)| + 28 >= 29
      && Session(p, key, head + blob.value) == Plain(plaintext)
  {
    LayoutRoundTrip(p, key, [], iv, Compressed(plaintext));
    var blob := EncryptLayout(p, key, [], iv, Compressed(plaintext)).value;
    var body := head + blob;
    CompressedNotEmpty(plaintext);
    Lz4.AllLiteralRoundTrip(plaintext);
    Wpkg.HeadRoundTrip(head, ints, byts, blob);
    assert body[|head|..] == blob;
    hide EncryptLayout, DecryptLayout, Lz4.Decode, Wpkg.Decode, Compressed, UpTo;
    assert Offsets(body)[0] == |head|;
  }

  lemma CompressedNotEmpty(plaintext: bytes)
    ensures |Compressed(plaintext)| >= 1
  {
  }

  /**
   The search said without lists: the offset behind a decodable header counts first, then
   the first of 220 offsets from the start that opens.
   */
  lemma SessionExactly(p: Primitives, key: bytes, body: bytes, plaintext: bytes)
    requires |body| < TWO_63
    ensures var head := Wpkg.Decode(body);
      && (Session(p, key, body) == Crashed <==> head.Panic?)
      && (Session(p, key, body) == Plain(plaintext) <==>
            || (head.Decoded? && TryAt(p, key, body, head.length) == Ok(plaintext))
            || (!head.Panic? && (head.Decoded? ==> TryAt(p, key, body, head.length).Err?)
                && FirstOf(p, key, body, plaintext)))
  {
    hide TryAt, Wpkg.Decode, FirstOpening, UpTo, FirstOf;
    var head := Wpkg.Decode(body);
    var n := if |body| < 220 then |body| else 220;
    NeverCrashes(p, key, body, Offsets(body));
    OpeningUpTo(p, key, body, n, plaintext);
    assert FirstOf(p, key, body, plaintext) <==> FirstOpening(p, key, body, UpTo(n)) == Plain(plaintext) by {
      FirstOfIs(p, key, body, plaintext);
    }
    if head.Decoded? {
      FirstTried(p, key, body, head.length, UpTo(n));
    } else {
      assert [] + UpTo(n) == UpTo(n);
    }
  }

  /** Some offset below 220 opens, and the first one that does gives this plaintext. */
  ghost predicate FirstOf(p: Primitives, key: bytes, body: bytes, plaintext: bytes) {
    exists off: nat :: off < 220 && off < |body| && TryAt(p, key, body, off) == Ok(plaintext)
                       && forall k: nat :: k < off ==> TryAt(p, key, body, k).Err?
  }

  lemma FirstOfIs(p: Primitives, key: bytes, body: bytes, plaintext: bytes)
    ensures var n := if |body| < 220 then |body| else 220;
      FirstOf(p, key, body, plaintext)
      <==> exists off: nat :: off < n && TryAt(p, key, body, off) == Ok(plaintext)
                              && forall k: nat :: k < off ==> TryAt(p, key, body, k).Err?
  {
    hide TryAt;
  }

  lemma {:induction false} NeverCrashes(p: Primitives, key: bytes, body: bytes, offsets: seq<nat>)
    ensures !FirstOpening(p, key, body, offsets).Crashed?
  {
    hide TryAt;
    if offsets == [] {
    } else {
      NeverCrashes(p, key, body, offsets[1..]);
    }
  }

  lemma FirstTried(p: Primitives, key: bytes, body: bytes, off: nat, rest: seq<nat>)
    ensures FirstOpening(p, key, body, [off] + rest)
            == match TryAt(p, key, body, off) case Ok(pt) => Plain(pt) case Err => FirstOpening(p, key, body, rest)
  {
    hide TryAt;
    assert ([off] + rest)[1..] == rest;
  }

  lemma {:induction false} OpeningUpTo(p: Primitives, key: bytes, body: bytes, n: nat, plaintext: bytes)
    ensures FirstOpening(p, key, body, UpTo(n)) == Failed <==> forall k: nat :: k < n ==> TryAt(p, key, body, k).Err?
    ensures FirstOpening(p, key, body, UpTo(n)) == Plain(plaintext)
            <==> exists off: nat :: off < n && TryAt(p, key, body, off) == Ok(plaintext)
                                    && forall k: nat :: k < off ==> TryAt(p, key, body, k).Err?
    ensures !FirstOpening(p, key, body, UpTo(n)).Crashed?
  {
    hide TryAt;
    if n == 0 {
    } else {
      OpeningUpTo(p, key, body, n - 1, plaintext);
      assert UpTo(n) == UpTo(n - 1) + [n - 1];
      hide UpTo, FirstOpening;
      if FirstOpening(p, key, body, UpTo(n - 1)) == Failed {
        FirstOpeningAppend(p, key, body, UpTo(n - 1), n - 1);
      } else {
        FirstOpeningPrefix(p, key, body, UpTo(n - 1), UpTo(n));
      }
    }
  }

  /** A slice is tried from 29 bytes on: ciphertext, twelve bytes of iv, sixteen of tag, no additional data. */
  lemma TryIs(p: Primitives, key: bytes, before: bytes, ct: bytes, iv: bytes, tag: bytes)
    requires |iv| == 12 && |tag| == 16 && |key| == 16
    ensures TryAt(p, key, before + ct + iv + tag, |before|)
            == if ct == [] then Err
               else match p.open(key, iv, ct + tag, [])
                    case Some(comp) => Lz4.Decode(comp)
                    case None => Err
  {
    hide Lz4.Decode;
    var body, blob := before + ct + iv + tag, ct + iv + tag;
    assert body[|before|..] == blob;
    var n := |ct|;
    assert blob[..n] == ct && blob[n..n + 12] == iv && blob[n + 12..] == tag;
  }

  // ---- the request message ----

  const SESS_CLIENT_VER: uint64 := 1661404927
  const JS_LOGIN_CMD_ID: uint64 := 1029

  function SessionInfo(uin32: uint32, win: bytes, device: bytes): seq<Field> {
    [LenField(1, Ascii("sessionkey")), VarField(2, uin32), LenField(3, device),
     VarField(4, SESS_CLIENT_VER), LenField(5, win), VarField(6, 0)]
  }

  /** The login request built when the caller passes none. */
  function LoginRequest(uin32: uint32, appId: bytes, device: bytes): seq<Field> {
    [LenField(1, EncodeAll(SessionInfo(uin32, Ascii("UnifiedPCWindows"), device))), LenField(2, appId),
     VarField(4, 1), LenField(5, []), LenField(6, []), VarField(7, 1)]
  }

  datatype Request = Request(uin: int, appId: bytes, transUrl: bytes, transCmdId: uint64,
                             loginReq: Option<bytes>, hostAppId: bytes, device: bytes)
  {
    /** `uint32(uin)`. */
    function Uin32(): uint32 { uin % 0x1_0000_0000 }

    function Url(): bytes {
      if transUrl == [] then Ascii("/cgi-bin/mmbiz-bin/js-login") else transUrl
    }

    function CmdId(): uint64 {
      if transCmdId == 0 then JS_LOGIN_CMD_ID else transCmdId
    }

    function Host(): bytes {
      if hostAppId == [] then Ascii("wxd44977328b36e647") else hostAppId
    }

    function Login(): bytes {
      match loginReq
      case None => EncodeAll(LoginRequest(Uin32(), appId, device))
      case Some(body) => body
    }

    function Fields(): seq<Field> {
      [LenField(1, EncodeAll(SessionInfo(Uin32(), Ascii("Windows"), device))), LenField(2, Url()),
       LenField(3, Host()), VarField(4, 5), LenField(5, Login()), LenField(6, appId), VarField(7, CmdId()),
       VarField(8, 1610627409), LenField(9, Ascii("WindowsxWebPlugin")), VarField(10, 573651281)]
    }
  }

  method BuildSessionInfo(uin32: uint32, win: bytes, device: bytes) returns (out: bytes)
    ensures out == EncodeAll(SessionInfo(uin32, win, device))
  {
    ghost var fs := SessionInfo(uin32, win, device);
    hide PbLen, PbVar, Ascii, EncodeAll;
    EncodeNext(fs, 0); EncodeNext(fs, 1); EncodeNext(fs, 2);
    EncodeNext(fs, 3); EncodeNext(fs, 4); EncodeNext(fs, 5);
    out := [];
    out := out + PbLen(1, Ascii("sessionkey"));
    out := out + PbVar(2, uin32);
    out := out + PbLen(3, device);
    out := out + PbVar(4, SESS_CLIENT_VER);
    out := out + PbLen(5, win);
    out := out + PbVar(6, 0);
  }

  method BuildLoginRequest(uin32: uint32, appId: bytes, device: bytes) returns (out: bytes)
    ensures out == EncodeAll(LoginRequest(uin32, appId, device))
    ensures |out| < TWO_63 ==> IsLoginRequest(out, uin32, appId, device)
  {
    hide IsLoginRequest;
    var info := BuildSessionInfo(uin32, Ascii("UnifiedPCWindows"), device);
    ghost var fs := LoginRequest(uin32, appId, device);
    hide PbLen, PbVar, Ascii, EncodeAll;
    EncodeNext(fs, 0); EncodeNext(fs, 1); EncodeNext(fs, 2);
    EncodeNext(fs, 3); EncodeNext(fs, 4); EncodeNext(fs, 5);
    out := [];
    out := out + PbLen(1, info);
    out := out + PbLen(2, appId);
    out := out + PbVar(4, 1);
    out := out + PbLen(5, []);
    out := out + PbLen(6, []);
    out := out + PbVar(7, 1);
    if |out| < TWO_63 {
      LoginIs(uin32, appId, device);
    }
  }

  /** `device` is the random device name when the caller gives none. */
  method BuildJsapiPlaintext(r: Request) returns (out: bytes)
    ensures out == EncodeAll(r.Fields())
    ensures |out| < TWO_63 ==> IsRequest(out, r)
  {
    hide IsRequest;
    var loginReq: bytes;
    match r.loginReq {
      case None => loginReq := BuildLoginRequest(r.Uin32(), r.appId, r.device);
      case Some(body) => loginReq := body;
    }
    var info := BuildSessionInfo(r.Uin32(), Ascii("Windows"), r.device);
    ghost var fs := r.Fields();
    hide PbLen, PbVar, Ascii, EncodeAll, SessionInfo;
    EncodeNext(fs, 0); EncodeNext(fs, 1); EncodeNext(fs, 2); EncodeNext(fs, 3); EncodeNext(fs, 4);
    EncodeNext(fs, 5); EncodeNext(fs, 6); EncodeNext(fs, 7); EncodeNext(fs, 8); EncodeNext(fs, 9);
    out := [];
    out := out + PbLen(1, info);
    out := out + PbLen(2, r.Url());
    out := out + PbLen(3, r.Host());
    out := out + PbVar(4, 5);
    out := out + PbLen(5, loginReq);
    out := out + PbLen(6, r.appId);
    out := out + PbVar(7, r.CmdId());
    out := out + PbVar(8, 1610627409);
    out := out + PbLen(9, Ascii("WindowsxWebPlugin"));
    out := out + PbVar(10, 573651281);
    if |out| < TWO_63 {
      RequestIs(r, out);
    }
  }

  /** A short message whose payloads are Go slices parses back field by field. */
  lemma SmallMessageRecovered(fs: seq<Field>)
    requires |EncodeAll(fs)| < TWO_63 && DistinctNumbers(fs)
    requires forall i :: 0 <= i < |fs| ==> 0 <= fs[i].num <= 15
    ensures Recovers(Parse(EncodeAll(fs)), fs)
  {
    hide Recovers, Parse;
    forall i | 0 <= i < |fs| ensures fs[i].Valid() {
      FieldFits(fs, i);
    }
    DistinctRecovered(fs);
  }

  lemma {:induction false} FieldFits(fs: seq<Field>, i: nat)
    requires i < |fs|
    ensures |EncodeField(fs[i])| <= |EncodeAll(fs)|
    ensures fs[i].LenField? ==> |fs[i].data| <= |EncodeAll(fs)|
  {
    hide Varint.Encode;
    if i == 0 {
    } else {
      FieldFits(fs[1..], i - 1);
    }
  }

  /** The request is recovered, and so is the session info nested in its first field. */
  lemma RequestRecovered(r: Request)
    requires |EncodeAll(r.Fields())| < TWO_63
    ensures Recovers(Parse(EncodeAll(r.Fields())), r.Fields())
    ensures var info := SessionInfo(r.Uin32(), Ascii("Windows"), r.device);
      |EncodeAll(info)| < TWO_63 && Recovers(Parse(EncodeAll(info)), info)
  {
    hide Recovers, Parse, EncodeAll, Ascii, SessionInfo, Request.Url, Request.Host, Request.Login, Request.CmdId;
    SmallMessageRecovered(r.Fields());
    FieldFits(r.Fields(), 0);
    SessionInfoRecovered(r.Uin32(), Ascii("Windows"), r.device);
  }

  lemma SessionInfoRecovered(uin32: uint32, win: bytes, device: bytes)
    requires |EncodeAll(SessionInfo(uin32, win, device))| < TWO_63
    ensures Recovers(Parse(EncodeAll(SessionInfo(uin32, win, device))), SessionInfo(uin32, win, device))
  {
    hide Recovers, Parse, EncodeAll, Ascii;
    SmallMessageRecovered(SessionInfo(uin32, win, device));
  }

  /** A default login request is recovered from the fifth field, down to its own session info. */
  lemma LoginRecovered(r: Request)
    requires |EncodeAll(r.Fields())| < TWO_63 && r.loginReq.None?
    ensures var login := LoginRequest(r.Uin32(), r.appId, r.device);
      var info := SessionInfo(r.Uin32(), Ascii("UnifiedPCWindows"), r.device);
      && |EncodeAll(login)| < TWO_63 && |EncodeAll(info)| < TWO_63
      && Recovers(Parse(r.Login()), login) && Recovers(Parse(EncodeAll(info)), info)
  {
    hide Recovers, Parse, EncodeAll, Ascii, SessionInfo, Request.Url, Request.Host, Request.CmdId;
    var login := LoginRequest(r.Uin32(), r.appId, r.device);
    FieldFits(r.Fields(), 4);
    SmallMessageRecovered(login);
    FieldFits(login, 0);
    SessionInfoRecovered(r.Uin32(), Ascii("UnifiedPCWindows"), r.device);
  }

  // ---- the request as whoever parses it finds it ----

  /** The six fields of a session info. */
  ghost predicate IsSessionInfo(info: bytes, uin32: uint32, win: string, device: bytes) {
    |info| < TWO_63 &&
    match Parse(info)
    case Panic => false
    case Fields(m) =>
      && m.Keys == {1, 2, 3, 4, 5, 6}
      && m[1].Raw? && Spells(m[1].data, "sessionkey")
      && m[2] == Int(uin32)
      && m[3] == Raw(device)
      && m[4] == Int(1661404927)
      && m[5].Raw? && Spells(m[5].data, win)
      && m[6] == Int(0)
  }

  /** The login request made when the caller passes none. */
  ghost predicate IsLoginRequest(login: bytes, uin32: uint32, appId: bytes, device: bytes) {
    |login| < TWO_63 &&
    match Parse(login)
    case Panic => false
    case Fields(m) =>
      && m.Keys == {1, 2, 4, 5, 6, 7}
      && m[1].Raw? && IsSessionInfo(m[1].data, uin32, "UnifiedPCWindows", device)
      && m[2] == Raw(appId)
      && m[4] == Int(1)
      && m[5] == Raw([])
      && m[6] == Raw([])
      && m[7] == Int(1)
  }

  /** The ten fields of a request, down to the nested messages. */
  ghost predicate IsRequest(out: bytes, r: Request) {
    |out| < TWO_63 &&
    match Parse(out)
    case Panic => false
    case Fields(m) =>
      && m.Keys == {1, 2, 3, 4, 5, 6, 7, 8, 9, 10}
      && m[1].Raw? && IsSessionInfo(m[1].data, r.uin % 0x1_0000_0000, "Windows", r.device)
      && m[2].Raw? && IsOr(m[2].data, r.transUrl, "/cgi-bin/mmbiz-bin/js-login")
      && m[3].Raw? && IsOr(m[3].data, r.hostAppId, "wxd44977328b36e647")
      && m[4] == Int(5)
      && m[5].Raw? && (match r.loginReq
                       case Some(login) => m[5].data == login
                       case None => IsLoginRequest(m[5].data, r.uin % 0x1_0000_0000, r.appId, r.device))
      && m[6] == Raw(r.appId)
      && m[7] == Int(if r.transCmdId == 0 then 1029 else ToInt64(r.transCmdId))
      && m[8] == Int(1610627409)
      && m[9].Raw? && Spells(m[9].data, "WindowsxWebPlugin")
      && m[10] == Int(573651281)
  }

  /** What the caller gives, or this text when it gives nothing. */
  ghost predicate IsOr(data: bytes, given: bytes, text: string) {
    if given == [] then Spells(data, text) else data == given
  }

  /** The fields one by one, from the list of them. */
  lemma FieldFound(parsed: Parsed, fs: seq<Field>, i: nat)
    requires Recovers(parsed, fs) && i < |fs|
    ensures parsed.Fields? && fs[i].num in parsed.values
    ensures fs[i].LenField? ==> parsed.values[fs[i].num] == Raw(fs[i].data)
    ensures fs[i].VarField? ==>
      parsed.values[fs[i].num] == Int(if fs[i].n < TWO_63 then fs[i].n else fs[i].n - TWO_64)
  {
  }

  ghost function Numbers(fs: seq<Field>): set<int> {
    set i: nat | i < |fs| :: fs[i].num
  }

  lemma NumbersFound(parsed: Parsed, fs: seq<Field>)
    requires Recovers(parsed, fs)
    ensures parsed.Fields? && parsed.values.Keys == Numbers(fs)
  {
    hide Field.Stored;
    forall k ensures k in parsed.values <==> k in Numbers(fs) {
      if k in Numbers(fs) {
        var i: nat :| i < |fs| && fs[i].num == k;
      }
    }
  }

  /** The parsed info, its fields named as in the list sent. */
  lemma InfoFields(uin32: uint32, win: bytes, device: bytes, parsed: Parsed)
    requires Recovers(parsed, SessionInfo(uin32, win, device))
    ensures parsed.Fields? && parsed.values.Keys == {1, 2, 3, 4, 5, 6}
    ensures var m := parsed.values;
      && m[1] == Raw(Ascii("sessionkey")) && m[2] == Int(uin32) && m[3] == Raw(device)
      && m[4] == Int(1661404927) && m[5] == Raw(win) && m[6] == Int(0)
  {
    hide Ascii, Recovers, Field.Stored, ToInt64;
    var fs := SessionInfo(uin32, win, device);
    assert Numbers(fs) == {1, 2, 3, 4, 5, 6} by {
      assert fs[0].num == 1 && fs[1].num == 2 && fs[2].num == 3 && fs[3].num == 4 && fs[4].num == 5 && fs[5].num == 6;
    }
    hide Numbers;
    NumbersFound(parsed, fs);
    FieldFound(parsed, fs, 0); FieldFound(parsed, fs, 1); FieldFound(parsed, fs, 2);
    FieldFound(parsed, fs, 3); FieldFound(parsed, fs, 4); FieldFound(parsed, fs, 5);
  }

  lemma InfoIs(uin32: uint32, win: bytes, text: string, device: bytes)
    requires |EncodeAll(SessionInfo(uin32, win, device))| < TWO_63 && Spells(win, text)
    ensures IsSessionInfo(EncodeAll(SessionInfo(uin32, win, device)), uin32, text, device)
  {
    hide Parse, EncodeAll, Ascii, Recovers, Spells, SessionInfo;
    SessionInfoRecovered(uin32, win, device);
    AsciiSpells("sessionkey");
    InfoFields(uin32, win, device, Parse(EncodeAll(SessionInfo(uin32, win, device))));
  }

  lemma LoginFields(uin32: uint32, appId: bytes, device: bytes, parsed: Parsed)
    requires Recovers(parsed, LoginRequest(uin32, appId, device))
    ensures parsed.Fields? && parsed.values.Keys == {1, 2, 4, 5, 6, 7}
    ensures var m := parsed.values;
      && m[1] == Raw(EncodeAll(SessionInfo(uin32, Ascii("UnifiedPCWindows"), device))) && m[2] == Raw(appId)
      && m[4] == Int(1) && m[5] == Raw([]) && m[6] == Raw([]) && m[7] == Int(1)
  {
    hide Ascii, Recovers, Field.Stored, ToInt64, EncodeAll, SessionInfo;
    var fs := LoginRequest(uin32, appId, device);
    assert Numbers(fs) == {1, 2, 4, 5, 6, 7} by {
      assert fs[0].num == 1 && fs[1].num == 2 && fs[2].num == 4 && fs[3].num == 5 && fs[4].num == 6 && fs[5].num == 7;
    }
    hide Numbers;
    NumbersFound(parsed, fs);
    FieldFound(parsed, fs, 0); FieldFound(parsed, fs, 1); FieldFound(parsed, fs, 2);
    FieldFound(parsed, fs, 3); FieldFound(parsed, fs, 4); FieldFound(parsed, fs, 5);
  }

  lemma LoginIs(uin32: uint32, appId: bytes, device: bytes)
    requires |EncodeAll(LoginRequest(uin32, appId, device))| < TWO_63
    ensures IsLoginRequest(EncodeAll(LoginRequest(uin32, appId, device)), uin32, appId, device)
  {
    hide Parse, EncodeAll, Ascii, Recovers, SessionInfo, IsSessionInfo, Spells;
    var login := LoginRequest(uin32, appId, device);
    FieldFits(login, 0);
    SmallMessageRecovered(login);
    AsciiSpells("UnifiedPCWindows");
    InfoIs(uin32, Ascii("UnifiedPCWindows"), "UnifiedPCWindows", device);
    hide LoginRequest;
    LoginFields(uin32, appId, device, Parse(EncodeAll(login)));
  }

  lemma RequestFields(r: Request, parsed: Parsed)
    requires Recovers(parsed, r.Fields())
    ensures parsed.Fields? && parsed.values.Keys == {1, 2, 3, 4, 5, 6, 7, 8, 9, 10}
    ensures var m := parsed.values;
      && m[1] == Raw(EncodeAll(SessionInfo(r.uin % 0x1_0000_0000, Ascii("Windows"), r.device)))
      && m[2] == Raw(r.Url()) && m[3] == Raw(r.Host()) && m[4] == Int(5) && m[5] == Raw(r.Login())
      && m[6] == Raw(r.appId) && m[8] == Int(1610627409) && m[9] == Raw(Ascii("WindowsxWebPlugin"))
      && m[10] == Int(573651281)
      && m[7] == Int(if r.CmdId() < TWO_63 then r.CmdId() else r.CmdId() - TWO_64)
  {
    hide Ascii, Recovers, Field.Stored, EncodeAll, SessionInfo, Request.Url, Request.Host, Request.Login, Request.CmdId;
    var fs := r.Fields();
    assert Numbers(fs) == {1, 2, 3, 4, 5, 6, 7, 8, 9, 10} by {
      assert fs[0].num == 1 && fs[1].num == 2 && fs[2].num == 3 && fs[3].num == 4 && fs[4].num == 5 && fs[5].num == 6;
      assert fs[6].num == 7 && fs[7].num == 8 && fs[8].num == 9 && fs[9].num == 10;
    }
    hide Numbers;
    NumbersFound(parsed, fs);
    FieldFound(parsed, fs, 0); FieldFound(parsed, fs, 1); FieldFound(parsed, fs, 2); FieldFound(parsed, fs, 3);
    FieldFound(parsed, fs, 4); FieldFound(parsed, fs, 5); FieldFound(parsed, fs, 6); FieldFound(parsed, fs, 7);
    FieldFound(parsed, fs, 8); FieldFound(parsed, fs, 9);
  }

  /** The bytes of a request parse to what the caller asked for, field by field and level by level. */
  lemma RequestIs(r: Request, out: bytes)
    requires out == EncodeAll(r.Fields()) && |out| < TWO_63
    ensures IsRequest(out, r)
  {
    hide Parse, EncodeAll, Ascii, Recovers, SessionInfo, LoginRequest, IsSessionInfo, IsLoginRequest, Spells, ToInt64;
    RequestRecovered(r);
    RequestDefaults(r);
    AsciiSpells("Windows");
    AsciiSpells("WindowsxWebPlugin");
    InfoIs(r.uin % 0x1_0000_0000, Ascii("Windows"), "Windows", r.device);
    FieldFits(r.Fields(), 4);
    if r.loginReq.None? {
      LoginIs(r.uin % 0x1_0000_0000, r.appId, r.device);
    }
    hide Request.Fields, IsOr, Request.Url, Request.Host;
    RequestFields(r, Parse(out));
  }

  lemma RequestDefaults(r: Request)
    ensures IsOr(r.Url(), r.transUrl, "/cgi-bin/mmbiz-bin/js-login")
    ensures IsOr(r.Host(), r.hostAppId, "wxd44977328b36e647")
    ensures r.CmdId() == if r.transCmdId == 0 then 1029 else r.transCmdId
  {
    AsciiSpells("/cgi-bin/mmbiz-bin/js-login");
    AsciiSpells("wxd44977328b36e647");
    hide Ascii, Spells;
  }

  // ---- the packet around an encrypted payload ----

  const CLIENT_VERSION: uint64 := 524545
  const TRANSFER_CMD: uint32 := 0x0b41

  datatype AppSession = AppSession(sendKey: bytes, uin: int, f9: bytes, deviceId: bytes)
  {
    /** A Go int64. */
    ghost predicate Valid() { -TWO_63 <= uin < TWO_63 && |f9| < TWO_63 && |deviceId| < TWO_63 }
  }

  function SessionInts(uin: uint64): map<int, uint64> {
    map[1 := 1, 2 := uin, 3 := 0, 4 := 0, 5 := CLIENT_VERSION, 6 := 11, 7 := 0, 8 := 0, 9 := 0,
        10 := 1, 11 := 0, 12 := 0, 13 := 0, 17 := 0, 18 := 1, 20 := 1504, 21 := 0, 22 := uin,
        23 := 0, 25 := 16, 26 := 4, 28 := 1, 29 := 1, 30 := 0]
  }

  function SessionByts(s: AppSession): map<int, bytes> {
    map[14 := [], 24 := if s.deviceId == [] then Ascii("ilinkapp_060000b7b93f6c") else s.deviceId, 27 := s.f9]
  }

  function TransferUrl(): (r: bytes)
    ensures |r| == 38
  {
    Ascii("/ilink/ilinkapp/mp/wxaruntime_transfer")
  }

  function TransferHost(): (r: bytes)
    ensures |r| == 21
  {
    Ascii("shortcloud.weixin.com")
  }

  /** The url and host blocks in front of the inner packet's length. */
  function Preamble(): bytes {
    Be16(|TransferUrl()|) + TransferUrl() + Be16(|TransferHost()|) + TransferHost()
  }

  /** Both 32-bit lengths drop the upper half of a longer one. */
  function PacketBytes(inner: bytes): bytes {
    var env := Preamble() + Be32(|inner| % 0x1_0000_0000) + inner;
    Be32(|env| % 0x1_0000_0000) + env
  }

  /** The far end's view: the inner packet, if both lengths agree with what is there. */
  function OpenPacket(packet: bytes): Option<bytes> {
    var at := 4 + |Preamble()|;
    if |packet| < at + 4 || FromBe32(packet[..4]) != |packet| - 4 then None
    else if FromBe32(packet[at..at + 4]) != |packet| - at - 4 then None
    else Some(packet[at + 4..])
  }

  lemma AtSelf(s: bytes)
    ensures At(s, 0, s)
  {
  }

  lemma OpenPacketBytes(inner: bytes)
    requires |PacketBytes(inner)| - 4 < 0x1_0000_0000
    ensures OpenPacket(PacketBytes(inner)) == Some(inner) && |inner| + 4 <= |PacketBytes(inner)| - 4
  {
    hide Preamble, OpenPacket, Be32, At;
    var pre, n := Preamble(), |inner|;
    var env := pre + Be32(n) + inner;
    var packet := Be32(|env|) + env;
    assert PacketBytes(inner) == packet;
    AtSelf(packet);
    AtConcat(packet, 0, Be32(|env|), env);
    AtConcat(packet, 4, pre + Be32(n), inner);
    AtConcat(packet, 4, pre, Be32(n));
    OpenFromParts(packet, inner);
  }

  /** The leading length has four bytes, and a longer packet does not agree with it. */
  lemma LongPacketIsRefused(packet: bytes)
    requires |packet| - 4 >= 0x1_0000_0000
    ensures OpenPacket(packet).None?
  {
    hide Preamble, FromBe32;
  }

  lemma OpenFromParts(packet: bytes, inner: bytes)
    requires |packet| == 8 + |Preamble()| + |inner| < 4 + 0x1_0000_0000
    requires At(packet, 0, Be32(|packet| - 4)) && At(packet, 4 + |Preamble()|, Be32(|inner|))
    requires At(packet, 8 + |Preamble()|, inner)
    ensures OpenPacket(packet) == Some(inner)
  {
    hide Preamble;
    Be32RoundTrip(|inner|);
    Be32RoundTrip(|packet| - 4);
    hide Be32, FromBe32;
    assert packet[..4] == packet[0..0 + |Be32(|packet| - 4)|];
    assert packet[8 + |Preamble()|..] == packet[8 + |Preamble()|..8 + |Preamble()| + |inner|];
  }

  method SessionWpkgHead(session: AppSession) returns (head: bytes)
    requires session.Valid()
    ensures Wpkg.IsHead(head, SessionInts(ToUint64(session.uin)), SessionByts(session))
  {
    SessionKeysValid(session);
    hide SessionInts, SessionByts;
    head := Wpkg.WpkgHead(SessionInts(ToUint64(session.uin)), SessionByts(session));
  }

  lemma SessionKeysValid(s: AppSession)
    requires s.Valid()
    ensures Wpkg.ValidKeys(SessionInts(ToUint64(s.uin))) && Wpkg.ValidKeys(SessionByts(s))
  {
    hide Ascii;
  }

  /**
   `iv` is the random value of the encryption. Building fails exactly on a bad key. The
   packet can be opened exactly when the length behind its first four bytes fits them, and
   then carries the plaintext all the way to a receiver that opens the packet, the shortlink
   frame and the session payload with the same key.
   */
  method BuildTransferPacket(p: Primitives, session: AppSession, iv: bytes, plaintext: bytes)
    returns (r: Result<bytes>)
    requires Lawful(p) && |iv| == 12 && session.Valid()
    ensures r.Ok? <==> ValidKey(session.sendKey)
    ensures r.Ok? ==> (OpenPacket(r.value).Some? <==> |r.value| - 4 < 0x1_0000_0000)
    ensures r.Ok? && OpenPacket(r.value).Some? ==>
      && var inner := Records.ParseShortlink(OpenPacket(r.value).value);
         && inner.Packet? && inner.packet.cmd == 0x0b41 && inner.packet.seqNo == 0 && inner.packet.ver == 0x076d
         && |inner.packet.body| < TWO_63
         && Session(p, session.sendKey, inner.packet.body) == Plain(plaintext)
  {
    hide EncryptLayout, SessionInts, SessionByts, Ascii, PacketBytes, OpenPacket, Records.ShortlinkBytes;
    hide Session, Records.ParseShortlink, Wpkg.IsHead;
    var comp := Lz4.Lz4AllLiteral(plaintext);
    var enc := EncryptLayout(p, session.sendKey, [], iv, comp);
    assert enc.Ok? <==> ValidKey(session.sendKey) by { LayoutFailure(p, session.sendKey, iv, comp); }
    if enc.Err? {
      return Err;
    }
    var wpkg := SessionWpkgHead(session);
    var innerBody := wpkg + enc.value;
    var inner := Records.BuildShortlink(TRANSFER_CMD, 0, innerBody, Records.DEFAULT_VER);
    var env := Be16(|TransferUrl()|);
    env := env + TransferUrl();
    env := env + Be16(|TransferHost()|);
    env := env + TransferHost();
    env := env + Be32(|inner| % 0x1_0000_0000);
    env := env + inner;
    var out := Be32(|env| % 0x1_0000_0000) + env;
    r := Ok(out);
    assert out == PacketBytes(inner) by { PacketIs(inner); }
    if |out| - 4 < 0x1_0000_0000 {
      TransferOpens(p, session, iv, plaintext, wpkg, inner);
    } else {
      LongPacketIsRefused(out);
    }
  }

  lemma PacketIs(inner: bytes)
    ensures PacketBytes(inner) ==
            var env := Be16(|TransferUrl()|) + TransferUrl() + Be16(|TransferHost()|) + TransferHost()
                       + Be32(|inner| % 0x1_0000_0000) + inner;
            Be32(|env| % 0x1_0000_0000) + env
  {
  }

  lemma LayoutFailure(p: Primitives, key: bytes, iv: bytes, plaintext: bytes)
    requires Lawful(p) && |iv| == 12
    ensures EncryptLayout(p, key, [], iv, plaintext).Ok? <==> ValidKey(key)
  {
  }

  lemma TransferOpens(p: Primitives, session: AppSession, iv: bytes, plaintext: bytes, wpkg: bytes, inner: bytes)
    requires Lawful(p) && |iv| == 12 && session.Valid() && ValidKey(session.sendKey)
    requires Wpkg.IsHead(wpkg, SessionInts(ToUint64(session.uin)), SessionByts(session))
    requires var enc := EncryptLayout(p, session.sendKey, [], iv, Compressed(plaintext));
      enc.Ok? && inner == Records.ShortlinkBytes(TRANSFER_CMD, 0, wpkg + enc.value, Records.DEFAULT_VER)
    requires |PacketBytes(inner)| - 4 < 0x1_0000_0000
    ensures OpenPacket(PacketBytes(inner)) == Some(inner)
    ensures var found := Records.ParseShortlink(inner);
      && found.Packet? && found.packet.cmd == 0x0b41 && found.packet.seqNo == 0 && found.packet.ver == 0x076d
      && |found.packet.body| < TWO_63 && Session(p, session.sendKey, found.packet.body) == Plain(plaintext)
  {
    hide EncryptLayout, SessionInts, SessionByts, PacketBytes, OpenPacket, Session, Compressed, Wpkg.IsHead;
    hide Records.ParseShortlink;
    var enc := EncryptLayout(p, session.sendKey, [], iv, Compressed(plaintext)).value;
    OpenPacketBytes(inner);
    assert |inner| == 16 + |wpkg + enc|;
    hide Records.ShortlinkBytes;
    Records.ShortlinkRoundTrip(TRANSFER_CMD, 0, wpkg + enc, Records.DEFAULT_VER, []);
    assert inner + [] == inner;
    LayoutRoundTrip(p, session.sendKey, [], iv, Compressed(plaintext));
    SessionKeysValid(session);
    SessionRoundTrip(p, session.sendKey, iv, wpkg, SessionInts(ToUint64(session.uin)), SessionByts(session), plaintext);
  }

  /** The header's entries as its reader finds them, whatever follows. */
  lemma SessionHeadIs(session: AppSession, head: bytes, rest: bytes)
    requires session.Valid() && Wpkg.IsHead(head, SessionInts(ToUint64(session.uin)), SessionByts(session))
    requires |head + rest| < TWO_63
    ensures var d := Wpkg.Decode(head + rest);
      && d.Decoded? && d.length == |head| && d.byts.Keys == {14, 24, 27}
      && d.ints.Keys == {1, 2, 3, 4, 5, 6, 7, 8, 9, 10, 11, 12, 13, 17, 18, 20, 21, 22, 23, 25, 26, 28, 29, 30}
      && (forall k :: k in d.ints ==> d.ints[k] == SessionInt(k, ToUint64(session.uin)))
      && d.byts[14] == [] && IsOr(d.byts[24], session.deviceId, "ilinkapp_060000b7b93f6c") && d.byts[27] == session.f9
  {
    hide Wpkg.Decode, Wpkg.IsHead, Ascii, Spells, SessionInts, SessionInt, SessionByts, ToUint64;
    SessionKeysValid(session);
    Wpkg.HeadRoundTrip(head, SessionInts(ToUint64(session.uin)), SessionByts(session), rest);
    SessionIntKeys(ToUint64(session.uin));
    forall k | k in SessionInts(ToUint64(session.uin))
      ensures SessionInts(ToUint64(session.uin))[k] == SessionInt(k, ToUint64(session.uin))
    {
      SessionIntIs(k, ToUint64(session.uin));
    }
    SessionBytsAre(session);
  }

  lemma SessionBytsAre(s: AppSession)
    ensures var m := SessionByts(s);
      && m.Keys == {14, 24, 27}
      && m[14] == [] && IsOr(m[24], s.deviceId, "ilinkapp_060000b7b93f6c") && m[27] == s.f9
  {
    AsciiSpells("ilinkapp_060000b7b93f6c");
    hide Ascii, Spells;
  }

  lemma SessionIntKeys(uin: uint64)
    ensures SessionInts(uin).Keys
            == {1, 2, 3, 4, 5, 6, 7, 8, 9, 10, 11, 12, 13, 17, 18, 20, 21, 22, 23, 25, 26, 28, 29, 30}
  {
  }

  lemma SessionIntIs(k: int, uin: uint64)
    requires k in SessionInts(uin)
    ensures SessionInts(uin)[k] == SessionInt(k, uin)
  {
  }

  /** What stands under an integer key: the account twice, the client's version, and small constants. */
  function SessionInt(k: int, uin: uint64): uint64 {
    if k == 2 || k == 22 then uin
    else if k == 1 || k == 10 || k == 18 || k == 28 || k == 29 then 1
    else if k == 5 then 524545
    else if k == 6 then 11
    else if k == 20 then 1504
    else if k == 25 then 16
    else if k == 26 then 4
    else 0
  }

  /** The packet: its length, url and host behind two-byte lengths, the inner packet behind a four-byte one. */
  lemma PacketIsBytes(inner: bytes, url: bytes, host: bytes)
    requires |inner| + 67 < 0x1_0000_0000
    requires Spells(url, "/ilink/ilinkapp/mp/wxaruntime_transfer") && Spells(host, "shortcloud.weixin.com")
    ensures PacketBytes(inner) == Be32(67 + |inner|) + ([0, 38] + url + [0, 21] + host + Be32(|inner|) + inner)
  {
    hide Be32, Be16, Ascii;
    AsciiIs(url, "/ilink/ilinkapp/mp/wxaruntime_transfer");
    AsciiIs(host, "shortcloud.weixin.com");
    BigEndian16(0, 38);
    BigEndian16(0, 21);
  }
}
