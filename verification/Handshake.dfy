// The enrollment handshake: its frames, its payloads on both sides, and what an
// honest agent and server agree on at the end of it.

module Handshake {
  import opened Prelude
  import opened Wire
  import opened Channel

  const HEADER_SIZE: nat := 9

  const HELLO: Byte := 0x21
  const CHALLENGE: Byte := 0x22
  const REQUEST: Byte := 0x23
  const RESPONSE: Byte := 0x24
  const ACK: Byte := 0x25
  const ERROR: Byte := 0x26

  datatype Frame = Frame(msgType: Byte, seqNum: Word32, payload: Bytes)

  // ----- frames: the length field counts the header too ------------------------------------

  predicate Fits(f: Frame) {
    |f.payload| + HEADER_SIZE <= MAX_FRAME
  }

  function HeaderValues(f: Frame): seq<Value>
    requires Fits(f)
  {
    [U32(|f.payload| + HEADER_SIZE), U8(f.msgType), U32(f.seqNum)]
  }

  function FrameBytes(f: Frame): Bytes
    requires Fits(f)
  {
    Layout(HeaderValues(f)) + f.payload
  }

  datatype Received = Received(frame: Frame, size: nat)

  // what readFrame takes from the front of a stream
  function FrameAt(stream: Bytes): Option<Received> {
    if |stream| < HEADER_SIZE then None
    else
      var length := Word32At(stream, 0);
      if length > MAX_FRAME || length < HEADER_SIZE || |stream| < length then None
      else Some(Received(Frame(stream[4], Word32At(stream, 5), stream[HEADER_SIZE..length]), length))
  }

  lemma HeaderBytes(f: Frame)
    requires Fits(f)
    ensures Layout(HeaderValues(f)) == Bytes32(|f.payload| + HEADER_SIZE) + [f.msgType] + Bytes32(f.seqNum)
    ensures |FrameBytes(f)| == |f.payload| + HEADER_SIZE
  {
    hide Bytes32;
    var vs := HeaderValues(f);
    LayoutSnoc([], vs[0]);
    LayoutSnoc([vs[0]], vs[1]);
    LayoutSnoc([vs[0], vs[1]], vs[2]);
    assert Layout([]) == [] && [] + [vs[0]] == [vs[0]] && [vs[0]] + [vs[1]] == [vs[0], vs[1]];
    assert [vs[0], vs[1]] + [vs[2]] == vs;
  }

  // A frame on the wire: its whole length, its type and number, and the payload.
  lemma FrameLayout(f: Frame)
    requires Fits(f)
    ensures |f.payload| + 9 <= 65535
    ensures FrameBytes(f) == Bytes32(9 + |f.payload|) + [f.msgType] + Bytes32(f.seqNum) + f.payload
  {
    hide Bytes32, Layout;
    HeaderBytes(f);
  }

  lemma FrameSound(stream: Bytes)
    requires FrameAt(stream).Some?
    ensures var r := FrameAt(stream).value;
      Fits(r.frame) && FrameBytes(r.frame) <= stream && r.size == |FrameBytes(r.frame)|
  {
    hide Word32At, Bytes32, Layout;
    var length := Word32At(stream, 0);
    var g := FrameAt(stream).value.frame;
    HeaderBytes(g);
    Word32Exact(stream, 0, length);
    Word32Exact(stream, 5, g.seqNum);
    assert stream[..length] == stream[0..4] + [stream[4]] + stream[5..9] + stream[9..length];
    assert FrameBytes(g) == stream[..length];
  }

  lemma FrameComplete(stream: Bytes, f: Frame)
    requires Fits(f) && FrameBytes(f) <= stream
    ensures FrameAt(stream) == Some(Received(f, |FrameBytes(f)|))
  {
    hide Word32At, Bytes32, Layout;
    HeaderBytes(f);
    var b := FrameBytes(f);
    assert stream[..|b|] == b;
    assert b[0..4] == Bytes32(|f.payload| + HEADER_SIZE) && b[4] == f.msgType && b[5..9] == Bytes32(f.seqNum);
    assert stream[0..4] == b[0..4] && stream[5..9] == b[5..9] && stream[9..|b|] == b[9..] == f.payload;
    Word32Exact(stream, 0, |f.payload| + HEADER_SIZE);
    Word32Exact(stream, 5, f.seqNum);
  }

  // A stream yields this frame exactly when it begins with the frame's bytes.
  lemma FrameExact(stream: Bytes, f: Frame, size: nat)
    ensures FrameAt(stream) == Some(Received(f, size)) <==>
            Fits(f) && FrameBytes(f) <= stream && size == |FrameBytes(f)|
  {
    hide FrameAt, FrameBytes;
    if FrameAt(stream).Some? { FrameSound(stream); }
    if Fits(f) && FrameBytes(f) <= stream { FrameComplete(stream, f); }
  }

  // writeFrame (Go) and send_frame (C)
  method WriteFrame(f: Frame) returns (sent: Option<Bytes>)
    ensures sent == if Fits(f) then Some(FrameBytes(f)) else None
  {
    if |f.payload| + HEADER_SIZE > MAX_FRAME { return None; }
    HeaderBytes(f);
    var hdr := new Byte[HEADER_SIZE](_ => 0);
    Put(hdr, 0, Bytes32(|f.payload| + HEADER_SIZE));
    hdr[4] := f.msgType;
    assert hdr[..5] == hdr[0..4] + [hdr[4]];
    Put(hdr, 5, Bytes32(f.seqNum));
    assert hdr[..] == hdr[..5] + hdr[5..9];
    sent := Some(hdr[..] + f.payload);
  }

  // readFrame (Go) and read_frame (C) on what is left of a stream
  method ReadFrame(stream: Bytes) returns (r: Option<Received>)
    ensures r == FrameAt(stream)
  {
    if |stream| < HEADER_SIZE { return None; }
    var hdr := stream[..HEADER_SIZE];
    var length := Word32At(hdr, 0);
    if length > MAX_FRAME { return None; }
    if (length as int) - HEADER_SIZE < 0 { return None; }
    if |stream| - HEADER_SIZE < length - HEADER_SIZE { return None; }
    r := Some(Received(Frame(hdr[4], Word32At(hdr, 5), stream[HEADER_SIZE..length]), length));
  }

  // ----- payloads --------------------------------------------------------------------------------

  // A payload that must hold these fields and nothing behind them.
  lemma WholeExact(kinds: seq<Kind>, data: Bytes, vs: seq<Value>)
    ensures Parse(kinds, data, 0) == Some(Parsed(vs, |data|)) <==> Kinds(vs) == kinds && data == Layout(vs)
  {
    hide Parse, Layout, Kinds;
    ParseExact(kinds, data, 0, vs, |data|);
  }

  function Whole(kinds: seq<Kind>, data: Bytes): (r: Option<seq<Value>>)
    ensures r.Some? ==> Kinds(r.value) == kinds
  {
    match Parse(kinds, data, 0)
    case None => None
    case Some(p) => if p.pos != |data| then None else Some(p.values)
  }

  lemma WholeIs(kinds: seq<Kind>, data: Bytes, vs: seq<Value>)
    ensures Whole(kinds, data) == Some(vs) <==> Kinds(vs) == kinds && data == Layout(vs)
  {
    WholeExact(kinds, data, vs);
  }

  datatype Hello = Hello(enrollmentId: Text, clientNonce: Text)
  datatype Challenge = Challenge(serverNonce: Text, proof: Text)
  datatype Request = Request(hostname: Text, ip: Text, os: Text, monitorType: Byte)
  datatype Response = Response(agentId: Text, cert: Text, key: Text, ca: Text, expiresAt: Word64)

  function HelloKinds(): seq<Kind> { [KText, KText] }
  function RequestKinds(): seq<Kind> { [KText, KText, KText, K8] }
  function ResponseKinds(): seq<Kind> { [KText, KText, KText, KText, K64] }

  function HelloBytes(h: Hello): Bytes { Layout([Str(h.enrollmentId), Str(h.clientNonce)]) }
  function ChallengeBytes(c: Challenge): Bytes { Layout([Str(c.serverNonce), Str(c.proof)]) }
  function RequestBytes(q: Request): Bytes { Layout([Str(q.hostname), Str(q.ip), Str(q.os), U8(q.monitorType)]) }
  function ResponseBytes(p: Response): Bytes {
    Layout([Str(p.agentId), Str(p.cert), Str(p.key), Str(p.ca), U64(p.expiresAt)])
  }

  function DecodedHello(data: Bytes): Option<Hello> {
    match Whole(HelloKinds(), data)
    case None => None
    case Some(vs) =>
      AtKind(vs, HelloKinds());
      if vs[0].s == [] || |vs[1].s| != NONCE_SIZE then None else Some(Hello(vs[0].s, vs[1].s))
  }

  function DecodedChallenge(f: Frame): Option<Challenge> {
    if f.msgType != CHALLENGE then None
    else
      match Whole(HelloKinds(), f.payload)
      case None => None
      case Some(vs) =>
        AtKind(vs, HelloKinds());
        if |vs[0].s| != 32 || |vs[1].s| != 32 then None else Some(Challenge(vs[0].s, vs[1].s))
  }

  function DecodedRequest(data: Bytes): Option<Request> {
    match Whole(RequestKinds(), data)
    case None => None
    case Some(vs) =>
      AtKind(vs, RequestKinds());
      Some(Request(vs[0].s, vs[1].s, vs[2].s, vs[3].b))
  }

  function DecodedResponse(data: Bytes): Option<Response> {
    match Whole(ResponseKinds(), data)
    case None => None
    case Some(vs) =>
      AtKind(vs, ResponseKinds());
      Some(Response(vs[0].s, vs[1].s, vs[2].s, vs[3].s, vs[4].d))
  }

  lemma AtKind(vs: seq<Value>, kinds: seq<Kind>)
    requires Kinds(vs) == kinds
    ensures |vs| == |kinds| && forall i :: 0 <= i < |vs| ==> KindOf(vs[i]) == kinds[i]
  {
  }

  // Each decoder accepts exactly the encodings of the values its side allows.
  lemma HelloExact(data: Bytes, h: Hello)
    ensures DecodedHello(data) == Some(h) <==>
            data == HelloBytes(h) && h.enrollmentId != [] && |h.clientNonce| == NONCE_SIZE
  {
    hide Whole, Layout, Kinds;
    var vs := [Str(h.enrollmentId), Str(h.clientNonce)];
    assert Kinds(vs) == HelloKinds();
    WholeIs(HelloKinds(), data, vs);
    if Whole(HelloKinds(), data).Some? {
      AtKind(Whole(HelloKinds(), data).value, HelloKinds());
      assert DecodedHello(data) == Some(h) ==> Whole(HelloKinds(), data).value == vs;
    }
  }

  lemma ChallengeExact(f: Frame, c: Challenge)
    ensures DecodedChallenge(f) == Some(c) <==>
            f.msgType == CHALLENGE && f.payload == ChallengeBytes(c) && |c.serverNonce| == 32 && |c.proof| == 32
  {
    hide Whole, Layout, Kinds;
    var vs := [Str(c.serverNonce), Str(c.proof)];
    assert Kinds(vs) == HelloKinds();
    WholeIs(HelloKinds(), f.payload, vs);
    if Whole(HelloKinds(), f.payload).Some? {
      AtKind(Whole(HelloKinds(), f.payload).value, HelloKinds());
      assert DecodedChallenge(f) == Some(c) ==> Whole(HelloKinds(), f.payload).value == vs;
    }
  }

  lemma RequestExact(data: Bytes, q: Request)
    ensures DecodedRequest(data) == Some(q) <==> data == RequestBytes(q)
  {
    hide Whole, Layout, Kinds;
    var vs := [Str(q.hostname), Str(q.ip), Str(q.os), U8(q.monitorType)];
    assert Kinds(vs) == RequestKinds();
    WholeIs(RequestKinds(), data, vs);
    if Whole(RequestKinds(), data).Some? {
      AtKind(Whole(RequestKinds(), data).value, RequestKinds());
      assert DecodedRequest(data) == Some(q) ==> Whole(RequestKinds(), data).value == vs;
    }
  }

  lemma ResponseExact(data: Bytes, p: Response)
    ensures DecodedResponse(data) == Some(p) <==> data == ResponseBytes(p)
  {
    hide Whole, Layout, Kinds;
    var vs := [Str(p.agentId), Str(p.cert), Str(p.key), Str(p.ca), U64(p.expiresAt)];
    assert Kinds(vs) == ResponseKinds();
    WholeIs(ResponseKinds(), data, vs);
    if Whole(ResponseKinds(), data).Some? {
      AtKind(Whole(ResponseKinds(), data).value, ResponseKinds());
      assert DecodedResponse(data) == Some(p) ==> Whole(ResponseKinds(), data).value == vs;
    }
  }

  lemma TwoTexts(a: Text, b: Text)
    ensures Layout([Str(a), Str(b)]) == Bytes16(|a|) + a + (Bytes16(|b|) + b)
  {
    hide Bytes16;
    LayoutEmpty();
    LayoutSnoc([], Str(a));
    LayoutSnoc([Str(a)], Str(b));
    assert [] + [Str(a)] == [Str(a)] && [Str(a)] + [Str(b)] == [Str(a), Str(b)];
    assert [] + Encoded(Str(a)) == Encoded(Str(a));
  }

  // The payloads on the wire, field by field.
  lemma PayloadLayouts(h: Hello, c: Challenge, q: Request)
    ensures HelloBytes(h) == Bytes16(|h.enrollmentId|) + h.enrollmentId + (Bytes16(|h.clientNonce|) + h.clientNonce)
    ensures ChallengeBytes(c) == Bytes16(|c.serverNonce|) + c.serverNonce + (Bytes16(|c.proof|) + c.proof)
    ensures RequestBytes(q) == Bytes16(|q.hostname|) + q.hostname + (Bytes16(|q.ip|) + q.ip)
                               + (Bytes16(|q.os|) + q.os) + [q.monitorType]
  {
    hide Bytes16, Layout;
    TwoTexts(h.enrollmentId, h.clientNonce);
    TwoTexts(c.serverNonce, c.proof);
    TwoTexts(q.hostname, q.ip);
    var two := [Str(q.hostname), Str(q.ip)];
    LayoutSnoc(two, Str(q.os));
    LayoutSnoc(two + [Str(q.os)], U8(q.monitorType));
    assert two + [Str(q.os)] + [U8(q.monitorType)] == [Str(q.hostname), Str(q.ip), Str(q.os), U8(q.monitorType)];
  }

  lemma ResponseOnWire(p: Response)
    ensures ResponseBytes(p) == Bytes16(|p.agentId|) + p.agentId + (Bytes16(|p.cert|) + p.cert)
                                + (Bytes16(|p.key|) + p.key) + (Bytes16(|p.ca|) + p.ca) + Bytes64(p.expiresAt)
  {
    hide Bytes16, Bytes64, ResponseBytes;
    ResponseLayout(p);
    assert [] + Encoded(Str(p.agentId)) == Encoded(Str(p.agentId));
  }

  // decodeHello (Go)
  method DecodeHello(data: Bytes) returns (h: Option<Hello>)
    ensures h == DecodedHello(data)
  {
    hide Parse, BinReader.On;
    var r := new BinReader(data);
    r.Restart();
    var id := r.ReadStr(HelloKinds());
    if id.None? { return None; }
    var nonce := r.ReadStr(HelloKinds());
    if nonce.None? { return None; }
    r.Finish(HelloKinds());
    if |data| - r.pos != 0 { return None; }
    if id.value == [] || |nonce.value| != NONCE_SIZE { return None; }
    h := Some(Hello(id.value, nonce.value));
  }

  // decodeRequest (Go)
  method DecodeRequest(data: Bytes) returns (q: Option<Request>)
    ensures q == DecodedRequest(data)
  {
    hide Parse, BinReader.On;
    var r := new BinReader(data);
    r.Restart();
    var hostname := r.ReadStr(RequestKinds());
    if hostname.None? { return None; }
    var ip := r.ReadStr(RequestKinds());
    if ip.None? { return None; }
    var os := r.ReadStr(RequestKinds());
    if os.None? { return None; }
    var monitorType := r.ReadU8(RequestKinds());
    if monitorType.None? { return None; }
    r.Finish(RequestKinds());
    if |data| - r.pos != 0 { return None; }
    q := Some(Request(hostname.value, ip.value, os.value, monitorType.value));
  }

  // binWriter (Go), as far as responses need it
  class BinWriter {
    var buf: Bytes

    constructor ()
      ensures buf == []
    {
      buf := [];
    }

    method WriteString(s: Bytes) returns (ok: bool)
      modifies this
      ensures ok <==> |s| <= 65535
      ensures buf == if ok then old(buf) + Encoded(Str(s)) else old(buf)
    {
      if |s| > 65535 { return false; }
      buf := buf + Bytes16(|s|);
      buf := buf + s;
      assert buf == old(buf) + (Bytes16(|s|) + s);
      ok := true;
    }

    method WriteU64(v: Word64)
      modifies this
      ensures buf == old(buf) + Encoded(U64(v))
    {
      buf := buf + Bytes64(v);
    }
  }

  // a response as the service returns it, its texts of any length
  datatype Rendered = Rendered(agentId: Bytes, cert: Bytes, key: Bytes, ca: Bytes, expiresAt: Word64)

  // what of it the wire can carry
  function Wired(p: Rendered): Option<Response> {
    if |p.agentId| > 65535 || |p.cert| > 65535 || |p.key| > 65535 || |p.ca| > 65535 then None
    else Some(Response(p.agentId, p.cert, p.key, p.ca, p.expiresAt))
  }

  // Every text goes into its own field, and none is cut.
  lemma WiredExact(p: Rendered, r: Response)
    ensures Wired(p) == Some(r) <==>
      p.agentId == r.agentId && p.cert == r.cert && p.key == r.key && p.ca == r.ca && p.expiresAt == r.expiresAt
  {
  }

  // encodeResponse (Go)
  method EncodeResponse(p: Rendered) returns (out: Option<Bytes>)
    ensures out == match Wired(p) case None => None case Some(resp) => Some(ResponseBytes(resp))
  {
    hide Layout, Encoded;
    var w := new BinWriter();
    var ok := w.WriteString(p.agentId);
    if !ok { return None; }
    ok := w.WriteString(p.cert);
    if !ok { return None; }
    ok := w.WriteString(p.key);
    if !ok { return None; }
    ok := w.WriteString(p.ca);
    if !ok { return None; }
    w.WriteU64(p.expiresAt);
    ResponseLayout(Wired(p).value);
    out := Some(w.buf);
  }

  lemma ResponseLayout(p: Response)
    ensures ResponseBytes(p) == [] + Encoded(Str(p.agentId)) + Encoded(Str(p.cert)) + Encoded(Str(p.key)) + Encoded(Str(p.ca))
                                + Encoded(U64(p.expiresAt))
  {
    hide Layout, Encoded;
    var a, b, c, d, e := Str(p.agentId), Str(p.cert), Str(p.key), Str(p.ca), U64(p.expiresAt);
    LayoutEmpty();
    LayoutSnoc([], a);
    LayoutSnoc([a], b);
    LayoutSnoc([a, b], c);
    LayoutSnoc([a, b, c], d);
    LayoutSnoc([a, b, c, d], e);
    assert [] + [a] == [a] && [a] + [b] == [a, b] && [a, b] + [c] == [a, b, c];
    assert [a, b, c] + [d] == [a, b, c, d] && [a, b, c, d] + [e] == [a, b, c, d, e];
  }

  // decode_challenge (C)
  method DecodeChallenge(f: Frame) returns (c: Option<Challenge>)
    ensures c == DecodedChallenge(f)
  {
    hide Parse, BinReader.On;
    if f.msgType != CHALLENGE { return None; }
    var r := new BinReader(f.payload);
    r.Restart();
    var nonce := r.ReadStr(HelloKinds());
    if nonce.None? { return None; }
    var proof := r.ReadStr(HelloKinds());
    if proof.None? { return None; }
    r.Finish(HelloKinds());
    if |nonce.value| == 32 && |proof.value| == 32 && |f.payload| - r.pos == 0 {
      return Some(Challenge(nonce.value, proof.value));
    }
    c := None;
  }

  // write_string (C): at p, with `remaining` bytes left
  method WriteString(buf: array<Byte>, p: nat, remaining: nat, s: Bytes, ghost vs: seq<Value>, ghost k: nat)
    returns (q: nat, left: nat, ok: bool)
    requires p + remaining == buf.Length && k < |vs| && Wrote(buf, p, [], vs[..k])
    requires |s| < 0x1_0000 ==> vs[k] == Str(s)
    modifies buf
    ensures ok <==> |s| <= 65535 && |s| + 2 <= remaining
    ensures ok ==> q == p + 2 + |s| && left == remaining - 2 - |s| && Wrote(buf, q, [], vs[..k + 1])
  {
    q, left, ok := p, remaining, false;
    if |s| > 65535 || remaining < |s| + 2 { return; }
    q := WriteStr(buf, p, s, [], vs, k);
    left := remaining - 2 - |s|;
    ok := true;
  }

  // encode_request_plain (C): the buffer has exactly the size of the fields, so
  // only a string that its 16-bit length cannot hold makes it fail.
  method EncodeRequestPlain(hostname: Bytes, ip: Bytes, os: Bytes, monitorType: Byte) returns (out: Option<Bytes>)
    ensures out.Some? <==> |hostname| <= 65535 && |ip| <= 65535 && |os| <= 65535
    ensures out.Some? ==> out.value == RequestBytes(Request(hostname, ip, os, monitorType))
  {
    hide Layout;
    var payloadLen := 2 + |hostname| + 2 + |ip| + 2 + |os| + 1;
    ghost var vs := [Str(Cut(hostname)), Str(Cut(ip)), Str(Cut(os)), U8(monitorType)];
    var buf := new Byte[payloadLen](_ => 0);
    LayoutEmpty();
    assert vs[..0] == [] && buf[..0] == [] + [] && vs[..4] == vs;
    var p, remaining, ok := WriteString(buf, 0, payloadLen, hostname, vs, 0);
    if !ok { return None; }
    p, remaining, ok := WriteString(buf, p, remaining, ip, vs, 1);
    if !ok { return None; }
    p, remaining, ok := WriteString(buf, p, remaining, os, vs, 2);
    if !ok || remaining < 1 { return None; }
    p := WriteU8(buf, p, monitorType, [], vs, 3);
    assert buf[..p] == buf[..] && [] + Layout(vs) == Layout(vs);
    out := Some(buf[..]);
  }

  ghost function Cut(s: Bytes): Text {
    if |s| < 0x1_0000 then s else s[..0xFFFF]
  }

  lemma LayoutEmpty()
    ensures Layout([]) == []
  {
  }

  // decode_response_plain (C)
  method DecodeResponsePlain(data: Bytes) returns (p: Option<Response>)
    ensures p == DecodedResponse(data)
  {
    hide Parse, BinReader.On;
    var r := new BinReader(data);
    r.Restart();
    var agentId := r.ReadStr(ResponseKinds());
    if agentId.None? { return None; }
    var cert := r.ReadStr(ResponseKinds());
    if cert.None? { return None; }
    var key := r.ReadStr(ResponseKinds());
    if key.None? { return None; }
    var ca := r.ReadStr(ResponseKinds());
    if ca.None? { return None; }
    var expiresAt := r.ReadU64(ResponseKinds());
    if expiresAt.None? { return None; }
    r.Finish(ResponseKinds());
    if |data| - r.pos != 0 { return None; }
    p := Some(Response(agentId.value, cert.value, key.value, ca.value, expiresAt.value));
  }

  // ----- the two parties -----------------------------------------------------------------------------

  // what the agent is configured with; all of it C strings
  datatype Config = Config(enrollmentId: Bytes, xorKey: Bytes, request: Request)

  function AgentHello(cfg: Config, clientNonce: Bytes): Option<Frame> {
    var id := CString(cfg.enrollmentId);
    if |id| > 65535 || |clientNonce| > 65535 || |id| + |clientNonce| + 4 + HEADER_SIZE > MAX_FRAME then None
    else Some(Frame(HELLO, 1, HelloBytes(Hello(id, clientNonce))))
  }

  datatype Session = Session(hello: Hello, keys: Keys, challenge: Frame)

  // the server up to its challenge; the vault knows the key of the pending row
  function ServerChallenge(hmac: Hmac, vault: Bytes -> Option<Bytes>, f: Frame, serverNonce: Bytes): Option<Session> {
    if f.msgType != HELLO then None
    else
      match DecodedHello(f.payload)
      case None => None
      case Some(hello) =>
        match vault(hello.enrollmentId)
        case None => None
        case Some(key) =>
          if key == [] || |serverNonce| != NONCE_SIZE then None
          else
            var keys := Derived(hmac, key, hello.enrollmentId, hello.clientNonce, serverNonce);
            var proof := Proof(hmac, keys, hello.enrollmentId, hello.clientNonce, serverNonce);
            Some(Session(hello, keys,
                         Frame(CHALLENGE, (f.seqNum + 1) % 0x1_0000_0000, ChallengeBytes(Challenge(serverNonce, proof)))))
  }

  // the agent's keys, once the server's proof has been checked
  function AgentKeys(hmac: Hmac, cfg: Config, clientNonce: Bytes, f: Frame): Option<Keys> {
    match DecodedChallenge(f)
    case None => None
    case Some(c) =>
      var keys := Derived(hmac, CString(cfg.xorKey), CString(cfg.enrollmentId), clientNonce, c.serverNonce);
      if Proof(hmac, keys, CString(cfg.enrollmentId), clientNonce, c.serverNonce) != c.proof then None
      else Some(keys)
  }

  function AgentRequest(hmac: Hmac, keys: Keys, req: Request): Option<Frame> {
    var f := Frame(REQUEST, 3, Sealed(hmac, keys, REQUEST, 3, RequestBytes(req)));
    if Fits(f) then Some(f) else None
  }

  function ServerRequest(hmac: Hmac, keys: Keys, f: Frame): Option<Request> {
    if f.msgType != REQUEST then None
    else
      match Opened(hmac, keys, f.msgType, f.seqNum, f.payload)
      case None => None
      case Some(plain) => DecodedRequest(plain)
  }

  function ServerResponse(hmac: Hmac, keys: Keys, request: Frame, resp: Response): Option<Frame> {
    var n := (request.seqNum + 1) % 0x1_0000_0000;
    var f := Frame(RESPONSE, n, Sealed(hmac, keys, RESPONSE, n, ResponseBytes(resp)));
    if Fits(f) then Some(f) else None
  }

  function AgentResponse(hmac: Hmac, keys: Keys, f: Frame): Option<Response> {
    if f.msgType != RESPONSE then None
    else
      match Opened(hmac, keys, f.msgType, f.seqNum, f.payload)
      case None => None
      case Some(plain) => DecodedResponse(plain)
  }

  function AgentAck(hmac: Hmac, keys: Keys): Frame {
    Frame(ACK, 5, Sealed(hmac, keys, ACK, 5, []))
  }

  predicate ServerAck(hmac: Hmac, keys: Keys, f: Frame) {
    f.msgType == ACK && Opened(hmac, keys, f.msgType, f.seqNum, f.payload).Some?
  }

  // All the agent sends, given the frames it can read and whether it could store
  // what it was issued.
  function AgentSent(hmac: Hmac, cfg: Config, clientNonce: Bytes, replies: seq<Frame>, stored: bool): seq<Frame> {
    match AgentHello(cfg, clientNonce)
    case None => []
    case Some(hello) =>
      if |replies| < 1 then [hello]
      else
        match AgentKeys(hmac, cfg, clientNonce, replies[0])
        case None => [hello]
        case Some(keys) =>
          match AgentRequest(hmac, keys, cfg.request)
          case None => [hello]
          case Some(request) =>
            if |replies| < 2 || AgentResponse(hmac, keys, replies[1]).None? || !stored then [hello, request]
            else [hello, request, AgentAck(hmac, keys)]
  }

  // ig_enroll_execute: the frames sent, and the response stored
  method AgentExecute(hmac: Hmac, cfg: Config, clientNonce: Bytes, replies: seq<Frame>, stored: bool)
    returns (sent: seq<Frame>, got: Option<Response>)
    requires |clientNonce| == NONCE_SIZE
    ensures sent == AgentSent(hmac, cfg, clientNonce, replies, stored)
    ensures got.Some? <==> |sent| == 3
    ensures got.Some? ==>
      |replies| >= 2 && exists keys ::
        AgentKeys(hmac, cfg, clientNonce, replies[0]) == Some(keys) && AgentResponse(hmac, keys, replies[1]) == got
  {
    hide Derived, Proof, Sealed, Opened, CString, DecodedResponse, DecodedChallenge, HelloBytes, RequestBytes, Layout;
    sent, got := [], None;
    var id := CString(cfg.enrollmentId);
    if |id| > 65535 || 2 + |id| + 2 + 32 + HEADER_SIZE > MAX_FRAME { return; }
    sent := [Frame(HELLO, 1, HelloBytes(Hello(id, clientNonce)))];
    if |replies| < 1 { return; }
    var c := DecodeChallenge(replies[0]);
    if c.None? { return; }
    ChallengeNonce(replies[0]);
    var keys := DeriveSession(hmac, cfg.xorKey, cfg.enrollmentId, clientNonce, c.value.serverNonce);
    var expected := ServerProofC(hmac, keys, cfg.enrollmentId, clientNonce, c.value.serverNonce);
    if expected != c.value.proof { return; }
    var plain := EncodeRequestPlain(cfg.request.hostname, cfg.request.ip, cfg.request.os, cfg.request.monitorType);
    SealedSize(hmac, keys, REQUEST, 3, plain.value);
    var sealed := ProtectPayload(hmac, keys, REQUEST, 3, plain.value);
    if sealed.None? || |sealed.value| + HEADER_SIZE > MAX_FRAME { return; }
    sent := sent + [Frame(REQUEST, 3, sealed.value)];
    if |replies| < 2 || replies[1].msgType != RESPONSE { return; }
    var answer := OpenProtectedPayload(hmac, keys, replies[1].msgType, replies[1].seqNum, replies[1].payload);
    if answer.None? { return; }
    var resp := DecodeResponsePlain(answer.value);
    if resp.None? || !stored { return; }
    var ack := ProtectPayload(hmac, keys, ACK, 5, []);
    sent := sent + [Frame(ACK, 5, ack.value)];
    got := resp;
  }

  lemma ChallengeNonce(f: Frame)
    ensures DecodedChallenge(f).Some? ==> |DecodedChallenge(f).value.serverNonce| == NONCE_SIZE
  {
  }

  lemma SealedSize(hmac: Hmac, keys: Keys, msgType: Byte, seqNum: Word32, plain: Bytes)
    ensures |Sealed(hmac, keys, msgType, seqNum, plain)| == MAC_SIZE + |plain|
  {
    hide FrameMac;
  }

  // The server takes a request exactly when it was sealed under the session's
  // keys for that type and number, and reads exactly what was sealed; the agent
  // likewise with the response.
  lemma RequestIsAuthentic(hmac: Hmac, keys: Keys, f: Frame, req: Request)
    ensures ServerRequest(hmac, keys, f) == Some(req) <==>
            f.msgType == REQUEST && f.payload == Sealed(hmac, keys, REQUEST, f.seqNum, RequestBytes(req))
  {
    hide Opened, Sealed, DecodedRequest, RequestBytes;
    OpenedExact(hmac, keys, REQUEST, f.seqNum, f.payload, RequestBytes(req));
    RequestExact(RequestBytes(req), req);
    var plain := Opened(hmac, keys, REQUEST, f.seqNum, f.payload);
    if plain.Some? { RequestExact(plain.value, req); }
  }

  lemma ResponseIsAuthentic(hmac: Hmac, keys: Keys, f: Frame, resp: Response)
    ensures AgentResponse(hmac, keys, f) == Some(resp) <==>
            f.msgType == RESPONSE && f.payload == Sealed(hmac, keys, RESPONSE, f.seqNum, ResponseBytes(resp))
  {
    hide Opened, Sealed, DecodedResponse, ResponseBytes;
    OpenedExact(hmac, keys, RESPONSE, f.seqNum, f.payload, ResponseBytes(resp));
    ResponseExact(ResponseBytes(resp), resp);
    var plain := Opened(hmac, keys, RESPONSE, f.seqNum, f.payload);
    if plain.Some? { ResponseExact(plain.value, resp); }
  }

  // The acknowledgement counts exactly when something was sealed for that type and
  // number under the session's keys.
  lemma AckIsAuthentic(hmac: Hmac, keys: Keys, f: Frame)
    ensures ServerAck(hmac, keys, f) <==>
            f.msgType == 0x25 && exists plain :: f.payload == Sealed(hmac, keys, 0x25, f.seqNum, plain)
  {
    hide Channel.Opened, Sealed;
    var plainText := Channel.Opened(hmac, keys, f.msgType, f.seqNum, f.payload);
    if f.msgType == 0x25 {
      if plainText.Some? { OpenedExact(hmac, keys, 0x25, f.seqNum, f.payload, plainText.value); }
      if plain :| f.payload == Sealed(hmac, keys, 0x25, f.seqNum, plain) {
        OpenedExact(hmac, keys, 0x25, f.seqNum, f.payload, plain);
      }
    }
  }

  // The agent goes on from a challenge exactly when it carries the proof that only
  // someone with the enrollment key can compute for the two nonces.
  lemma AgentChecksProof(hmac: Hmac, cfg: Config, clientNonce: Bytes, f: Frame, c: Challenge)
    requires DecodedChallenge(f) == Some(c)
    ensures var id := CString(cfg.enrollmentId);
      var keys := Derived(hmac, CString(cfg.xorKey), id, clientNonce, c.serverNonce);
      AgentKeys(hmac, cfg, clientNonce, f) ==
        if c.proof == hmac(keys.mac, ProofLabel() + [0] + id + [0] + clientNonce + c.serverNonce) then Some(keys) else None
  {
    hide Derived, DecodedChallenge, CString;
  }

  lemma AgentNeedsChallenge(hmac: Hmac, cfg: Config, clientNonce: Bytes, f: Frame)
    requires f.msgType != 0x22 || forall c :: f.payload == ChallengeBytes(c) ==> |c.serverNonce| != 32 || |c.proof| != 32
    ensures AgentKeys(hmac, cfg, clientNonce, f) == None
  {
    hide Derived, DecodedChallenge, CString, ChallengeBytes, Proof;
    if DecodedChallenge(f).Some? { ChallengeExact(f, DecodedChallenge(f).value); }
  }

  // What the agent sends, frame by frame: the hello; the sealed request once a
  // challenge has proved the server; the sealed acknowledgement once an authentic
  // response has been stored.
  lemma AgentSends(hmac: Hmac, cfg: Config, clientNonce: Bytes, replies: seq<Frame>, stored: bool)
    requires |clientNonce| == NONCE_SIZE
    ensures var sent, id := AgentSent(hmac, cfg, clientNonce, replies, stored), CString(cfg.enrollmentId);
      && |sent| <= 3
      && (|sent| >= 1 <==> |id| <= 65490)
      && (|sent| >= 1 ==> |id| < 0x1_0000 && sent[0] == Frame(0x21, 1, HelloBytes(Hello(id, clientNonce))))
      && (|sent| >= 2 ==> |replies| >= 1 && AgentKeys(hmac, cfg, clientNonce, replies[0]).Some?)
      && (|sent| == 1 && |replies| >= 1 && AgentKeys(hmac, cfg, clientNonce, replies[0]).Some? ==>
            |RequestBytes(cfg.request)| > 65494)
    ensures var sent := AgentSent(hmac, cfg, clientNonce, replies, stored);
      |sent| >= 2 ==>
        var keys := AgentKeys(hmac, cfg, clientNonce, replies[0]).value;
        && sent[1] == Frame(0x23, 3, Sealed(hmac, keys, 0x23, 3, RequestBytes(cfg.request)))
        && (|sent| == 3 <==> stored && |replies| >= 2 && AgentResponse(hmac, keys, replies[1]).Some?)
        && (|sent| == 3 ==> sent[2] == Frame(0x25, 5, Sealed(hmac, keys, 0x25, 5, [])))
  {
    hide Sealed, AgentKeys, AgentResponse, CString, HelloBytes, RequestBytes;
    if |replies| >= 1 && AgentKeys(hmac, cfg, clientNonce, replies[0]).Some? {
      SealedSize(hmac, AgentKeys(hmac, cfg, clientNonce, replies[0]).value, REQUEST, 3, RequestBytes(cfg.request));
    }
  }

  // The server answers a hello for an enrollment whose key it knows, with a fresh
  // nonce, the keys of that exchange and the proof that it holds them.
  lemma ServerChallenges(hmac: Hmac, vault: Bytes -> Option<Bytes>, f: Frame, serverNonce: Bytes, hello: Hello)
    requires f.msgType == 0x21 && DecodedHello(f.payload) == Some(hello)
    ensures var session := ServerChallenge(hmac, vault, f, serverNonce);
      && (session.Some? <==> |serverNonce| == 32 && vault(hello.enrollmentId).Some? && vault(hello.enrollmentId) != Some([]))
      && (session.Some? ==>
            var keys := Derived(hmac, vault(hello.enrollmentId).value, hello.enrollmentId, hello.clientNonce, serverNonce);
            var proof := hmac(keys.mac, ProofLabel() + [0] + hello.enrollmentId + [0] + hello.clientNonce + serverNonce);
            session.value == Session(hello, keys,
              Frame(0x22, if f.seqNum == 0xFFFF_FFFF then 0 else f.seqNum + 1, ChallengeBytes(Challenge(serverNonce, proof)))))
  {
    hide Derived, DecodedHello, ChallengeBytes;
  }

  // An agent and a server that share a NUL-free key and id end up with the same
  // keys, whatever HMAC computes: the server reads the id and the nonce that
  // were sent, and the agent accepts its proof.
  lemma HonestKeysAgree(hmac: Hmac, vault: Bytes -> Option<Bytes>, cfg: Config, clientNonce: Bytes, serverNonce: Bytes)
    requires 0 !in cfg.enrollmentId && 0 !in cfg.xorKey && cfg.enrollmentId != [] && cfg.xorKey != []
    requires |clientNonce| == NONCE_SIZE && |serverNonce| == NONCE_SIZE
    requires vault(cfg.enrollmentId) == Some(cfg.xorKey)
    requires AgentHello(cfg, clientNonce).Some?
    ensures var session := ServerChallenge(hmac, vault, AgentHello(cfg, clientNonce).value, serverNonce);
      && session.Some? && session.value.challenge.seqNum == 2
      && session.value.hello == Hello(cfg.enrollmentId, clientNonce)
      && AgentKeys(hmac, cfg, clientNonce, session.value.challenge) == Some(session.value.keys)
  {
    hide HelloBytes, ChallengeBytes, DecodedHello, DecodedChallenge, Derived, Proof, CString;
    Stringy(cfg.enrollmentId);
    Stringy(cfg.xorKey);
    var hello := Hello(cfg.enrollmentId, clientNonce);
    HelloExact(HelloBytes(hello), hello);
    var keys := Derived(hmac, cfg.xorKey, cfg.enrollmentId, clientNonce, serverNonce);
    var c := Challenge(serverNonce, Proof(hmac, keys, cfg.enrollmentId, clientNonce, serverNonce));
    ChallengeExact(Frame(CHALLENGE, 2, ChallengeBytes(c)), c);
  }

  lemma Stringy(s: Bytes)
    requires 0 !in s
    ensures CString(s) == s
  {
  }

  // With one set of keys, whatever fits a frame arrives as it was sent: the
  // server reads the agent's request, the agent the server's response (number 4),
  // and the server the acknowledgement.
  lemma HonestExchange(hmac: Hmac, keys: Keys, req: Request, resp: Response)
    requires AgentRequest(hmac, keys, req).Some?
    requires ServerResponse(hmac, keys, AgentRequest(hmac, keys, req).value, resp).Some?
    ensures var request := AgentRequest(hmac, keys, req).value;
      var response := ServerResponse(hmac, keys, request, resp).value;
      && ServerRequest(hmac, keys, request) == Some(req)
      && response.seqNum == 4 && AgentResponse(hmac, keys, response) == Some(resp)
      && ServerAck(hmac, keys, AgentAck(hmac, keys))
  {
    hide Opened, Sealed, ServerRequest, AgentResponse, RequestBytes, ResponseBytes;
    var request := AgentRequest(hmac, keys, req).value;
    RequestIsAuthentic(hmac, keys, request, req);
    ResponseIsAuthentic(hmac, keys, ServerResponse(hmac, keys, request, resp).value, resp);
    OpenedExact(hmac, keys, ACK, 5, Sealed(hmac, keys, ACK, 5, []), []);
  }
}
