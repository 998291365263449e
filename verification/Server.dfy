// handleConn: the order in which one enrollment connection reads frames, checks
// them and calls the stores, run alone over the database.

module Server {
  import opened Prelude
  import opened Wire
  import opened Channel
  import opened Handshake
  import Store
  import Service
  import Machine = Enrollment
  import Issuance

  // What surrounds one connection: the clock, the nonce if it can be drawn, the fate of each
  // store operation and of each frame written.
  datatype Surroundings = Surroundings(
    pendingAt: Store.Time, pendingFault: Store.Fault, serverNonce: Option<Nonce>, challengeSent: bool,
    enroll: Service.Surroundings, responseSent: bool, markFault: Store.Fault)

  type Nonce = s: Bytes | |s| == NONCE_SIZE witness seq(NONCE_SIZE, _ => 0)

  // The parts of the server that do not change: HMAC, the key vault with its hash
  // check, the strings the wire bytes stand for, and the response for a certificate.
  datatype Config = Config(
    hmac: Hmac, vault: Bytes -> Option<Bytes>, text: Bytes -> string,
    render: (string, Store.IssuedCert) -> Rendered)

  function HelloOf(inbound: seq<Frame>): Option<Hello> {
    if |inbound| < 1 || inbound[0].msgType != HELLO then None else DecodedHello(inbound[0].payload)
  }

  // the session, if the connection gets as far as a second frame
  function SessionOf(cfg: Config, inbound: seq<Frame>, around: Surroundings): Option<Session> {
    if |inbound| < 2 || !around.challengeSent || around.serverNonce.None? then None
    else ServerChallenge(cfg.hmac, cfg.vault, inbound[0], around.serverNonce.value)
  }

  // and its authentic request
  function RequestOf(cfg: Config, inbound: seq<Frame>, around: Surroundings): Option<(Session, Request)> {
    match SessionOf(cfg, inbound, around)
    case None => None
    case Some(session) =>
      match ServerRequest(cfg.hmac, session.keys, inbound[1])
      case None => None
      case Some(req) => Some((session, req))
  }

  function HexDigit(d: nat): (c: char)
    requires d < 16
    ensures c == "0123456789abcdef"[d]
  {
    if d < 10 then '0' + d as char else 'a' + (d - 10) as char
  }

  // MonitorTypeName
  function MonitorTypeName(t: Byte): string {
    match t
    case 2 => "lkm"
    case 3 => "ebpf"
    case 4 => "fanotify"
    case _ => "unknown(0x" + [HexDigit(t / 16), HexDigit(t % 16)] + ")"
  }

  // Different monitor types are stored under different names.
  lemma MonitorTypesDiffer(a: Byte, b: Byte)
    ensures MonitorTypeName(a) == MonitorTypeName(b) ==> a == b
    ensures a == 2 <==> MonitorTypeName(a) == "lkm"
    ensures a == 3 <==> MonitorTypeName(a) == "ebpf"
    ensures a == 4 <==> MonitorTypeName(a) == "fanotify"
    ensures a == 0x1F ==> MonitorTypeName(a) == "unknown(0x1f)"
  {
    var x, y := MonitorTypeName(a), MonitorTypeName(b);
    if a !in {2, 3, 4} && b !in {2, 3, 4} {
      assert x[10] == HexDigit(a / 16) && x[11] == HexDigit(a % 16);
      assert y[10] == HexDigit(b / 16) && y[11] == HexDigit(b % 16);
    } else {
      assert a !in {2, 3, 4} ==> x[0] == 'u';
      assert b !in {2, 3, 4} ==> y[0] == 'u';
    }
  }

  function EnrollRequest(cfg: Config, req: Request): Service.Request {
    Service.Request(cfg.text(req.hostname), cfg.text(req.ip), cfg.text(req.os), MonitorTypeName(req.monitorType))
  }

  function ResponseTo(cfg: Config, keys: Keys, request: Frame, agentId: string, cert: Store.IssuedCert): Option<Frame> {
    match Wired(cfg.render(agentId, cert))
    case None => None
    case Some(resp) => ServerResponse(cfg.hmac, keys, request, resp)
  }

  // the session acknowledges when its response went out and an authentic ACK came back
  predicate Acknowledged(cfg: Config, keys: Keys, id: string, req: Service.Request, inbound: seq<Frame>, around: Surroundings)
    requires |inbound| >= 2
  {
    && around.enroll.issued.Some?
    && ResponseTo(cfg, keys, inbound[1], Service.Identified(id, req, around.enroll), around.enroll.issued.value).Some?
    && around.responseSent
    && |inbound| >= 3 && ServerAck(cfg.hmac, keys, inbound[2])
  }

  // the steps from the request on, given the keys of the session
  function LaterSteps(cfg: Config, id: string, keys: Keys, inbound: seq<Frame>, around: Surroundings): seq<Machine.Step>
    requires |inbound| >= 2
  {
    match ServerRequest(cfg.hmac, keys, inbound[1])
    case None => []
    case Some(got) =>
      var req := EnrollRequest(cfg, got);
      Service.EnrollSteps(id, req, around.enroll)
      + if Acknowledged(cfg, keys, id, req, inbound, around) then [Machine.Acknowledge(0, around.markFault)] else []
  }

  // The connection's steps in the enrollment state machine. Steps that its
  // session is not ready for change nothing.
  function StepsOf(cfg: Config, id: string, inbound: seq<Frame>, around: Surroundings): seq<Machine.Step> {
    [Machine.GetPending(0, around.pendingAt, around.pendingFault)]
    + match SessionOf(cfg, inbound, around)
      case None => []
      case Some(session) => LaterSteps(cfg, id, session.keys, inbound, around)
  }

  ghost function Opened(t: Store.Tables, id: string): (s: Machine.State)
    ensures 0 in s.sessions
  {
    Machine.State(t, map[0 := Machine.Session(id, Machine.Opened)], map[], [])
  }

  lemma {:induction false} RunAppend(s: Machine.State, a: seq<Machine.Step>, b: seq<Machine.Step>)
    ensures Machine.Run(s, a + b) == Machine.Run(Machine.Run(s, a), b)
    decreases |a|
  {
    hide Machine.Next;
    if a == [] {
      assert a + b == b;
    } else {
      assert (a + b)[1..] == a[1..] + b;
      RunAppend(Machine.Next(s, a[0]), a[1..], b);
    }
  }

  lemma RunOne(s: Machine.State, step: Machine.Step)
    ensures Machine.Run(s, [step]) == Machine.Next(s, step)
  {
    hide Machine.Next;
    assert [step][1..] == [];
  }

  lemma RunNothing(s: Machine.State)
    ensures Machine.Run(s, []) == s
  {
  }

  lemma PendingStep(t: Store.Tables, id: string, now: Store.Time, fault: Store.Fault)
    ensures var o := Store.Observed(t, Store.GetPendingTx(t, id, now), fault);
      Machine.Next(Opened(t, id), Machine.GetPending(0, now, fault)) ==
        if o.outcome.Ok? then Service.Admitted(o.tables, id, o.outcome.value)
        else Machine.State(o.tables, map[0 := Machine.Session(id, Machine.Closed)], map[], [])
  {
  }

  // a session that is closed stays closed and touches nothing
  lemma {:induction false} ClosedDoesNothing(s: Machine.State, steps: seq<Machine.Step>)
    requires 0 in s.sessions && s.sessions[0].phase.Closed?
    requires forall i :: 0 <= i < |steps| ==> Machine.Actor(steps[i]) == Some(0)
    ensures Machine.Run(s, steps).tables == s.tables
    decreases |steps|
  {
    if steps != [] {
      ClosedStep(s, steps[0]);
      ClosedDoesNothing(Machine.Next(s, steps[0]), steps[1..]);
    }
  }

  lemma ClosedStep(s: Machine.State, step: Machine.Step)
    requires 0 in s.sessions && s.sessions[0].phase.Closed? && Machine.Actor(step) == Some(0)
    ensures Machine.Next(s, step).tables == s.tables
    ensures 0 in Machine.Next(s, step).sessions && Machine.Next(s, step).sessions[0].phase.Closed?
  {
    match step
    case GetPending(_, _, _) =>
    case Validate(_, _) =>
    case Claim(_, _, _) =>
    case Issue(_, _) =>
    case Finalize(_, _, _, _) =>
    case Release(_, _) =>
    case Acknowledge(_, _) =>
    case Open(_, _) =>
    case Hangup(_) =>
    case Kill(_) =>
  }

  lemma OwnSteps(cfg: Config, id: string, inbound: seq<Frame>, around: Surroundings)
    ensures forall i :: 0 <= i < |StepsOf(cfg, id, inbound, around)| ==>
      Machine.Actor(StepsOf(cfg, id, inbound, around)[i]) == Some(0)
  {
    hide SessionOf, ServerRequest, Acknowledged, Service.Identified, EnrollRequest;
  }

  // Marking the enrollment used, as the machine's last step of the session.
  lemma MarkStep(s: Machine.State, fault: Store.Fault)
    requires 0 in s.sessions
    ensures Machine.Next(s, Machine.Acknowledge(0, fault)).tables ==
      if s.sessions[0].phase.Responded?
      then Store.Observed(s.tables, Store.MarkUsedTx(s.tables, s.sessions[0].id, s.sessions[0].phase.agentId), fault).tables
      else s.tables
  {
  }

  // The session once Enroll has run, for a row admitted with this binding.
  ghost function Enrolled(cfg: Config, t: Store.Tables, id: string, req: Service.Request, around: Surroundings): Machine.State {
    Machine.Run(Machine.Next(Opened(t, id), Machine.GetPending(0, around.pendingAt, around.pendingFault)),
                Service.EnrollSteps(id, req, around.enroll))
  }

  // The frames the connection sends, by what the machine says of the tables it met.
  ghost function FramesSent(cfg: Config, t: Store.Tables, inbound: seq<Frame>, around: Surroundings): seq<Frame> {
    if |inbound| < 1 then []
    else if inbound[0].msgType != HELLO then [Refusal(inbound[0], "unexpected enrollment message type")]
    else
      match HelloOf(inbound)
      case None => [Refusal(inbound[0], "invalid enrollment hello")]
      case Some(hello) =>
        var id := cfg.text(hello.enrollmentId);
        var s := Machine.Next(Opened(t, id), Machine.GetPending(0, around.pendingAt, around.pendingFault));
        if !s.sessions[0].phase.Admitted? || cfg.vault(hello.enrollmentId).None? then [Refusal(inbound[0], "enrollment failed")]
        else if around.serverNonce.None? then [Refusal(inbound[0], "nonce generation failed")]
        else
          var session := ServerChallenge(cfg.hmac, cfg.vault, inbound[0], around.serverNonce.value);
          if session.None? then [Refusal(inbound[0], "session key derivation failed")]
          else if !around.challengeSent then []
          else [session.value.challenge] + AnswerSent(cfg, t, id, session.value.keys, inbound, around)
  }

  ghost function AnswerSent(cfg: Config, t: Store.Tables, id: string, keys: Keys, inbound: seq<Frame>, around: Surroundings)
    : seq<Frame>
  {
    if |inbound| < 2 then []
    else
      match ServerRequest(cfg.hmac, keys, inbound[1])
      case None => [Refusal(inbound[1], WhyRefused(cfg, keys, inbound[1]))]
      case Some(req) =>
        var done := Enrolled(cfg, t, id, EnrollRequest(cfg, req), around);
        if 0 !in done.sessions || !done.sessions[0].phase.Responded? then [Refusal(inbound[1], "enrollment failed")]
        else
          var agentId, cert := done.sessions[0].phase.agentId, done.sessions[0].phase.cert;
          if Wired(cfg.render(agentId, cert)).None? then [Refusal(inbound[1], "response encode failed")]
          else
            var out := ResponseTo(cfg, keys, inbound[1], agentId, cert);
            if out.None? || !around.responseSent then [] else [out.value]
  }

  // the one commit of the connection's session, its row issued to that agent, and
  // its certificate, as issued, the agent's single active one
  ghost predicate Issued(s: Machine.State, id: string, agentId: string, cert: Store.IssuedCert) {
    && s.commits == [Machine.Commit(0, id, agentId, cert)]
    && id in s.tables.enrollments
    && s.tables.enrollments[id].status == Store.Issued && s.tables.enrollments[id].agentId == Some(agentId)
    && Store.CertsOk(s.tables.certs) && Store.SingleActive(s.tables.certs, agentId, cert.fingerprint)
    && Store.Carries(s.tables.certs, agentId, cert)
  }

  // A response frame leaves only after the commit: the request was sealed under the
  // session's keys, the row is issued to the agent derived from it, the certificate
  // issued is that agent's single active one, and the frame is the sealed response
  // for just that agent and certificate.
  lemma ResponseOnlyAfterCommit(cfg: Config, t: Store.Tables, inbound: seq<Frame>, around: Surroundings, f: Frame)
    requires Store.CertsOk(t.certs)
    requires f in FramesSent(cfg, t, inbound, around) && f.msgType == RESPONSE
    ensures RequestOf(cfg, inbound, around).Some? && around.enroll.issued.Some?
    ensures var got := RequestOf(cfg, inbound, around).value;
      var id, req, keys := cfg.text(got.0.hello.enrollmentId), EnrollRequest(cfg, got.1), got.0.keys;
      var agentId, cert := Service.Identified(id, req, around.enroll), around.enroll.issued.value;
      && inbound[1].payload == Sealed(cfg.hmac, keys, REQUEST, inbound[1].seqNum, RequestBytes(got.1))
      && Issued(Enrolled(cfg, t, id, req, around), id, agentId, cert)
      && Some(f) == ResponseTo(cfg, keys, inbound[1], agentId, cert)
  {
    hide Machine.Run, Machine.Next, Service.EnrollSteps, DecodedHello, Opened, ServerRequest, ServerResponse, ServerAck,
         ServerChallenge, Issued, Sealed, RequestBytes, Service.Identified, Wired, Store.CertsOk;
    SessionIsHello(cfg, inbound[0], around.serverNonce.value);
    ChallengeIsChallenge(cfg, inbound[0], around.serverNonce.value);
    var got := RequestOf(cfg, inbound, around).value;
    var id, req := cfg.text(got.0.hello.enrollmentId), EnrollRequest(cfg, got.1);
    RequestIsAuthentic(cfg.hmac, got.0.keys, inbound[1], got.1);
    var s1 := Machine.Next(Opened(t, id), Machine.GetPending(0, around.pendingAt, around.pendingFault));
    PendingStep(t, id, around.pendingAt, around.pendingFault);
    PendingCerts(t, id, around.pendingAt, around.pendingFault);
    EnrollCommits(s1, Enrolled(cfg, t, id, req, around), id, s1.sessions[0].phase.expected, req, around.enroll);
  }

  // The stores end up as after the connection's own steps of the state machine,
  // and the frames sent are those the machine accounts for.
  method HandleConn(cfg: Config, db: Service.Database, inbound: seq<Frame>, around: Surroundings)
    returns (sent: seq<Frame>)
    modifies db
    ensures HelloOf(inbound).None? ==> db.Contents() == old(db.Contents())
    ensures HelloOf(inbound).Some? ==>
      var id := cfg.text(HelloOf(inbound).value.enrollmentId);
      db.Contents() == Machine.Run(Opened(old(db.Contents()), id), StepsOf(cfg, id, inbound, around)).tables
    ensures sent == FramesSent(cfg, old(db.Contents()), inbound, around)
  {
    hide Machine.Run, Machine.Next, Service.EnrollSteps, DecodedHello, Opened, ServerRequest, ServerResponse, ServerAck, ServerChallenge;
    sent := [];
    if |inbound| < 1 { return; }
    if inbound[0].msgType != HELLO { return [Refusal(inbound[0], "unexpected enrollment message type")]; }
    var hello := DecodeHello(inbound[0].payload);
    if hello.None? { return [Refusal(inbound[0], "invalid enrollment hello")]; }
    var id := cfg.text(hello.value.enrollmentId);
    ghost var t0 := db.Contents();
    ghost var s0 := Opened(t0, id);
    ghost var pending := Machine.GetPending(0, around.pendingAt, around.pendingFault);
    ghost var steps := StepsOf(cfg, id, inbound, around);
    ghost var later := steps[1..];
    assert steps == [pending] + later;
    PendingStep(t0, id, around.pendingAt, around.pendingFault);
    RunOne(s0, pending);
    RunAppend(s0, [pending], later);
    var row := db.GetPendingEnrollment(id, around.pendingAt, around.pendingFault);
    ghost var s1 := Machine.Next(s0, pending);
    if row.Err? {
      OwnSteps(cfg, id, inbound, around);
      ClosedDoesNothing(s1, later);
      return [Refusal(inbound[0], "enrollment failed")];
    }
    RunNothing(s1);
    var xorKey := cfg.vault(hello.value.enrollmentId);
    if xorKey.None? {
      NoKey(cfg, inbound, around);
      return [Refusal(inbound[0], "enrollment failed")];
    }
    if around.serverNonce.None? { return [Refusal(inbound[0], "nonce generation failed")]; }
    var session := StartSession(cfg, inbound[0], hello.value, xorKey.value, around.serverNonce.value);
    if session.None? { return [Refusal(inbound[0], "session key derivation failed")]; }
    SessionIsHello(cfg, inbound[0], around.serverNonce.value);
    if !around.challengeSent { return; }
    sent := [session.value.challenge];
    ChallengeIsChallenge(cfg, inbound[0], around.serverNonce.value);
    if |inbound| < 2 { return; }
    var rest := Answer(cfg, db, t0, id, row.value, session.value.keys, inbound, around);
    sent := sent + rest;
  }

  // handleConn once the challenge is out and a second frame has come
  method Answer(cfg: Config, db: Service.Database, ghost t: Store.Tables, id: string, expected: string,
                keys: Keys, inbound: seq<Frame>, around: Surroundings)
    returns (sent: seq<Frame>)
    requires |inbound| >= 2
    requires Machine.Next(Opened(t, id), Machine.GetPending(0, around.pendingAt, around.pendingFault))
          == Service.Admitted(db.Contents(), id, expected)
    modifies db
    ensures sent == AnswerSent(cfg, t, id, keys, inbound, around)
    ensures db.Contents()
         == Machine.Run(Service.Admitted(old(db.Contents()), id, expected), LaterSteps(cfg, id, keys, inbound, around)).tables
  {
    hide Machine.Run, Machine.Next, Service.EnrollSteps, Opened, ServerRequest, ServerResponse, WhyRefused, Service.Identified,
         Channel.Opened, Sealed, ResponseBytes;
    sent := [];
    ghost var s1 := Service.Admitted(db.Contents(), id, expected);
    RunNothing(s1);
    var req, why := TakeRequest(cfg, keys, inbound[1]);
    if req.None? { return [Refusal(inbound[1], why)]; }
    var enrollReq := EnrollRequest(cfg, req.value);
    ghost var five := Service.EnrollSteps(id, enrollReq, around.enroll);
    ghost var s2 := Machine.Run(s1, five);
    assert s2 == Enrolled(cfg, t, id, enrollReq, around);
    var resp := Service.Enroll(db, id, expected, enrollReq, around.enroll);
    ghost var last :=
      if Acknowledged(cfg, keys, id, enrollReq, inbound, around) then [Machine.Acknowledge(0, around.markFault)] else [];
    RunAppend(s1, five, last);
    RunOne(s2, Machine.Acknowledge(0, around.markFault));
    RunNothing(s2);
    MarkStep(s2, around.markFault);
    RespondedTo(s1, s2, id, expected, enrollReq, around.enroll);
    if resp.Err? { return [Refusal(inbound[1], "enrollment failed")]; }
    var out := MakeResponse(cfg, keys, inbound[1], resp.value);
    if out.None? { return [Refusal(inbound[1], "response encode failed")]; }
    if !Fits(out.value) || !around.responseSent { return; }
    sent := [out.value];
    if |inbound| >= 3 && inbound[2].msgType == ACK {
      var ack := OpenProtected(cfg.hmac, inbound[2].msgType, inbound[2].seqNum, inbound[2].payload, keys);
      if ack.Some? {
        var _ := db.MarkEnrollmentUsed(id, resp.value.agentId, around.markFault);
      }
    }
  }

  // the protected response, if it can be encoded; it may still be too long to send
  method MakeResponse(cfg: Config, keys: Keys, request: Frame, resp: Service.Response) returns (out: Option<Frame>)
    ensures out.None? <==> Wired(cfg.render(resp.agentId, resp.cert)).None?
    ensures out.Some? ==> ResponseTo(cfg, keys, request, resp.agentId, resp.cert) == if Fits(out.value) then out else None
  {
    hide Sealed, ResponseBytes;
    var plain := EncodeResponse(cfg.render(resp.agentId, resp.cert));
    if plain.None? { return None; }
    var number := (request.seqNum + 1) % 0x1_0000_0000;
    var sealed := SealProtected(cfg.hmac, RESPONSE, number, plain.value, keys);
    out := Some(Frame(RESPONSE, number, sealed));
  }

  // from the key to the challenge
  method StartSession(cfg: Config, f: Frame, hello: Hello, xorKey: Bytes, serverNonce: Nonce) returns (session: Option<Session>)
    requires f.msgType == HELLO && DecodedHello(f.payload) == Some(hello) && cfg.vault(hello.enrollmentId) == Some(xorKey)
    ensures session == ServerChallenge(cfg.hmac, cfg.vault, f, serverNonce)
  {
    hide Derived, Proof, ChallengeBytes, Layout;
    HelloExact(f.payload, hello);
    var keys := DeriveSessionKeys(cfg.hmac, xorKey, hello.enrollmentId, hello.clientNonce, serverNonce);
    if keys.None? { return None; }
    var proof := ServerProof(cfg.hmac, keys.value, hello.enrollmentId, hello.clientNonce, serverNonce);
    var payload := ChallengeBytes(Challenge(serverNonce, proof));
    session := Some(Session(hello, keys.value, Frame(CHALLENGE, (f.seqNum + 1) % 0x1_0000_0000, payload)));
  }

  // the protected request, or why it is refused
  method TakeRequest(cfg: Config, keys: Keys, f: Frame) returns (req: Option<Request>, why: string)
    ensures req == ServerRequest(cfg.hmac, keys, f) && why == WhyRefused(cfg, keys, f)
  {
    hide Channel.Opened, DecodedRequest;
    if f.msgType != REQUEST { return None, "unexpected protected request type"; }
    var plain := OpenProtected(cfg.hmac, f.msgType, f.seqNum, f.payload, keys);
    if plain.None? { return None, "invalid protected request"; }
    why := "invalid enrollment request";
    req := DecodeRequest(plain.value);
  }

  // writeError: a frame of its own type, under the number it answers
  function Refusal(f: Frame, message: string): Frame
    requires |message| < 0x1_0000
  {
    Frame(ERROR, f.seqNum, Layout([Str(Ascii(message))]))
  }

  function WhyRefused(cfg: Config, keys: Keys, f: Frame): (why: string)
    ensures |why| < 0x1_0000
  {
    if f.msgType != REQUEST then "unexpected protected request type"
    else if Channel.Opened(cfg.hmac, keys, f.msgType, f.seqNum, f.payload).None? then "invalid protected request"
    else "invalid enrollment request"
  }

  lemma SessionIsHello(cfg: Config, f: Frame, serverNonce: Bytes)
    ensures ServerChallenge(cfg.hmac, cfg.vault, f, serverNonce).Some? ==>
      DecodedHello(f.payload) == Some(ServerChallenge(cfg.hmac, cfg.vault, f, serverNonce).value.hello)
  {
  }

  lemma NoKey(cfg: Config, inbound: seq<Frame>, around: Surroundings)
    requires HelloOf(inbound).Some? && cfg.vault(HelloOf(inbound).value.enrollmentId).None?
    ensures SessionOf(cfg, inbound, around).None?
  {
    hide DecodedHello;
  }

  lemma ChallengeIsChallenge(cfg: Config, f: Frame, serverNonce: Bytes)
    ensures ServerChallenge(cfg.hmac, cfg.vault, f, serverNonce).Some? ==>
      ServerChallenge(cfg.hmac, cfg.vault, f, serverNonce).value.challenge.msgType == CHALLENGE
  {
  }

  // How far the session of an Enroll call has come, with what it carries.
  ghost predicate Between(s: Machine.State, id: string, phases: set<Machine.Phase>) {
    0 in s.sessions && s.sessions[0].id == id && s.sessions[0].phase in phases
  }

  lemma ValidatePhase(s: Machine.State, id: string, expected: string, agentId: string)
    requires Between(s, id, {Machine.Admitted(expected)})
    ensures Between(Machine.Next(s, Machine.Validate(0, agentId)), id, {Machine.Closed, Machine.Validated(expected, agentId)})
  {
  }

  lemma ClaimPhase(s: Machine.State, id: string, e: string, a: string, now: Store.Time, fault: Store.Fault)
    requires Between(s, id, {Machine.Closed, Machine.Validated(e, a)})
    ensures Between(Machine.Next(s, Machine.Claim(0, now, fault)), id, {Machine.Closed, Machine.Claimed(e, a)})
  {
  }

  lemma IssuePhase(s: Machine.State, id: string, e: string, a: string, issued: Option<Store.IssuedCert>)
    requires Between(s, id, {Machine.Closed, Machine.Claimed(e, a)})
    ensures Between(Machine.Next(s, Machine.Issue(0, issued)), id,
      {Machine.Closed, Machine.Unwinding(e, a)} + if issued.Some? then {Machine.Certified(e, a, issued.value)} else {})
  {
  }

  lemma FinalizePhase(s: Machine.State, id: string, e: string, a: string, issued: Option<Store.IssuedCert>,
                      p: Store.Payload, now: Store.Time, fault: Store.Fault)
    requires Between(s, id, {Machine.Closed, Machine.Unwinding(e, a)} + if issued.Some? then {Machine.Certified(e, a, issued.value)} else {})
    ensures Between(Machine.Next(s, Machine.Finalize(0, p, now, fault)), id,
      {Machine.Closed, Machine.Unwinding(e, a)} + if issued.Some? then {Machine.Responded(a, issued.value)} else {})
  {
    hide Store.FinalizeTx;
  }

  lemma ReleasePhase(s: Machine.State, id: string, e: string, a: string, issued: Option<Store.IssuedCert>, fault: Store.Fault)
    requires Between(s, id, {Machine.Closed, Machine.Unwinding(e, a)} + if issued.Some? then {Machine.Responded(a, issued.value)} else {})
    ensures Between(Machine.Next(s, Machine.Release(0, fault)), id,
      {Machine.Closed} + if issued.Some? then {Machine.Responded(a, issued.value)} else {})
  {
    hide Store.ReleaseTx;
  }

  // Nothing is committed before FinalizeEnrollmentIssue, and it commits what Issued says.
  lemma FinalizeCommits(s: Machine.State, id: string, p: Store.Payload, now: Store.Time, fault: Store.Fault)
    requires 0 in s.sessions && s.sessions[0].id == id && !s.sessions[0].phase.Responded?
    requires s.commits == [] && Store.CertsOk(s.tables.certs)
    ensures var s' := Machine.Next(s, Machine.Finalize(0, p, now, fault));
      0 in s'.sessions && (s'.sessions[0].phase.Responded? ==>
        Issued(s', id, s'.sessions[0].phase.agentId, s'.sessions[0].phase.cert))
  {
    hide Store.RotateActive, Store.CertsOk, Store.SingleActive, Store.Carries, Store.EnsureMatching;
    if s.sessions[0].phase.Certified? {
      Store.RotateKeeps(s.tables.certs, s.sessions[0].phase.agentId, s.sessions[0].phase.cert, now);
      if Store.RotateActive(s.tables.certs, s.sessions[0].phase.agentId, s.sessions[0].phase.cert, now).Ok? {
        Store.RotatedIsAccepted(s.tables.certs, s.sessions[0].phase.agentId, s.sessions[0].phase.cert, now, now);
      }
    }
  }

  lemma EarlyStep(s: Machine.State, step: Machine.Step)
    requires step.Validate? || step.Claim? || step.Issue?
    ensures Machine.Next(s, step).commits == s.commits && Machine.Next(s, step).tables.certs == s.tables.certs
  {
  }

  lemma LateStep(s: Machine.State, fault: Store.Fault)
    requires 0 in s.sessions
    ensures var s' := Machine.Next(s, Machine.Release(0, fault));
      0 in s'.sessions && (s'.sessions[0].phase.Responded? ==> s' == s)
  {
  }

  lemma PendingCerts(t: Store.Tables, id: string, now: Store.Time, fault: Store.Fault)
    ensures Store.Observed(t, Store.GetPendingTx(t, id, now), fault).tables.certs == t.certs
  {
  }

  lemma EnrollCommits(s1: Machine.State, s2: Machine.State, id: string, expected: string,
                      req: Service.Request, around: Service.Surroundings)
    requires s1 == Service.Admitted(s1.tables, id, expected) && Store.CertsOk(s1.tables.certs)
    requires s2 == Machine.Run(s1, Service.EnrollSteps(id, req, around))
    requires 0 in s2.sessions && s2.sessions[0].phase.Responded?
    ensures around.issued.Some?
    ensures var agentId := Service.Identified(id, req, around);
      s2.sessions[0].phase == Machine.Responded(agentId, around.issued.value) && Issued(s2, id, agentId, around.issued.value)
  {
    hide Machine.Next, Machine.Run, Issued, Store.CertsOk, Service.Identified;
    RespondedTo(s1, s2, id, expected, req, around);
    var steps := Service.EnrollSteps(id, req, around);
    Service.RunFive(s1, steps);
    var a := Service.Identified(id, req, around);
    var v := Machine.Next(s1, steps[0]);
    ValidatePhase(s1, id, expected, a);
    EarlyStep(s1, steps[0]);
    var c := Machine.Next(v, steps[1]);
    ClaimPhase(v, id, expected, a, around.claimAt, around.claimFault);
    EarlyStep(v, steps[1]);
    var i := Machine.Next(c, steps[2]);
    IssuePhase(c, id, expected, a, around.issued);
    EarlyStep(c, steps[2]);
    var f := Machine.Next(i, steps[3]);
    FinalizeCommits(i, id, steps[3].payload, around.finalizeAt, around.finalizeFault);
    LateStep(f, around.releaseFault);
  }

  // what Enroll's session carries when it responds
  lemma RespondedTo(s1: Machine.State, s2: Machine.State, id: string, expected: string,
                    req: Service.Request, around: Service.Surroundings)
    requires s1 == Service.Admitted(s1.tables, id, expected)
    requires s2 == Machine.Run(s1, Service.EnrollSteps(id, req, around))
    ensures 0 in s2.sessions && s2.sessions[0].id == id
    ensures s2.sessions[0].phase.Responded? ==>
      around.issued.Some? && s2.sessions[0].phase == Machine.Responded(Service.Identified(id, req, around), around.issued.value)
  {
    hide Machine.Next, Machine.Run;
    var steps := Service.EnrollSteps(id, req, around);
    Service.RunFive(s1, steps);
    var a := Service.Identified(id, req, around);
    var v := Machine.Next(s1, steps[0]);
    ValidatePhase(s1, id, expected, a);
    var c := Machine.Next(v, steps[1]);
    ClaimPhase(v, id, expected, a, around.claimAt, around.claimFault);
    var i := Machine.Next(c, steps[2]);
    IssuePhase(c, id, expected, a, around.issued);
    var f := Machine.Next(i, steps[3]);
    FinalizePhase(i, id, expected, a, around.issued, steps[3].payload, around.finalizeAt, around.finalizeFault);
    ReleasePhase(f, id, expected, a, around.issued, around.releaseFault);
  }

  // ----- what a connection sends and marks ---------------------------------------------------

  // A refusal on the wire: the error type, the number of the frame refused and the
  // message as a string.
  lemma RefusalLayout(f: Frame, message: string)
    requires |message| < 0x1_0000
    ensures var r := Refusal(f, message);
      r.msgType == 0x26 && r.seqNum == f.seqNum && r.payload == Bytes16(|message|) + Ascii(message)
  {
    hide Bytes16, Ascii;
    LayoutSnoc([], Str(Ascii(message)));
    assert [] + [Str(Ascii(message))] == [Str(Ascii(message))];
    assert [] + Encoded(Str(Ascii(message))) == Encoded(Str(Ascii(message)));
  }

  // Why a request is refused: a frame of another type, bytes not sealed under the
  // session's keys for that number, or sealed bytes that are no request.
  lemma WhyExact(cfg: Config, keys: Keys, f: Frame, plain: Bytes)
    ensures ServerRequest(cfg.hmac, keys, f).Some? || f.msgType == 0x23 || WhyRefused(cfg, keys, f) == "unexpected protected request type"
    ensures f.msgType == 0x23 && f.payload == Sealed(cfg.hmac, keys, 0x23, f.seqNum, plain) ==>
      && (ServerRequest(cfg.hmac, keys, f).None? <==> forall q :: plain != RequestBytes(q))
      && WhyRefused(cfg, keys, f) == "invalid enrollment request"
    ensures f.msgType == 0x23 && (forall p :: f.payload != Sealed(cfg.hmac, keys, 0x23, f.seqNum, p)) ==>
      ServerRequest(cfg.hmac, keys, f).None? && WhyRefused(cfg, keys, f) == "invalid protected request"
  {
    hide Channel.Opened, Sealed, DecodedRequest, RequestBytes;
    var inside := Channel.Opened(cfg.hmac, keys, f.msgType, f.seqNum, f.payload);
    OpenedExact(cfg.hmac, keys, 0x23, f.seqNum, f.payload, plain);
    if f.msgType == 0x23 && inside.Some? { OpenedExact(cfg.hmac, keys, 0x23, f.seqNum, f.payload, inside.value); }
    forall q ensures DecodedRequest(plain) == Some(q) <==> plain == RequestBytes(q) { RequestExact(plain, q); }
  }

  // A connection sends at most two frames: a challenge under the number after the
  // hello's, then a response under the number after the request's or a refusal; or
  // a refusal of the hello alone.
  lemma FramesShape(cfg: Config, t: Store.Tables, inbound: seq<Frame>, around: Surroundings)
    ensures var sent := FramesSent(cfg, t, inbound, around);
      && |sent| <= 2 && |sent| <= |inbound|
      && (|sent| >= 1 ==> sent[0].msgType == 0x22 || (sent[0].msgType == 0x26 && |sent| == 1))
      && (|sent| >= 1 && sent[0].msgType == 0x26 ==> sent[0].seqNum == inbound[0].seqNum)
      && (|sent| >= 1 && sent[0].msgType == 0x22 ==> sent[0].seqNum == (inbound[0].seqNum + 1) % 0x1_0000_0000)
      && (|sent| == 2 ==>
            || (sent[1].msgType == 0x24 && sent[1].seqNum == (inbound[1].seqNum + 1) % 0x1_0000_0000)
            || (sent[1].msgType == 0x26 && sent[1].seqNum == inbound[1].seqNum))
  {
    hide Machine.Next, DecodedHello, ServerRequest, WhyRefused, Enrolled, Wired, ChallengeBytes, ResponseBytes, Sealed, Derived, Proof;
  }

  // Why a hello is refused: the type, a payload that encodes no hello, a row that is
  // not pending and unexpired or has no key, and a nonce that cannot be drawn.
  lemma HelloRefused(cfg: Config, t: Store.Tables, inbound: seq<Frame>, around: Surroundings)
    requires |inbound| >= 1
    ensures inbound[0].msgType != 0x21 ==>
      FramesSent(cfg, t, inbound, around) == [Refusal(inbound[0], "unexpected enrollment message type")]
    ensures inbound[0].msgType == 0x21 && DecodedHello(inbound[0].payload).None? ==>
      FramesSent(cfg, t, inbound, around) == [Refusal(inbound[0], "invalid enrollment hello")]
    ensures inbound[0].msgType == 0x21 && DecodedHello(inbound[0].payload).Some? ==>
      var hello := DecodedHello(inbound[0].payload).value;
      var id := cfg.text(hello.enrollmentId);
      var admitted := around.pendingFault.NoFault? && id in t.enrollments && t.enrollments[id].status == Store.Pending
                      && around.pendingAt < t.enrollments[id].expiresAt;
      && (!admitted || cfg.vault(hello.enrollmentId).None? ==>
            FramesSent(cfg, t, inbound, around) == [Refusal(inbound[0], "enrollment failed")])
      && (admitted && cfg.vault(hello.enrollmentId).Some? && around.serverNonce.None? ==>
            FramesSent(cfg, t, inbound, around) == [Refusal(inbound[0], "nonce generation failed")])
      && (admitted && cfg.vault(hello.enrollmentId).Some? && around.serverNonce.Some? && around.challengeSent ==>
            |FramesSent(cfg, t, inbound, around)| >= 1)
  {
    hide DecodedHello, Refusal, Machine.Next, ServerChallenge, AnswerSent;
    if inbound[0].msgType == 0x21 && DecodedHello(inbound[0].payload).Some? {
      PendingStep(t, cfg.text(DecodedHello(inbound[0].payload).value.enrollmentId), around.pendingAt, around.pendingFault);
    }
  }

  // A second frame is answered: with the reason if it holds no request, and with a
  // refusal or the response otherwise, unless that is too long or cannot be sent.
  lemma RequestAnswered(cfg: Config, t: Store.Tables, id: string, keys: Keys, inbound: seq<Frame>, around: Surroundings)
    requires |inbound| >= 2
    ensures ServerRequest(cfg.hmac, keys, inbound[1]).None? ==>
      AnswerSent(cfg, t, id, keys, inbound, around) == [Refusal(inbound[1], WhyRefused(cfg, keys, inbound[1]))]
    ensures AnswerSent(cfg, t, id, keys, inbound, around) == [] ==>
      && ServerRequest(cfg.hmac, keys, inbound[1]).Some?
      && var done := Enrolled(cfg, t, id, EnrollRequest(cfg, ServerRequest(cfg.hmac, keys, inbound[1]).value), around);
         && 0 in done.sessions && done.sessions[0].phase.Responded?
         && (!around.responseSent || ResponseTo(cfg, keys, inbound[1], done.sessions[0].phase.agentId, done.sessions[0].phase.cert).None?)
  {
    hide ServerRequest, Refusal, Enrolled, ServerResponse, WhyRefused, EnrollRequest;
  }

  // A row becomes used on a connection only if it is the row of its hello, the
  // response went out, and a frame sealed for the acknowledgement under the
  // session's own keys came back.
  lemma UsedOnlyOnAck(cfg: Config, t: Store.Tables, id: string, inbound: seq<Frame>, around: Surroundings, row: string)
    requires row in t.enrollments && t.enrollments[row].status != Store.Used
    requires var final := Machine.Run(Opened(t, id), StepsOf(cfg, id, inbound, around)).tables;
      row in final.enrollments && final.enrollments[row].status == Store.Used
    ensures row == id && RequestOf(cfg, inbound, around).Some? && around.responseSent && |inbound| >= 3
    ensures inbound[2].msgType == 0x25
         && exists plain ::
              inbound[2].payload == Sealed(cfg.hmac, RequestOf(cfg, inbound, around).value.0.keys, 0x25, inbound[2].seqNum, plain)
  {
    hide Machine.Run, Machine.Next, SessionOf, ServerRequest, ServerAck, Sealed, ResponseTo, EnrollRequest, Service.Identified;
    var steps := StepsOf(cfg, id, inbound, around);
    OwnSteps(cfg, id, inbound, around);
    var k := MarkedBy(Opened(t, id), steps, row);
    assert steps[k].Acknowledge?;
    AckIsAuthentic(cfg.hmac, RequestOf(cfg, inbound, around).value.0.keys, inbound[2]);
  }

  // The step of a lone session that makes a row used.
  lemma {:induction false} MarkedBy(s: Machine.State, steps: seq<Machine.Step>, row: string) returns (k: nat)
    requires s.sessions.Keys == {0} && forall i :: 0 <= i < |steps| ==> Machine.Actor(steps[i]) == Some(0)
    requires row in s.tables.enrollments && s.tables.enrollments[row].status != Store.Used
    requires var final := Machine.Run(s, steps).tables; row in final.enrollments && final.enrollments[row].status == Store.Used
    ensures k < |steps| && steps[k].Acknowledge? && row == s.sessions[0].id
    decreases |steps|
  {
    hide Machine.Next;
    var s' := Machine.Next(s, steps[0]);
    Machine.CommitIffIssued(s, steps[0], row);
    LoneSession(s, steps[0]);
    if s'.tables.enrollments[row].status == Store.Used {
      Issuance.UsedByAcknowledge(s, steps[0], row);
      k := 0;
    } else {
      k := MarkedBy(s', steps[1..], row);
      k := k + 1;
    }
  }

  lemma LoneSession(s: Machine.State, step: Machine.Step)
    requires s.sessions.Keys == {0} && Machine.Actor(step) == Some(0)
    ensures Machine.Next(s, step).sessions.Keys == {0} && Machine.Next(s, step).sessions[0].id == s.sessions[0].id
  {
    hide Store.RotateActive;
    match step
    case GetPending(_, _, _) =>
    case Validate(_, _) =>
    case Claim(_, _, _) =>
    case Issue(_, _) =>
    case Finalize(_, _, _, _) =>
    case Release(_, _) =>
    case Acknowledge(_, _) =>
    case Open(_, _) =>
    case Hangup(_) =>
    case Kill(_) =>
  }
}
