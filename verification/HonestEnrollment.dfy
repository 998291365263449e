// Agent and server together: what one enrollment connection comes to when nothing
// fails, with each side sending what it does on the frames of the other.

module HonestEnrollment {
  import opened Prelude
  import opened Wire
  import opened Channel
  import opened Handshake
  import Store
  import Service
  import Server
  import Machine = Enrollment

  // The frames of one connection: the agent's are what it sends on the server's,
  // and the server's what it sends on the agent's.
  ghost predicate Talk(cfg: Server.Config, a: Config, clientNonce: Bytes, t: Store.Tables, around: Server.Surroundings,
                       inbound: seq<Frame>, replies: seq<Frame>)
  {
    && inbound == AgentSent(cfg.hmac, a, clientNonce, replies, true)
    && replies == Server.FramesSent(cfg, t, inbound, around)
  }

  // the agent holds the id and the key of the enrollment, and its frames are not too long
  predicate Provisioned(cfg: Server.Config, a: Config) {
    && 0 !in a.enrollmentId && 0 !in a.xorKey && a.enrollmentId != [] && a.xorKey != []
    && cfg.vault(a.enrollmentId) == Some(a.xorKey)
    && |a.enrollmentId| + 4 + NONCE_SIZE + HEADER_SIZE <= MAX_FRAME
    && |RequestBytes(a.request)| + MAC_SIZE + HEADER_SIZE <= MAX_FRAME
  }

  // the row is pending, unexpired throughout, and bound to no other agent
  predicate Pending(t: Store.Tables, id: string, number: string, around: Server.Surroundings) {
    && id in t.enrollments
    && var row := t.enrollments[id];
       && row.status == Store.Pending
       && row.expiresAt > around.pendingAt && row.expiresAt > around.enroll.claimAt && row.expiresAt > around.enroll.finalizeAt
       && (row.agentId.None? || row.agentId.value == "" || row.agentId.value == number)
  }

  // no store operation fails, every frame gets through, a certificate is issued
  predicate Undisturbed(around: Server.Surroundings) {
    && around.pendingFault.NoFault? && around.enroll.claimFault.NoFault? && around.enroll.finalizeFault.NoFault?
    && around.markFault.NoFault?
    && around.serverNonce.Some? && around.challengeSent && around.responseSent && around.enroll.issued.Some?
  }

  // the response for that agent and certificate can be sent
  predicate Deliverable(cfg: Server.Config, number: string, cert: Store.IssuedCert) {
    var wired := Wired(cfg.render(number, cert));
    wired.Some? && |ResponseBytes(wired.value)| + MAC_SIZE + HEADER_SIZE <= MAX_FRAME
  }

  // ----- the tables --------------------------------------------------------------------------

  ghost function Alone(t: Store.Tables, id: string, phase: Machine.Phase): Machine.State {
    Machine.State(t, map[0 := Machine.Session(id, phase)], map[], [])
  }

  lemma ValidateTo(t: Store.Tables, id: string, e: string, a: string)
    requires a != "" && (e == "" || e == a)
    ensures Machine.Next(Alone(t, id, Machine.Admitted(e)), Machine.Validate(0, a)) == Alone(t, id, Machine.Validated(e, a))
  {
    assert map[0 := Machine.Session(id, Machine.Admitted(e))][0 := Machine.Session(id, Machine.Validated(e, a))]
        == map[0 := Machine.Session(id, Machine.Validated(e, a))];
  }

  lemma ClaimTo(t: Store.Tables, id: string, e: string, a: string, now: Store.Time)
    requires Store.ClaimTx(t, id, a, now).outcome.Ok?
    ensures Machine.Next(Alone(t, id, Machine.Validated(e, a)), Machine.Claim(0, now, Store.NoFault))
         == Alone(Store.ClaimTx(t, id, a, now).tables, id, Machine.Claimed(e, a))
  {
    assert map[0 := Machine.Session(id, Machine.Validated(e, a))][0 := Machine.Session(id, Machine.Claimed(e, a))]
        == map[0 := Machine.Session(id, Machine.Claimed(e, a))];
  }

  lemma IssueTo(t: Store.Tables, id: string, e: string, a: string, cert: Store.IssuedCert)
    ensures Machine.Next(Alone(t, id, Machine.Claimed(e, a)), Machine.Issue(0, Some(cert))) == Alone(t, id, Machine.Certified(e, a, cert))
  {
    assert map[0 := Machine.Session(id, Machine.Claimed(e, a))][0 := Machine.Session(id, Machine.Certified(e, a, cert))]
        == map[0 := Machine.Session(id, Machine.Certified(e, a, cert))];
  }

  lemma FinalizeTo(t: Store.Tables, id: string, e: string, a: string, cert: Store.IssuedCert, p: Store.Payload, now: Store.Time)
    requires Store.FinalizeTx(t, id, a, p, cert, now).outcome.Ok?
    ensures var s := Machine.Next(Alone(t, id, Machine.Certified(e, a, cert)), Machine.Finalize(0, p, now, Store.NoFault));
      && s.tables == Store.FinalizeTx(t, id, a, p, cert, now).tables
      && 0 in s.sessions && s.sessions[0] == Machine.Session(id, Machine.Responded(a, cert))
  {
  }

  lemma FreshRotates(certs: seq<Store.Certificate>, agentId: string, cert: Store.IssuedCert, now: Store.Time)
    requires Store.ByFingerprint(certs, cert.fingerprint).None?
    ensures Store.RotateActive(certs, agentId, cert, now).Ok?
  {
  }

  // the agent's row as the request describes it, as online as it was; no other changes
  ghost predicate Stored(agents: map<string, Store.Agent>, agents': map<string, Store.Agent>, number: string, req: Service.Request) {
    && agents' - {number} == agents - {number} && number in agents'
    && agents'[number].payload == Store.Payload(req.hostname, req.ip, req.os, req.monitorType)
    && (agents'[number].online <==> number in agents && agents[number].online)
  }

  // the row once the certificate is issued
  function IssuedRow(row: Store.Enrollment, number: string): Store.Enrollment {
    Store.Enrollment(Some(number), Store.Issued, row.expiresAt, row.attempts + 1)
  }

  lemma EnrollSucceeds(cfg: Server.Config, t: Store.Tables, id: string, req: Service.Request, around: Server.Surroundings)
    requires var number := Service.Identified(id, req, around.enroll); number != "" && Pending(t, id, number, around)
    requires Undisturbed(around) && Store.ByFingerprint(t.certs, around.enroll.issued.value.fingerprint).None?
    ensures var number, done := Service.Identified(id, req, around.enroll), Server.Enrolled(cfg, t, id, req, around);
      && Machine.Next(Server.Opened(t, id), Machine.GetPending(0, around.pendingAt, around.pendingFault)).sessions[0].phase.Admitted?
      && 0 in done.sessions && done.sessions[0] == Machine.Session(id, Machine.Responded(number, around.enroll.issued.value))
      && Stored(t.agents, done.tables.agents, number, req)
      && done.tables.enrollments == t.enrollments[id := IssuedRow(t.enrollments[id], number)]
  {
    hide Machine.Next, Machine.Run, Store.RotateActive, Service.Identified, Store.UpsertOffline;
    var number, cert := Service.Identified(id, req, around.enroll), around.enroll.issued.value;
    var row := t.enrollments[id];
    var e := if row.agentId.Some? then row.agentId.value else "";
    Server.PendingStep(t, id, around.pendingAt, around.pendingFault);
    var t1 := t.(enrollments := t.enrollments[id := row.(attempts := row.attempts + 1)]);
    var s1 := Alone(t1, id, Machine.Admitted(e));
    var steps := Service.EnrollSteps(id, req, around.enroll);
    Service.RunFive(s1, steps);
    ValidateTo(t1, id, e, number);
    ClaimTo(t1, id, e, number, around.enroll.claimAt);
    var t2 := Store.ClaimTx(t1, id, number, around.enroll.claimAt).tables;
    IssueTo(t2, id, e, number, cert);
    FreshRotates(t2.certs, number, cert, around.enroll.finalizeAt);
    FinalizeTo(t2, id, e, number, cert, steps[3].payload, around.enroll.finalizeAt);
    var s5 := Machine.Next(Alone(t2, id, Machine.Certified(e, number, cert)), steps[3]);
    Server.LateStep(s5, around.enroll.releaseFault);
    Staying(s5, around.enroll.releaseFault);
    Upserted(t2.agents, number, steps[3].payload);
    assert s5.tables.enrollments == t.enrollments[id := IssuedRow(row, number)];
  }

  lemma Staying(s: Machine.State, fault: Store.Fault)
    requires 0 in s.sessions && s.sessions[0].phase.Responded?
    ensures Machine.Next(s, Machine.Release(0, fault)) == s
  {
  }

  lemma Upserted(agents: map<string, Store.Agent>, number: string, p: Store.Payload)
    ensures Stored(agents, Store.UpsertOffline(agents, number, p), number, Service.Request(p.hostname, p.ip, p.os, p.monitorType))
  {
  }

  // ----- the frames -----------------------------------------------------------------------------

  lemma FramesFit(hmac: Hmac, keys: Keys, a: Config, clientNonce: Bytes)
    requires |a.enrollmentId| + 4 + NONCE_SIZE + HEADER_SIZE <= MAX_FRAME && |clientNonce| == NONCE_SIZE && 0 !in a.enrollmentId
    requires |RequestBytes(a.request)| + MAC_SIZE + HEADER_SIZE <= MAX_FRAME
    ensures AgentHello(a, clientNonce).Some? && AgentRequest(hmac, keys, a.request).Some?
  {
    hide Sealed, RequestBytes, HelloBytes, CString;
    SealedSize(hmac, keys, REQUEST, 3, RequestBytes(a.request));
  }

  lemma ResponseFits(cfg: Server.Config, keys: Keys, request: Frame, number: string, cert: Store.IssuedCert)
    requires Deliverable(cfg, number, cert)
    ensures Server.ResponseTo(cfg, keys, request, number, cert)
         == ServerResponse(cfg.hmac, keys, request, Wired(cfg.render(number, cert)).value)
    ensures Server.ResponseTo(cfg, keys, request, number, cert).Some?
  {
    hide Sealed, ResponseBytes;
    SealedSize(cfg.hmac, keys, RESPONSE, (request.seqNum + 1) % 0x1_0000_0000, ResponseBytes(Wired(cfg.render(number, cert)).value));
  }

  // An agent that holds the key of a pending, unexpired enrollment not bound to
  // another agent, whose connection is undisturbed and whose certificate is new,
  // gets through: it accepts the challenge, opens the response made for its number
  // and certificate, and acknowledges it. Its row ends up used, every other row as
  // it was, the agent stored as it described itself, and that certificate is the
  // agent's single active one, with which it can register whenever it likes.
  lemma Enrolls(cfg: Server.Config, a: Config, clientNonce: Bytes, t: Store.Tables, around: Server.Surroundings,
                inbound: seq<Frame>, replies: seq<Frame>)
    requires |clientNonce| == NONCE_SIZE && Provisioned(cfg, a) && Undisturbed(around)
    requires Talk(cfg, a, clientNonce, t, around, inbound, replies)
    requires var id := cfg.text(a.enrollmentId);
      var number := Service.Identified(id, Server.EnrollRequest(cfg, a.request), around.enroll);
      number != "" && Pending(t, id, number, around) && Deliverable(cfg, number, around.enroll.issued.value)
    requires Store.CertsOk(t.certs) && Store.ByFingerprint(t.certs, around.enroll.issued.value.fingerprint).None?
    ensures |inbound| == 3 && |replies| == 2
    ensures var id, cert := cfg.text(a.enrollmentId), around.enroll.issued.value;
      var number := Service.Identified(id, Server.EnrollRequest(cfg, a.request), around.enroll);
      var keys := AgentKeys(cfg.hmac, a, clientNonce, replies[0]);
      var final := Machine.Run(Server.Opened(t, id), Server.StepsOf(cfg, id, inbound, around)).tables;
      && keys.Some? && AgentResponse(cfg.hmac, keys.value, replies[1]) == Wired(cfg.render(number, cert))
      && final.enrollments == t.enrollments[id := IssuedRow(t.enrollments[id], number).(status := Store.Used)]
      && Stored(t.agents, final.agents, number,
                Service.Request(cfg.text(a.request.hostname), cfg.text(a.request.ip), cfg.text(a.request.os),
                                Server.MonitorTypeName(a.request.monitorType)))
      && Store.CertsOk(final.certs) && Store.SingleActive(final.certs, number, cert.fingerprint)
      && forall p, later :: Store.RegisterTx(final, number, p, cert, later).outcome == Store.Ok(())
  {
    hide Deliverable, Machine.Run, Machine.Next, AgentHello, AgentKeys, AgentRequest, AgentResponse, ServerRequest,
         ServerResponse, ServerAck, DecodedHello, ServerChallenge, Server.Opened, Server.EnrollRequest, Service.Identified,
         Wired, Server.Enrolled, RequestBytes, Store.CertsOk, Store.SingleActive, Store.Carries, Store.RegisterTx, Stored, Server.Refusal, Server.WhyRefused, Sealed, AgentAck;
    var id, cert, nonce := cfg.text(a.enrollmentId), around.enroll.issued.value, around.serverNonce.value;
    var req := Server.EnrollRequest(cfg, a.request);
    var number := Service.Identified(id, req, around.enroll);
    FramesFit(cfg.hmac, Keys(nonce, nonce, nonce), a, clientNonce);
    HelloIs(a, clientNonce);
    HonestKeysAgree(cfg.hmac, cfg.vault, a, clientNonce, nonce);
    var session := ServerChallenge(cfg.hmac, cfg.vault, AgentHello(a, clientNonce).value, nonce).value;
    Server.SessionIsHello(cfg, AgentHello(a, clientNonce).value, nonce);
    FramesFit(cfg.hmac, session.keys, a, clientNonce);
    EnrollSucceeds(cfg, t, id, req, around);
    var request := AgentRequest(cfg.hmac, session.keys, a.request).value;
    ResponseFits(cfg, session.keys, request, number, cert);
    HonestExchange(cfg.hmac, session.keys, a.request, Wired(cfg.render(number, cert)).value);
    assert inbound[0] == AgentHello(a, clientNonce).value;
    assert replies[0] == session.challenge;
    assert inbound[1] == request;
    assert replies == [session.challenge, Server.ResponseTo(cfg, session.keys, request, number, cert).value];
    assert inbound[2] == AgentAck(cfg.hmac, session.keys);
    assert Server.Acknowledged(cfg, session.keys, id, req, inbound, around);
    Acknowledges(cfg, t, id, req, around, inbound, session, number, cert);
    assert req == Service.Request(cfg.text(a.request.hostname), cfg.text(a.request.ip), cfg.text(a.request.os),
                                  Server.MonitorTypeName(a.request.monitorType)) by { RequestIs(cfg, a.request); }
    var final := Machine.Run(Server.Opened(t, id), Server.StepsOf(cfg, id, inbound, around)).tables;
    forall p, later ensures Store.RegisterTx(final, number, p, cert, later).outcome == Store.Ok(()) {
      Registers(final, number, p, cert, later);
    }
  }

  lemma RequestIs(cfg: Server.Config, req: Request)
    ensures Server.EnrollRequest(cfg, req) ==
      Service.Request(cfg.text(req.hostname), cfg.text(req.ip), cfg.text(req.os), Server.MonitorTypeName(req.monitorType))
  {
  }

  lemma Registers(t: Store.Tables, number: string, p: Store.Payload, cert: Store.IssuedCert, later: Store.Time)
    requires Store.CertsOk(t.certs) && Store.Carries(t.certs, number, cert)
    ensures Store.RegisterTx(t, number, p, cert, later).outcome == Store.Ok(())
  {
    hide Store.EnsureMatching, Store.Carries, Store.CertsOk;
    Store.CarriedIsAccepted(t.certs, number, cert, later);
  }

  // Such a conversation takes place.
  lemma Talks(cfg: Server.Config, a: Config, clientNonce: Bytes, t: Store.Tables, around: Server.Surroundings)
    returns (inbound: seq<Frame>, replies: seq<Frame>)
    requires |clientNonce| == NONCE_SIZE && Provisioned(cfg, a) && Undisturbed(around)
    requires var id := cfg.text(a.enrollmentId);
      var number := Service.Identified(id, Server.EnrollRequest(cfg, a.request), around.enroll);
      number != "" && Pending(t, id, number, around) && Deliverable(cfg, number, around.enroll.issued.value)
    requires Store.ByFingerprint(t.certs, around.enroll.issued.value.fingerprint).None?
    ensures Talk(cfg, a, clientNonce, t, around, inbound, replies)
  {
    hide Pending, Deliverable, Machine.Run, Machine.Next, AgentHello, AgentKeys, AgentRequest, AgentResponse, ServerRequest,
         ServerResponse, ServerAck, DecodedHello, ServerChallenge, Server.Opened, Server.EnrollRequest, Service.Identified,
         Wired, Server.Enrolled, RequestBytes, Store.CertsOk, Store.SingleActive, Store.Carries, Store.RegisterTx, Stored, Server.Refusal, Server.WhyRefused, Sealed, AgentAck;
    var id, cert, nonce := cfg.text(a.enrollmentId), around.enroll.issued.value, around.serverNonce.value;
    var req := Server.EnrollRequest(cfg, a.request);
    var number := Service.Identified(id, req, around.enroll);
    FramesFit(cfg.hmac, Keys(nonce, nonce, nonce), a, clientNonce);
    HelloIs(a, clientNonce);
    HonestKeysAgree(cfg.hmac, cfg.vault, a, clientNonce, nonce);
    var hello := AgentHello(a, clientNonce).value;
    var session := ServerChallenge(cfg.hmac, cfg.vault, hello, nonce).value;
    Server.SessionIsHello(cfg, hello, nonce);
    FramesFit(cfg.hmac, session.keys, a, clientNonce);
    EnrollSucceeds(cfg, t, id, req, around);
    var request := AgentRequest(cfg.hmac, session.keys, a.request).value;
    ResponseFits(cfg, session.keys, request, number, cert);
    HonestExchange(cfg.hmac, session.keys, a.request, Wired(cfg.render(number, cert)).value);
    inbound := [hello, request, AgentAck(cfg.hmac, session.keys)];
    replies := [session.challenge, Server.ResponseTo(cfg, session.keys, request, number, cert).value];
  }

  lemma HelloIs(a: Config, clientNonce: Bytes)
    ensures AgentHello(a, clientNonce).Some? ==> AgentHello(a, clientNonce).value.msgType == HELLO
  {
  }

  // the tables after the acknowledged connection
  lemma Acknowledges(cfg: Server.Config, t: Store.Tables, id: string, req: Service.Request, around: Server.Surroundings,
                     inbound: seq<Frame>, session: Session, number: string, cert: Store.IssuedCert)
    requires |inbound| == 3 && Server.SessionOf(cfg, inbound, around) == Some(session)
    requires Server.RequestOf(cfg, inbound, around).Some?
    requires req == Server.EnrollRequest(cfg, Server.RequestOf(cfg, inbound, around).value.1)
    requires Server.Acknowledged(cfg, session.keys, id, req, inbound, around)
    requires number == Service.Identified(id, req, around.enroll) && around.enroll.issued == Some(cert) && around.markFault.NoFault?
    requires id in t.enrollments && Store.CertsOk(t.certs)
    requires var done := Server.Enrolled(cfg, t, id, req, around);
      && Machine.Next(Server.Opened(t, id), Machine.GetPending(0, around.pendingAt, around.pendingFault)).sessions[0].phase.Admitted?
      && 0 in done.sessions && done.sessions[0] == Machine.Session(id, Machine.Responded(number, cert))
      && done.tables.enrollments == t.enrollments[id := IssuedRow(t.enrollments[id], number)]
    ensures var final := Machine.Run(Server.Opened(t, id), Server.StepsOf(cfg, id, inbound, around)).tables;
      && final.enrollments == t.enrollments[id := IssuedRow(t.enrollments[id], number).(status := Store.Used)]
      && final.agents == Server.Enrolled(cfg, t, id, req, around).tables.agents
      && Store.CertsOk(final.certs) && Store.SingleActive(final.certs, number, cert.fingerprint)
      && Store.Carries(final.certs, number, cert)
  {
    hide Machine.Run, Machine.Next, ServerRequest, ServerChallenge, Server.Opened, Server.EnrollRequest, Service.Identified,
         Server.Acknowledged, Store.CertsOk, Store.SingleActive, Store.Carries, Store.RegisterTx, Stored, Service.EnrollSteps;
    var s0 := Server.Opened(t, id);
    var pending := Machine.GetPending(0, around.pendingAt, around.pendingFault);
    var five := Service.EnrollSteps(id, req, around.enroll);
    var last := Machine.Acknowledge(0, around.markFault);
    var s1, done := Machine.Next(s0, pending), Server.Enrolled(cfg, t, id, req, around);
    assert Server.StepsOf(cfg, id, inbound, around) == [pending] + (five + [last]);
    Server.RunOne(s0, pending);
    Server.RunAppend(s0, [pending], five + [last]);
    Server.RunAppend(s1, five, [last]);
    Server.RunOne(done, last);
    Server.MarkStep(done, around.markFault);
    Server.PendingStep(t, id, around.pendingAt, around.pendingFault);
    Server.PendingCerts(t, id, around.pendingAt, around.pendingFault);
    Server.EnrollCommits(s1, done, id, s1.sessions[0].phase.expected, req, around.enroll);
    assert t.enrollments[id := IssuedRow(t.enrollments[id], number)][id := IssuedRow(t.enrollments[id], number).(status := Store.Used)]
        == t.enrollments[id := IssuedRow(t.enrollments[id], number).(status := Store.Used)];
  }
}
