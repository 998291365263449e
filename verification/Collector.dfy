// The collector's session with one agent: AgentSession.Run with its handlers, and
// the whole way of an event from the agent's threads to the collector's store.

module Collector {
  import opened Prelude
  import opened Wire
  import opened Messages
  import opened AgentCodec
  import Connection
  import Numerals = Text
  import Service
  import Store

  const REGISTER: Byte := 0x01
  const HEARTBEAT: Byte := 0x02
  const FILE_EVENT: Byte := 0x03

  const REGISTER_BUFFER: nat := 1024
  const PREFIX := "spiffe://kn-ig/agent/"

  // ----- agent numbers and identities -----------------------------------------------------

  function Hash(runes: seq<nat>, h: Word64): Word64 {
    if runes == [] then h else Hash(runes[1..], (h * 31 + runes[0]) % 0x1_0000_0000_0000_0000)
  }

  // never 0, which stands for an unregistered session
  function AgentNumber(runes: seq<nat>, ip: Word32): (n: Word64)
    ensures n > 0
  {
    var h := (Hash(runes, 0) * 31 + ip) % 0x1_0000_0000_0000_0000;
    if h == 0 then 1 else h
  }

  // The host name is read as the digits of a number to the base 31, modulo 2^64, and
  // the address is its last digit.
  lemma {:induction false} HashSnoc(runes: seq<nat>, last: nat, h: Word64)
    ensures Hash(runes + [last], h) == (Hash(runes, h) * 31 + last) % 0x1_0000_0000_0000_0000
    decreases |runes|
  {
    if runes == [] {
      assert [last][1..] == [] && [] + [last] == [last];
      assert Hash([last], h) == Hash([], (h * 31 + last) % 0x1_0000_0000_0000_0000);
    } else {
      assert (runes + [last])[1..] == runes[1..] + [last];
      HashSnoc(runes[1..], last, (h * 31 + runes[0]) % 0x1_0000_0000_0000_0000);
    }
  }

  lemma HashNothing(h: Word64)
    ensures Hash([], h) == h
  {
  }

  lemma AgentNumberExact(runes: seq<nat>, ip: Word32)
    ensures AgentNumber(runes, ip) == if Hash(runes + [ip], 0) == 0 then 1 else Hash(runes + [ip], 0)
    ensures AgentNumber([], ip) == if ip == 0 then 1 else ip
  {
    hide Hash;
    HashSnoc(runes, ip, 0);
    HashNothing(0);
  }

  // a host name of two letters
  lemma ShortName(a: nat, b: nat, ip: Word32)
    requires 0 < a < 0x11_0000 && b < 0x11_0000
    ensures AgentNumber([a, b], ip) == 961 * a + 31 * b + ip
  {
    hide Hash;
    HashNothing(0);
    HashSnoc([], a, 0);
    HashSnoc([a], b, 0);
    assert [a] + [b] == [a, b] && [] + [a] == [a];
  }

  // `runes` is what ranging over the host name yields
  method GenerateAgentID(runes: seq<nat>, ip: Word32) returns (n: Word64)
    ensures n == AgentNumber(runes, ip)
  {
    var h: Word64 := 0;
    for i := 0 to |runes|
      invariant Hash(runes[i..], h) == Hash(runes, 0)
    {
      h := (h * 31 + runes[i]) % 0x1_0000_0000_0000_0000;
      assert runes[i..][1..] == runes[i + 1..];
    }
    h := (h * 31 + ip) % 0x1_0000_0000_0000_0000;
    n := if h == 0 then 1 else h;
  }

  function TrimPrefix(s: string): string {
    if PREFIX <= s then s[|PREFIX|..] else s
  }

  predicate IsAgentIdentity(identity: string) {
    TrimPrefix(identity) != identity && TrimPrefix(identity) != ""
  }

  // certificateIdentityMatchesAgent
  predicate IdentityMatches(subject: string, agentId: string) {
    IsAgentIdentity(subject) && TrimPrefix(subject) == agentId
  }

  lemma MatchesExact(subject: string, agentId: string)
    ensures IdentityMatches(subject, agentId) <==> agentId != "" && subject == PREFIX + agentId
  {
    if PREFIX <= subject { assert subject == PREFIX + subject[|PREFIX|..]; }
    if subject == PREFIX + agentId { assert subject[|PREFIX|..] == agentId; }
  }

  // ----- the session as a function ------------------------------------------------------------

  // what the TLS handshake established of the peer
  datatype Peer = Peer(subject: string, subjectHash: string, fingerprint: string)

  // The surroundings of a session: the peer, what its bytes stand for, and the clock
  // and the fate of the store operation that registers it.
  datatype World = World(peer: Peer, runes: Text -> seq<nat>, payload: Register -> Store.Payload,
                         now: Store.Time, fault: Store.Fault)

  // what the session tells the agent, and what it hands to the stores
  datatype Report =
    | Acknowledged(agentNum: Word64)
    | SeenAlive(heartbeat: Heartbeat)
    | Saved(event: FileEvent)

  // `open` is false once the session has closed the connection
  datatype State = State(agentNum: Word64, agentId: string, open: bool, tables: Store.Tables, reports: seq<Report>)

  function Fresh(t: Store.Tables): State {
    State(0, "", true, t, [])
  }

  datatype Packet = Packet(msgType: Byte, payload: Bytes)

  function Packets(frames: seq<Connection.Frame>): (r: seq<Packet>)
    ensures |r| == |frames|
  {
    seq(|frames|, i requires 0 <= i < |frames| => Packet(frames[i].msgType, frames[i].payload))
  }

  function Certificate(w: World): Store.IssuedCert {
    Store.IssuedCert(w.peer.subjectHash, w.peer.fingerprint)
  }

  function Registration(w: World, t: Store.Tables, agentId: string, reg: Register): Store.Reply<()> {
    Store.Observed(t, Store.RegisterTx(t, agentId, w.payload(reg), Certificate(w), w.now), w.fault)
  }

  predicate Refuses(r: Store.Result<()>) {
    r == Store.Err(Store.CertificateMismatch) || r == Store.Err(Store.CertificateRevoked)
  }

  // The session is named before the store is asked, and stays so when the store fails.
  function HandledRegister(w: World, s: State, payload: Bytes): State {
    if s.agentId != "" then s.(open := false)
    else
      match DecodedRegister(payload)
      case None => s
      case Some(reg) =>
        if w.peer.subjectHash == "" || w.peer.fingerprint == "" then s.(open := false)
        else
          var n := AgentNumber(w.runes(reg.hostname), reg.ip);
          var named := s.(agentNum := n, agentId := Numerals.Decimal(n));
          if !IdentityMatches(w.peer.subject, named.agentId) then named.(open := false)
          else
            var o := Registration(w, s.tables, named.agentId, reg);
            var after := named.(tables := o.tables);
            if o.outcome.Ok? then after.(reports := s.reports + [Acknowledged(n)])
            else after.(open := s.open && !Refuses(o.outcome))
  }

  predicate Owns(s: State, agentNum: Word64) {
    s.agentNum != 0 && s.agentId != "" && agentNum == s.agentNum
  }

  function Handled(w: World, s: State, packet: Packet): State {
    if packet.msgType == REGISTER then HandledRegister(w, s, packet.payload)
    else if packet.msgType == HEARTBEAT then
      match DecodedHeartbeat(packet.payload)
      case None => s
      case Some(hb) => if Owns(s, hb.agentId) then s.(reports := s.reports + [SeenAlive(hb)]) else s.(open := false)
    else if packet.msgType == FILE_EVENT then
      match Decoded(packet.payload)
      case None => s
      case Some(ev) => if Owns(s, ev.agentId) then s.(reports := s.reports + [Saved(ev)]) else s.(open := false)
    else s
  }

  function HandledAll(w: World, s: State, packets: seq<Packet>): State
    decreases |packets|
  {
    if packets == [] || !s.open then s else HandledAll(w, Handled(w, s, packets[0]), packets[1..])
  }

  // ----- the session as it runs -------------------------------------------------------------------

  class AgentSession {
    const w: World
    const agents: Service.Database
    var agentNum: Word64
    var agentId: string
    var lastSeq: Word32
    var open: bool
    var reports: seq<Report>

    ghost function Now(): State
      reads this, agents
    {
      State(agentNum, agentId, open, agents.Contents(), reports)
    }

    constructor (w: World, agents: Service.Database)
      ensures this.w == w && this.agents == agents && lastSeq == 0
      ensures Now() == Fresh(agents.Contents())
    {
      this.w, this.agents := w, agents;
      agentNum, agentId, lastSeq, open, reports := 0, "", 0, true, [];
    }

    method ValidateAgentIdentity(number: Word64) returns (ok: bool)
      modifies this`open
      ensures ok <==> Owns(old(Now()), number)
      ensures open == (old(open) && ok)
    {
      if agentNum == 0 || agentId == "" { open := false; return false; }
      if number != agentNum { open := false; return false; }
      ok := true;
    }

    method HandleRegister(payload: Bytes)
      modifies this, agents
      ensures Now() == HandledRegister(w, old(Now()), payload) && lastSeq == old(lastSeq)
    {
      hide DecodedRegister, Numerals.Decimal, IdentityMatches, AgentNumber, Store.RegisterTx;
      if agentId != "" { open := false; return; }
      var reg := DecodeRegister(payload);
      if reg.None? { return; }
      if w.peer.subjectHash == "" || w.peer.fingerprint == "" { open := false; return; }
      agentNum := GenerateAgentID(w.runes(reg.value.hostname), reg.value.ip);
      agentId := Numerals.Decimal(agentNum);
      if !IdentityMatches(w.peer.subject, agentId) { open := false; return; }
      var r := agents.RegisterAgentWithCertificate(agentId, w.payload(reg.value), Certificate(w), w.now, w.fault);
      if r.Err? {
        if Refuses(r) { open := false; }
        return;
      }
      reports := reports + [Acknowledged(agentNum)];
    }

    method HandleHeartbeat(payload: Bytes)
      requires open
      modifies this
      ensures Now() == Handled(w, old(Now()), Packet(HEARTBEAT, payload)) && lastSeq == old(lastSeq)
    {
      hide DecodedHeartbeat;
      var hb := DecodeHeartbeat(payload);
      if hb.None? { return; }
      var ok := ValidateAgentIdentity(hb.value.agentId);
      if !ok { return; }
      reports := reports + [SeenAlive(hb.value)];
    }

    method HandleFileEvent(payload: Bytes)
      requires open
      modifies this
      ensures Now() == Handled(w, old(Now()), Packet(FILE_EVENT, payload)) && lastSeq == old(lastSeq)
    {
      hide Decoded;
      var ev := DecodeFileEvent(payload);
      if ev.None? { return; }
      var ok := ValidateAgentIdentity(ev.value.agentId);
      if !ok { return; }
      reports := reports + [Saved(ev.value)];
    }

    // The session ends up as the handlers leave it when they are given the frames
    // of Connection.Serve one after the other, until one of them closes it.
    method Run(stream: Bytes)
      requires open
      modifies this, agents
      ensures Now() == HandledAll(w, old(Now()), Packets(Connection.Serve(stream, old(lastSeq)).frames))
    {
      hide Connection.FrameAt, Handled, HandledRegister, Connection.Accepts;
      var rest := stream;
      ghost var start := Packets(Connection.Serve(stream, lastSeq).frames);
      while true
        invariant open
        invariant HandledAll(w, Now(), Packets(Connection.Serve(rest, lastSeq).frames)) == HandledAll(w, old(Now()), start)
        decreases |rest|
      {
        var r := Connection.ReadFrame(rest);
        if r.None? { return; }
        var f := r.value.frame;
        if !Connection.Accepts(lastSeq, f.seqNum) { return; }
        ghost var before := Now();
        ghost var left := Packets(Connection.Serve(rest, lastSeq).frames);
        lastSeq := f.seqNum;
        rest := rest[r.value.size..];
        ghost var later := Packets(Connection.Serve(rest, lastSeq).frames);
        assert left == [Packet(f.msgType, f.payload)] + later;
        TakeOne(w, before, Packet(f.msgType, f.payload), later);
        Dispatch(f);
        if !open {
          return;
        }
      }
    }

    method Dispatch(f: Connection.Frame)
      requires open
      modifies this, agents
      ensures Now() == Handled(w, old(Now()), Packet(f.msgType, f.payload)) && lastSeq == old(lastSeq)
    {
      hide Decoded, DecodedHeartbeat, HandledRegister;
      if f.msgType == REGISTER {
        HandleRegister(f.payload);
      } else if f.msgType == HEARTBEAT {
        HandleHeartbeat(f.payload);
      } else if f.msgType == FILE_EVENT {
        HandleFileEvent(f.payload);
      }
    }
  }

  lemma TakeOne(w: World, s: State, packet: Packet, later: seq<Packet>)
    requires s.open
    ensures HandledAll(w, s, [packet] + later) == HandledAll(w, Handled(w, s, packet), later)
  {
    hide Handled;
    assert ([packet] + later)[1..] == later;
  }

  // ----- what a packet does ---------------------------------------------------------------------

  // Packets of other types, and heartbeats and events that cannot be decoded, are
  // ignored; a heartbeat or event in another agent's name, or before a registration,
  // closes the connection, and so does a second registration.
  lemma PacketMeans(w: World, s: State, packet: Packet)
    ensures packet.msgType !in {1, 2, 3} ==> Handled(w, s, packet) == s
    ensures packet.msgType == 2 && |packet.payload| < 13 ==> Handled(w, s, packet) == s
    ensures packet.msgType == 3 && Decoded(packet.payload).None? ==> Handled(w, s, packet) == s
    ensures packet.msgType == 1 && s.agentId != "" ==> Handled(w, s, packet) == s.(open := false)
    ensures packet.msgType == 3 && Decoded(packet.payload).Some? ==>
      Handled(w, s, packet) ==
        if s.agentId != "" && s.agentNum != 0 && Decoded(packet.payload).value.agentId == s.agentNum
        then s.(reports := s.reports + [Saved(Decoded(packet.payload).value)]) else s.(open := false)
  {
    hide Decoded, DecodedHeartbeat, DecodedRegister;
    if packet.msgType == 2 { TooShort(packet.payload); }
  }

  lemma TooShort(payload: Bytes)
    ensures |payload| < 13 ==> DecodedHeartbeat(payload).None?
  {
    HeartbeatLength(payload);
  }

  lemma HeartbeatMeans(w: World, s: State, hb: Heartbeat, behind: Bytes)
    ensures Handled(w, s, Packet(2, HeartbeatEncoding(hb) + behind)) ==
      if s.agentId != "" && s.agentNum != 0 && hb.agentId == s.agentNum
      then s.(reports := s.reports + [SeenAlive(hb)]) else s.(open := false)
  {
    hide DecodedHeartbeat, HeartbeatEncoding;
    HeartbeatExact(HeartbeatEncoding(hb) + behind, hb);
  }

  // A registration whose certificate names another agent, or lacks a hash, closes the
  // connection with nothing stored; one that the store refuses for its certificate
  // closes it too; one the store fails on leaves it open, unacknowledged.
  lemma RegistrationMeans(w: World, s: State, reg: Register, behind: Bytes)
    requires s.agentId == "" && s.open
    ensures var s' := Handled(w, s, Packet(1, RegisterEncoding(reg) + behind));
      var n := AgentNumber(w.runes(reg.hostname), reg.ip);
      var named := w.peer.subject == PREFIX + Numerals.Decimal(n) && w.peer.subjectHash != "" && w.peer.fingerprint != "";
      && (!named ==> !s'.open && s'.reports == s.reports && s'.tables == s.tables)
      && (named ==>
            var o := Store.Observed(s.tables, Store.RegisterTx(s.tables, Numerals.Decimal(n), w.payload(reg),
                                      Store.IssuedCert(w.peer.subjectHash, w.peer.fingerprint), w.now), w.fault);
            && s'.agentNum == n && s'.agentId == Numerals.Decimal(n) && s'.tables == o.tables
            && s'.reports == (if o.outcome.Ok? then s.reports + [Acknowledged(n)] else s.reports)
            && (s'.open <==> o.outcome !in {Store.Err(Store.CertificateMismatch), Store.Err(Store.CertificateRevoked)}))
  {
    hide RegisterEncoding, DecodedRegister, AgentNumber, Numerals.Decimal, IdentityMatches, Store.RegisterTx;
    RegisterExact(RegisterEncoding(reg) + behind, reg);
    MatchesExact(w.peer.subject, Numerals.Decimal(AgentNumber(w.runes(reg.hostname), reg.ip)));
  }

  // ----- a session speaks for one agent, the one its certificate names ---------------------------------

  function NumberOf(r: Report): Word64 {
    match r
    case Acknowledged(n) => n
    case SeenAlive(hb) => hb.agentId
    case Saved(ev) => ev.agentId
  }

  // Reports are about the session's own agent, whose identity is the certificate's;
  // they begin with the acknowledgement exactly when the store does not fail, and an
  // acknowledged certificate is the agent's single active one.
  ghost predicate Faithful(w: World, s: State) {
    && (s.agentId != "" ==> s.agentId == Numerals.Decimal(s.agentNum))
    && (s.agentId == "" ==> s.reports == [])
    && ((s.open && s.agentId != "") || s.reports != [] ==>
          w.peer.subject == PREFIX + s.agentId && w.peer.subjectHash != "" && w.peer.fingerprint != "")
    && (forall i :: 0 <= i < |s.reports| ==> NumberOf(s.reports[i]) == s.agentNum)
    && (forall i :: 0 < i < |s.reports| ==> !s.reports[i].Acknowledged?)
    && (w.fault.NoFault? && s.open && s.agentId != "" ==> s.reports != [] && s.reports[0].Acknowledged?)
    && (s.reports != [] ==> (s.reports[0].Acknowledged? <==> w.fault.NoFault?))
    && Store.CertsOk(s.tables.certs)
    && (s.reports != [] && s.reports[0].Acknowledged? ==> Store.SingleActive(s.tables.certs, s.agentId, w.peer.fingerprint))
  }

  lemma RegisterFaithful(w: World, s: State, payload: Bytes)
    requires Faithful(w, s) && s.open
    ensures Faithful(w, HandledRegister(w, s, payload))
  {
    hide Numerals.Decimal, DecodedRegister, AgentNumber, IdentityMatches, Store.CertsOk, Store.SingleActive, Store.EnsureMatching;
    if s.agentId == "" && DecodedRegister(payload).Some? {
      var reg := DecodedRegister(payload).value;
      var n := AgentNumber(w.runes(reg.hostname), reg.ip);
      MatchesExact(w.peer.subject, Numerals.Decimal(n));
      Store.EnsureMatchingKeeps(s.tables.certs, Numerals.Decimal(n), Certificate(w), w.now);
      MatchingErrors(s.tables.certs, Numerals.Decimal(n), Certificate(w), w.now);
    }
  }

  lemma MatchingErrors(certs: seq<Store.Certificate>, agentId: string, cert: Store.IssuedCert, now: Store.Time)
    ensures var r := Store.EnsureMatching(certs, agentId, cert, now);
      r.Ok? || r.error == Store.CertificateMismatch || r.error == Store.CertificateRevoked
  {
    hide Store.ByFingerprint, Store.NewestActive;
    match Store.ByFingerprint(certs, cert.fingerprint)
    case Some(stored) =>
    case None =>
      assert Store.InsertActive(certs, agentId, cert, now).Ok?;
  }

  lemma HandledFaithful(w: World, s: State, packet: Packet)
    requires Faithful(w, s) && s.open
    ensures Faithful(w, Handled(w, s, packet))
  {
    hide Numerals.Decimal, DecodedHeartbeat, Decoded, HandledRegister, Store.CertsOk, Store.SingleActive;
    if packet.msgType == REGISTER { RegisterFaithful(w, s, packet.payload); }
  }

  lemma {:induction false} AllFaithful(w: World, s: State, packets: seq<Packet>)
    requires Faithful(w, s)
    ensures Faithful(w, HandledAll(w, s, packets))
    decreases |packets|
  {
    hide Faithful, Handled;
    if packets != [] && s.open {
      HandledFaithful(w, s, packets[0]);
      AllFaithful(w, Handled(w, s, packets[0]), packets[1..]);
    }
  }

  // Whatever bytes a peer sends: every report of its session is about the one agent
  // its certificate names. A session that reports at all begins by acknowledging that
  // agent, with this certificate its single active one, if and only if the store does
  // not fail; otherwise it never acknowledges it.
  lemma SpeaksForItsCertificate(w: World, t: Store.Tables, stream: Bytes, r: Report)
    requires Store.CertsOk(t.certs)
    requires r in HandledAll(w, Fresh(t), Packets(Connection.Serve(stream, 0).frames)).reports
    ensures var s := HandledAll(w, Fresh(t), Packets(Connection.Serve(stream, 0).frames));
      var agentId := Numerals.Decimal(NumberOf(r));
      && w.peer.subject == PREFIX + agentId && w.peer.subjectHash != "" && w.peer.fingerprint != ""
      && Store.CertsOk(s.tables.certs)
      && (s.reports[0] == Acknowledged(NumberOf(r)) <==> w.fault.NoFault?)
      && (!w.fault.NoFault? ==> forall i :: 0 <= i < |s.reports| ==> !s.reports[i].Acknowledged?)
      && (w.fault.NoFault? ==> Store.SingleActive(s.tables.certs, agentId, w.peer.fingerprint))
  {
    hide Numerals.Decimal, Connection.Serve, Store.CertsOk, Store.SingleActive, HandledAll;
    AllFaithful(w, Fresh(t), Packets(Connection.Serve(stream, 0).frames));
    var s := HandledAll(w, Fresh(t), Packets(Connection.Serve(stream, 0).frames));
    var i :| 0 <= i < |s.reports| && s.reports[i] == r;
    assert NumberOf(s.reports[0]) == s.agentNum == NumberOf(r);
  }

  // ----- from the agent's threads to the store -----------------------------------------------------------

  // what a thread of the registered agent has to say
  datatype Message = Alive(status: Byte, timestamp: Word32) | Happened(ev: Event)

  predicate Proper(m: Message) {
    m.Happened? ==> WellFormed(m.ev)
  }

  // ig_tcp_send_event sends nothing for a source it does not know
  function PacketsOf(agentNum: Word64, m: Message): seq<Packet>
    requires Proper(m)
  {
    match m
    case Alive(status, timestamp) => [Packet(HEARTBEAT, HeartbeatEncoding(Heartbeat(agentNum, status, timestamp)))]
    case Happened(ev) => if MapSource(ev.source) == 0 then [] else [Packet(FILE_EVENT, Encoding(ToMessage(agentNum, ev)))]
  }

  function AllPackets(agentNum: Word64, ms: seq<Message>): seq<Packet>
    requires forall i :: 0 <= i < |ms| ==> Proper(ms[i])
  {
    if ms == [] then [] else PacketsOf(agentNum, ms[0]) + AllPackets(agentNum, ms[1..])
  }

  // what the collector makes of it: a depth it cannot believe makes it drop the event
  function Arrives(agentNum: Word64, m: Message): seq<Report>
    requires Proper(m)
  {
    match m
    case Alive(status, timestamp) => [SeenAlive(Heartbeat(agentNum, status, timestamp))]
    case Happened(ev) =>
      if MapSource(ev.source) == 0 || DepthByte(Some(ev.chain)) > MAX_DEPTH then []
      else [Saved(SentEvent(ToMessage(agentNum, ev)))]
  }

  function AllArrive(agentNum: Word64, ms: seq<Message>): seq<Report>
    requires forall i :: 0 <= i < |ms| ==> Proper(ms[i])
  {
    if ms == [] then [] else Arrives(agentNum, ms[0]) + AllArrive(agentNum, ms[1..])
  }

  // What is sent of a message, and whether the collector reports it: every heartbeat,
  // and every event of a known source; of these all but those with a negative depth
  // that does not wrap to at most 16.
  lemma MessageExact(agentNum: Word64, m: Message)
    requires Proper(m)
    ensures m.Alive? ==>
      && PacketsOf(agentNum, m) == [Packet(2, HeartbeatEncoding(Heartbeat(agentNum, m.status, m.timestamp)))]
      && Arrives(agentNum, m) == [SeenAlive(Heartbeat(agentNum, m.status, m.timestamp))]
    ensures m.Happened? && m.ev.source in {1, 2, 3} ==> PacketsOf(agentNum, m) == [Packet(3, Encoding(ToMessage(agentNum, m.ev)))]
    ensures m.Happened? && m.ev.source !in {1, 2, 3} ==> PacketsOf(agentNum, m) == [] && Arrives(agentNum, m) == []
    ensures m.Happened? && m.ev.source in {1, 2, 3} ==>
      (Arrives(agentNum, m) != [] <==> m.ev.chain.depth >= 0 || m.ev.chain.depth % 0x100 <= 16)
  {
    hide HeartbeatEncoding, Encoding, ToMessage, SentEvent;
  }

  // every packet in a successful send of its own
  function Sends(packets: seq<Packet>): (ops: seq<Connection.Op>)
    ensures |ops| == |packets|
  {
    seq(|packets|, i requires 0 <= i < |packets| => Connection.Send(packets[i].msgType, packets[i].payload, Connection.Delivered))
  }

  ghost predicate Fit(packets: seq<Packet>) {
    forall i :: 0 <= i < |packets| ==> |packets[i].payload| <= Connection.MAX_FRAME
  }

  lemma {:induction false} SendsDelivered(c: Connection.Client, packets: seq<Packet>)
    requires c.connected && Fit(packets)
    ensures Packets(Connection.Run(c, Sends(packets)).frames) == Packets(c.frames) + packets
    decreases |packets|
  {
    hide Connection.FrameBytes;
    if packets == [] {
      assert Packets(c.frames) + [] == Packets(c.frames);
    } else {
      var c' := Connection.Next(c, Sends(packets)[0]);
      assert Sends(packets)[1..] == Sends(packets[1..]);
      SendsDelivered(c', packets[1..]);
      assert Packets(c'.frames) == Packets(c.frames) + [packets[0]];
      assert Packets(c.frames) + [packets[0]] + packets[1..] == Packets(c.frames) + packets;
    }
  }

  lemma PacketsFit(agentNum: Word64, m: Message)
    requires Proper(m)
    ensures Fit(PacketsOf(agentNum, m))
  {
    hide Encoding, HeartbeatEncoding, ToMessage;
    match m
    case Alive(status, timestamp) => HeartbeatSize(Heartbeat(agentNum, status, timestamp));
    case Happened(ev) => EventFits(agentNum, ev);
  }

  lemma {:induction false} AllPacketsFit(agentNum: Word64, ms: seq<Message>)
    requires forall i :: 0 <= i < |ms| ==> Proper(ms[i])
    ensures Fit(AllPackets(agentNum, ms))
  {
    hide PacketsOf, Proper;
    if ms != [] {
      PacketsFit(agentNum, ms[0]);
      AllPacketsFit(agentNum, ms[1..]);
    }
  }

  lemma MessageHandled(w: World, s: State, m: Message, later: seq<Packet>)
    requires Proper(m) && s.open && Owns(s, s.agentNum)
    ensures HandledAll(w, s, PacketsOf(s.agentNum, m) + later)
         == HandledAll(w, s.(reports := s.reports + Arrives(s.agentNum, m)), later)
  {
    hide Encoding, HeartbeatEncoding, ToMessage, Decoded, DecodedHeartbeat, HandledAll, DepthByte, SentEvent, HandledRegister;
    assert s.reports + [] == s.reports && [] + later == later;
    match m
    case Alive(status, timestamp) =>
      var hb := Heartbeat(s.agentNum, status, timestamp);
      HeartbeatExact(HeartbeatEncoding(hb), hb);
      TakeOne(w, s, Packet(HEARTBEAT, HeartbeatEncoding(hb)), later);
    case Happened(ev) =>
      var msg := ToMessage(s.agentNum, ev);
      GoReadsBack(msg);
      SentFrom(s.agentNum, ev);
      TakeOne(w, s, Packet(FILE_EVENT, Encoding(msg)), later);
  }

  lemma SentFrom(agentNum: Word64, ev: Event)
    requires WellFormed(ev)
    ensures ToMessage(agentNum, ev).chain == Some(ev.chain) && SentEvent(ToMessage(agentNum, ev)).agentId == agentNum
  {
    hide StrNLen, SentEntries, DepthByte;
  }

  lemma {:induction false} MessagesHandled(w: World, s: State, ms: seq<Message>)
    requires s.open && Owns(s, s.agentNum) && forall i :: 0 <= i < |ms| ==> Proper(ms[i])
    ensures HandledAll(w, s, AllPackets(s.agentNum, ms)) == s.(reports := s.reports + AllArrive(s.agentNum, ms))
    decreases |ms|
  {
    hide Handled, PacketsOf, Arrives, Proper;
    if ms == [] {
      assert s.reports + [] == s.reports;
    } else {
      MessageHandled(w, s, ms[0], AllPackets(s.agentNum, ms[1..]));
      var s' := s.(reports := s.reports + Arrives(s.agentNum, ms[0]));
      MessagesHandled(w, s', ms[1..]);
      assert s'.reports + AllArrive(s.agentNum, ms[1..]) == s.reports + AllArrive(s.agentNum, ms);
    }
  }

  // does the collector acknowledge this registration?
  ghost predicate Admits(w: World, t: Store.Tables, reg: Register) {
    var agentId := Numerals.Decimal(AgentNumber(w.runes(reg.hostname), reg.ip));
    && w.peer.subject == PREFIX + agentId && w.peer.subjectHash != "" && w.peer.fingerprint != ""
    && Registration(w, t, agentId, reg).outcome.Ok?
  }

  // the agent's operations on one connection: connect, register, and then whatever
  // its threads send, in the order in which they get the connection lock
  function Conversation(reg: Register, agentNum: Word64, ms: seq<Message>): seq<Connection.Op>
    requires forall i :: 0 <= i < |ms| ==> Proper(ms[i])
  {
    [Connection.Connect] + Sends([Packet(REGISTER, RegisterEncoding(reg))] + AllPackets(agentNum, ms))
  }

  lemma RegisterHandled(w: World, t: Store.Tables, reg: Register)
    ensures var s := HandledRegister(w, Fresh(t), RegisterEncoding(reg));
      var n := AgentNumber(w.runes(reg.hostname), reg.ip);
      && (Admits(w, t, reg) ==> s.open && s.agentNum == n && s.agentId != "" && s.reports == [Acknowledged(n)])
      && (!Admits(w, t, reg) ==> s.reports == [])
  {
    hide RegisterEncoding, DecodedRegister, AgentNumber, Numerals.Decimal, IdentityMatches, Registration;
    RegisterExact(RegisterEncoding(reg), reg);
    MatchesExact(w.peer.subject, Numerals.Decimal(AgentNumber(w.runes(reg.hostname), reg.ip)));
  }

  lemma ConversationServed(reg: Register, agentNum: Word64, ms: seq<Message>)
    requires forall i :: 0 <= i < |ms| ==> Proper(ms[i])
    requires |RegisterEncoding(reg)| <= REGISTER_BUFFER
    ensures var served := Connection.Serve(Connection.Run(Connection.START, Conversation(reg, agentNum, ms)).wire, 0);
      && served.end == Connection.StreamEnded
      && Packets(served.frames) == [Packet(REGISTER, RegisterEncoding(reg))] + AllPackets(agentNum, ms)
  {
    hide RegisterEncoding, PacketsOf, Proper, Connection.FrameBytes, Connection.Serve;
    var packets := [Packet(REGISTER, RegisterEncoding(reg))] + AllPackets(agentNum, ms);
    var ops := Conversation(reg, agentNum, ms);
    AllPacketsFit(agentNum, ms);
    Connection.NeverOutOfStep(ops);
    var c := Connection.Next(Connection.START, Connection.Connect);
    assert ops[1..] == Sends(packets);
    SendsDelivered(c, packets);
    assert Packets([]) + packets == packets;
  }

  // Whatever threads of an agent send on one connection, in any order and number:
  // if the collector admits the registration, it keeps the connection to the end
  // and what it reports is the acknowledgement and then exactly what was sent, in
  // order and unaltered; otherwise it acknowledges nothing.
  lemma EventsArrive(w: World, t: Store.Tables, reg: Register, ms: seq<Message>)
    requires forall i :: 0 <= i < |ms| ==> Proper(ms[i])
    requires |RegisterEncoding(reg)| <= REGISTER_BUFFER
    ensures var n := AgentNumber(w.runes(reg.hostname), reg.ip);
      var served := Connection.Serve(Connection.Run(Connection.START, Conversation(reg, n, ms)).wire, 0);
      var s := HandledAll(w, Fresh(t), Packets(served.frames));
      && served.end == Connection.StreamEnded
      && (s.open && s.reports == [Acknowledged(n)] + AllArrive(n, ms) <==> Admits(w, t, reg))
  {
    hide RegisterEncoding, PacketsOf, Arrives, Proper, Connection.Serve, Connection.Run, AgentNumber, HandledRegister, AllPackets, AllArrive,
         Conversation, Admits, HandledAll;
    var n := AgentNumber(w.runes(reg.hostname), reg.ip);
    ConversationServed(reg, n, ms);
    var register := Packet(REGISTER, RegisterEncoding(reg));
    TakeOne(w, Fresh(t), register, AllPackets(n, ms));
    RegisterHandled(w, t, reg);
    var s := HandledRegister(w, Fresh(t), RegisterEncoding(reg));
    if Admits(w, t, reg) {
      MessagesHandled(w, s, ms);
    } else {
      NoRegister(n, ms);
      StaysUnacknowledged(w, s, AllPackets(n, ms));
    }
  }

  lemma {:induction false} NoRegister(agentNum: Word64, ms: seq<Message>)
    requires forall i :: 0 <= i < |ms| ==> Proper(ms[i])
    ensures forall i :: 0 <= i < |AllPackets(agentNum, ms)| ==> AllPackets(agentNum, ms)[i].msgType != REGISTER
  {
    hide Encoding, HeartbeatEncoding, ToMessage;
    if ms != [] { NoRegister(agentNum, ms[1..]); }
  }

  lemma {:induction false} StaysUnacknowledged(w: World, s: State, packets: seq<Packet>)
    requires s.reports == [] || !s.reports[0].Acknowledged?
    requires forall i :: 0 <= i < |packets| ==> packets[i].msgType != REGISTER
    ensures var s' := HandledAll(w, s, packets);
      s'.reports == [] || !s'.reports[0].Acknowledged?
    decreases |packets|
  {
    hide Decoded, DecodedHeartbeat;
    if packets != [] && s.open { StaysUnacknowledged(w, Handled(w, s, packets[0]), packets[1..]); }
  }

  // Events of a known source whose depth is not negative are all saved, as sent.
  lemma {:induction false} KnownEventsAreSaved(agentNum: Word64, ms: seq<Message>)
    requires forall i :: 0 <= i < |ms| ==> Proper(ms[i])
    requires forall i :: 0 <= i < |ms| ==> ms[i].Happened? && ms[i].ev.chain.depth >= 0 && ms[i].ev.source in {1, 2, 3}
    ensures |AllArrive(agentNum, ms)| == |ms|
    ensures forall i :: 0 <= i < |ms| ==> AllArrive(agentNum, ms)[i] == Saved(SentEvent(ToMessage(agentNum, ms[i].ev)))
  {
    hide SentEvent, ToMessage, Arrives, Proper;
    if ms != [] {
      KnownEventIsSaved(agentNum, ms[0]);
      KnownEventsAreSaved(agentNum, ms[1..]);
    }
  }

  lemma KnownEventIsSaved(agentNum: Word64, m: Message)
    requires Proper(m) && m.Happened? && m.ev.chain.depth >= 0 && m.ev.source in {1, 2, 3}
    ensures Arrives(agentNum, m) == [Saved(SentEvent(ToMessage(agentNum, m.ev)))]
  {
    hide SentEvent, ToMessage, WellFormed;
  }

  // A store that fails during the registration leaves the session named but not
  // acknowledged; it then reports for that agent all the same.
  lemma ReportsAfterStoreFailure(w: World, t: Store.Tables, reg: Register, hb: Heartbeat)
    requires var n := AgentNumber(w.runes(reg.hostname), reg.ip);
      w.peer.subject == PREFIX + Numerals.Decimal(n) && w.peer.subjectHash != "" && w.peer.fingerprint != "" && hb.agentId == n
    requires w.fault.FailBefore?
    ensures var n := AgentNumber(w.runes(reg.hostname), reg.ip);
      HandledAll(w, Fresh(t), [Packet(REGISTER, RegisterEncoding(reg)), Packet(HEARTBEAT, HeartbeatEncoding(hb))])
      == State(n, Numerals.Decimal(n), true, t, [SeenAlive(hb)])
  {
    hide RegisterEncoding, HeartbeatEncoding, DecodedRegister, DecodedHeartbeat, AgentNumber, Numerals.Decimal, IdentityMatches, HandledAll,
         Store.RegisterTx;
    var n := AgentNumber(w.runes(reg.hostname), reg.ip);
    var first, second := Packet(REGISTER, RegisterEncoding(reg)), Packet(HEARTBEAT, HeartbeatEncoding(hb));
    RegisterExact(RegisterEncoding(reg), reg);
    HeartbeatExact(HeartbeatEncoding(hb), hb);
    MatchesExact(w.peer.subject, Numerals.Decimal(n));
    assert [first, second] == [first] + [second] && [second] == [second] + [];
    TakeOne(w, Fresh(t), first, [second]);
    TakeOne(w, Handled(w, Fresh(t), first), second, []);
    NothingMore(w, Handled(w, Handled(w, Fresh(t), first), second));
  }

  lemma NothingMore(w: World, s: State)
    ensures HandledAll(w, s, []) == s
  {
  }
}
