// The MySQL tables behind enrollment and registration. Every transaction (or
// single UPDATE) of the stores is one function from tables to tables; the
// class Database performs the same transactions statement by statement and is
// proved equal to them.

module Store {
  import opened Prelude

  datatype Error =
    | EnrollmentNotFound | EnrollmentUsed | EnrollmentRevoked | EnrollmentExpired
    | InvalidInput | AgentMismatch
    | CertificateRevoked | CertificateMismatch
    | DuplicateKey          // a UNIQUE key of the schema rejected an INSERT
    | StoreFailure          // connection, timeout, or a commit whose outcome is unknown

  datatype Result<+T> = Ok(value: T) | Err(error: Error)

  type Time = int

  datatype Status = Pending | Issuing | Issued | Used | Withdrawn | OtherStatus

  datatype Enrollment = Enrollment(agentId: Option<string>, status: Status, expiresAt: Time, attempts: nat)

  datatype Payload = Payload(hostname: string, ip: string, os: string, monitorType: string)

  datatype Agent = Agent(payload: Payload, online: bool)

  datatype Certificate = Certificate(
    agentId: string, subjectHash: string, fingerprint: string, active: bool, boundAt: Time)

  datatype IssuedCert = IssuedCert(subjectHash: string, fingerprint: string)

  datatype Tables = Tables(
    agents: map<string, Agent>,
    certs: seq<Certificate>,
    enrollments: map<string, Enrollment>)

  // ----- agent_certificates -----------------------------------------------

  predicate HoldsActive(c: Certificate, agentId: string) {
    c.active && c.agentId == agentId
  }

  // SELECT ... WHERE cert_fingerprint = ?
  function ByFingerprint(certs: seq<Certificate>, fingerprint: string): (r: Option<Certificate>)
    ensures r.Some? ==> r.value in certs && r.value.fingerprint == fingerprint
    ensures r.None? ==> forall c <- certs :: c.fingerprint != fingerprint
  {
    if certs == [] then None
    else
      var last := certs[|certs| - 1];
      var rest := certs[..|certs| - 1];
      assert certs == rest + [last];
      if last.fingerprint == fingerprint then Some(last) else ByFingerprint(rest, fingerprint)
  }

  // SELECT ... WHERE agent_id = ? AND status = 'active' ORDER BY bound_at DESC LIMIT 1
  function NewestActive(certs: seq<Certificate>, agentId: string): (r: Option<Certificate>)
    ensures r.Some? ==> r.value in certs && HoldsActive(r.value, agentId)
    ensures r.Some? ==> forall c <- certs :: HoldsActive(c, agentId) ==> c.boundAt <= r.value.boundAt
    ensures r.None? ==> forall c <- certs :: !HoldsActive(c, agentId)
  {
    if certs == [] then None
    else
      var last := certs[|certs| - 1];
      var rest := certs[..|certs| - 1];
      assert certs == rest + [last];
      var best := NewestActive(rest, agentId);
      if HoldsActive(last, agentId) && (best.None? || best.value.boundAt <= last.boundAt)
      then Some(last) else best
  }

  // UPDATE ... SET status = 'revoked' WHERE agent_id = ? AND status = 'active'
  function RevokeActive(certs: seq<Certificate>, agentId: string): (r: seq<Certificate>)
    ensures |r| == |certs|
    ensures forall i :: 0 <= i < |r| ==>
      r[i] == if HoldsActive(certs[i], agentId) then certs[i].(active := false) else certs[i]
  {
    seq(|certs|, i requires 0 <= i < |certs| =>
      if HoldsActive(certs[i], agentId) then certs[i].(active := false) else certs[i])
  }

  // INSERT of an active row; uq_agent_cert_fingerprint rejects a known fingerprint
  function InsertActive(certs: seq<Certificate>, agentId: string, cert: IssuedCert, now: Time)
    : Result<seq<Certificate>>
  {
    if ByFingerprint(certs, cert.fingerprint).Some? then Err(DuplicateKey)
    else Ok(certs + [Certificate(agentId, cert.subjectHash, cert.fingerprint, true, now)])
  }

  function RotateActive(certs: seq<Certificate>, agentId: string, cert: IssuedCert, now: Time)
    : Result<seq<Certificate>>
  {
    match NewestActive(certs, agentId)
    case Some(stored) =>
      if stored.subjectHash == cert.subjectHash && stored.fingerprint == cert.fingerprint
      then Ok(certs)
      else InsertActive(RevokeActive(certs, agentId), agentId, cert, now)
    case None => InsertActive(certs, agentId, cert, now)
  }

  function EnsureMatching(certs: seq<Certificate>, agentId: string, cert: IssuedCert, now: Time)
    : Result<seq<Certificate>>
  {
    match ByFingerprint(certs, cert.fingerprint)
    case Some(stored) =>
      if !stored.active then Err(CertificateRevoked)
      else if stored.agentId != agentId || stored.subjectHash != cert.subjectHash
      then Err(CertificateMismatch)
      else Ok(certs)
    case None =>
      if NewestActive(certs, agentId).Some? then Err(CertificateMismatch)
      else InsertActive(certs, agentId, cert, now)
  }

  // ----- agents -------------------------------------------------------------

  function UpsertOnline(agents: map<string, Agent>, agentId: string, p: Payload): map<string, Agent> {
    agents[agentId := Agent(p, true)]
  }

  // inserts as offline, but an existing row keeps its status
  function UpsertOffline(agents: map<string, Agent>, agentId: string, p: Payload): map<string, Agent> {
    agents[agentId := Agent(p, agentId in agents && agents[agentId].online)]
  }

  // ----- transactions -------------------------------------------------------

  datatype Reply<+T> = Reply(tables: Tables, outcome: Result<T>)

  function CreateTx(t: Tables, id: string, agentId: string, expiresAt: Time): Reply<()> {
    if id in t.enrollments then Reply(t, Err(DuplicateKey))
    else
      var bound := if agentId == "" then None else Some(agentId);
      Reply(t.(enrollments := t.enrollments[id := Enrollment(bound, Pending, expiresAt, 0)]), Ok(()))
  }

  // the value is the row's AgentID, "" for NULL
  function GetPendingTx(t: Tables, id: string, now: Time): Reply<string> {
    if id !in t.enrollments then Reply(t, Err(EnrollmentNotFound))
    else
      var row := t.enrollments[id];
      match row.status
      case Issuing => Reply(t, Err(EnrollmentUsed))
      case Issued => Reply(t, Err(EnrollmentUsed))
      case Used => Reply(t, Err(EnrollmentUsed))
      case Withdrawn => Reply(t, Err(EnrollmentRevoked))
      case OtherStatus => Reply(t, Err(InvalidInput))
      case Pending =>
        if now >= row.expiresAt then Reply(t, Err(EnrollmentExpired))
        else
          Reply(t.(enrollments := t.enrollments[id := row.(attempts := row.attempts + 1)]),
                Ok(if row.agentId.Some? then row.agentId.value else ""))
  }

  function ClaimTx(t: Tables, id: string, agentId: string, now: Time): Reply<()> {
    if id in t.enrollments && t.enrollments[id].status == Pending && t.enrollments[id].expiresAt > now
    then Reply(t.(enrollments := t.enrollments[id :=
                 t.enrollments[id].(status := Issuing, agentId := Some(agentId))]), Ok(()))
    else Reply(t, Err(EnrollmentUsed))
  }

  predicate ClaimedBy(rows: map<string, Enrollment>, id: string, agentId: string) {
    id in rows && rows[id].status == Issuing && rows[id].agentId == Some(agentId)
  }

  // zero matching rows is not an error
  function ReleaseTx(t: Tables, id: string, agentId: string, keepAgentId: bool): Reply<()> {
    if ClaimedBy(t.enrollments, id, agentId)
    then
      var row := t.enrollments[id].(status := Pending);
      Reply(t.(enrollments := t.enrollments[id := if keepAgentId then row else row.(agentId := None)]), Ok(()))
    else Reply(t, Ok(()))
  }

  function FinalizeTx(t: Tables, id: string, agentId: string, p: Payload, cert: IssuedCert, now: Time): Reply<()> {
    match RotateActive(t.certs, agentId, cert, now)
    case Err(e) => Reply(t, Err(e))
    case Ok(certs) =>
      if ClaimedBy(t.enrollments, id, agentId) && t.enrollments[id].expiresAt > now
      then Reply(Tables(UpsertOffline(t.agents, agentId, p), certs,
                        t.enrollments[id := t.enrollments[id].(status := Issued)]), Ok(()))
      else Reply(t, Err(EnrollmentUsed))
  }

  function MarkUsedTx(t: Tables, id: string, agentId: string): Reply<()> {
    if id in t.enrollments && t.enrollments[id].status == Issued && t.enrollments[id].agentId == Some(agentId)
    then Reply(t.(enrollments := t.enrollments[id := t.enrollments[id].(status := Used)]), Ok(()))
    else Reply(t, Err(EnrollmentUsed))
  }

  function RegisterTx(t: Tables, agentId: string, p: Payload, cert: IssuedCert, now: Time): Reply<()> {
    match EnsureMatching(t.certs, agentId, cert, now)
    case Err(e) => Reply(t, Err(e))
    case Ok(certs) => Reply(t.(agents := UpsertOnline(t.agents, agentId, p), certs := certs), Ok(()))
  }

  // What the caller of one store operation sees: the reply, or an error before
  // the statement took effect, or an error although it did.
  datatype Fault = NoFault | FailBefore | FailAfter

  function Observed<T>(t: Tables, r: Reply<T>, fault: Fault): Reply<T> {
    match fault
    case NoFault => r
    case FailBefore => Reply(t, Err(StoreFailure))
    case FailAfter => Reply(r.tables, Err(StoreFailure))
  }

  // A fault never undoes what took effect and never lets through what did not; the
  // caller sees the same error for both.
  lemma FaultsExact<T>(t: Tables, r: Reply<T>, fault: Fault)
    ensures Observed(t, r, fault).tables == (if fault == FailBefore then t else r.tables)
    ensures Observed(t, r, fault).outcome == (if fault == NoFault then r.outcome else Err(StoreFailure))
  {
  }

  // ----- what the certificate transactions keep ------------------------------

  predicate UniqueFingerprints(certs: seq<Certificate>) {
    forall i, j :: 0 <= i < j < |certs| ==> certs[i].fingerprint != certs[j].fingerprint
  }

  predicate OneActivePerAgent(certs: seq<Certificate>) {
    forall i, j :: 0 <= i < j < |certs| && certs[i].active && certs[j].active ==>
      certs[i].agentId != certs[j].agentId
  }

  predicate CertsOk(certs: seq<Certificate>) {
    UniqueFingerprints(certs) && OneActivePerAgent(certs)
  }

  // old rows stay, keep who they belong to, and a revoked one stays revoked
  predicate Extends(before: seq<Certificate>, after: seq<Certificate>) {
    && |before| <= |after|
    && forall i :: 0 <= i < |before| ==>
         after[i] == before[i] || after[i] == before[i].(active := false)
  }

  // `fingerprint` is an active row of the agent, and the agent has no other
  predicate SingleActive(certs: seq<Certificate>, agentId: string, fingerprint: string) {
    exists i :: 0 <= i < |certs| && HoldsActive(certs[i], agentId) && certs[i].fingerprint == fingerprint
      && forall j :: 0 <= j < |certs| && j != i ==> !HoldsActive(certs[j], agentId)
  }

  lemma InsertKeeps(certs: seq<Certificate>, agentId: string, cert: IssuedCert, now: Time)
    requires CertsOk(certs) && forall c <- certs :: !HoldsActive(c, agentId)
    ensures InsertActive(certs, agentId, cert, now).Ok? ==>
      var certs' := InsertActive(certs, agentId, cert, now).value;
      CertsOk(certs') && Extends(certs, certs') && SingleActive(certs', agentId, cert.fingerprint)
  {
    if InsertActive(certs, agentId, cert, now).Ok? {
      var certs' := InsertActive(certs, agentId, cert, now).value;
      assert HoldsActive(certs'[|certs|], agentId);
      assert forall i :: 0 <= i < |certs| ==> certs'[i] in certs && !HoldsActive(certs'[i], agentId);
    }
  }

  lemma RotateKeeps(certs: seq<Certificate>, agentId: string, cert: IssuedCert, now: Time)
    requires CertsOk(certs)
    ensures RotateActive(certs, agentId, cert, now).Ok? ==>
      var certs' := RotateActive(certs, agentId, cert, now).value;
      CertsOk(certs') && Extends(certs, certs') && SingleActive(certs', agentId, cert.fingerprint)
  {
    match NewestActive(certs, agentId)
    case Some(stored) =>
      if stored.fingerprint == cert.fingerprint && stored.subjectHash == cert.subjectHash {
        var i :| 0 <= i < |certs| && certs[i] == stored;
        assert HoldsActive(certs[i], agentId);
      } else {
        InsertKeeps(RevokeActive(certs, agentId), agentId, cert, now);
      }
    case None => InsertKeeps(certs, agentId, cert, now);
  }

  lemma EnsureMatchingKeeps(certs: seq<Certificate>, agentId: string, cert: IssuedCert, now: Time)
    requires CertsOk(certs)
    ensures EnsureMatching(certs, agentId, cert, now).Ok? ==>
      var certs' := EnsureMatching(certs, agentId, cert, now).value;
      CertsOk(certs') && Extends(certs, certs') && SingleActive(certs', agentId, cert.fingerprint)
  {
    match ByFingerprint(certs, cert.fingerprint)
    case Some(stored) =>
      if stored.active && stored.agentId == agentId {
        var i :| 0 <= i < |certs| && certs[i] == stored;
        assert HoldsActive(certs[i], agentId);
      }
    case None =>
      if NewestActive(certs, agentId).None? {
        InsertKeeps(certs, agentId, cert, now);
      }
  }

  // EnsureMatching accepts exactly the agent's own active certificate, or a
  // never-seen fingerprint for an agent that has no active certificate.
  lemma EnsureMatchingAccepts(certs: seq<Certificate>, agentId: string, cert: IssuedCert, now: Time)
    requires CertsOk(certs)
    ensures EnsureMatching(certs, agentId, cert, now).Ok? <==>
      || (exists c :: c in certs && HoldsActive(c, agentId)
            && c.fingerprint == cert.fingerprint && c.subjectHash == cert.subjectHash)
      || ((forall c <- certs :: c.fingerprint != cert.fingerprint) && (forall c <- certs :: !HoldsActive(c, agentId)))
  {
  }

  lemma RevokedNeverMatches(certs: seq<Certificate>, agentId: string, cert: IssuedCert, now: Time, i: nat)
    requires UniqueFingerprints(certs)
    requires i < |certs| && certs[i].fingerprint == cert.fingerprint && !certs[i].active
    ensures EnsureMatching(certs, agentId, cert, now) == Err(CertificateRevoked)
  {
  }

  lemma ExtendsTransitive(a: seq<Certificate>, b: seq<Certificate>, c: seq<Certificate>)
    requires Extends(a, b) && Extends(b, c)
    ensures Extends(a, c)
  {
  }

  // ----- what one transaction leaves for the next ------------------------------------

  // Rotation accepts exactly a never-seen fingerprint or the agent's own active
  // certificate.
  lemma RotateAccepts(certs: seq<Certificate>, agentId: string, cert: IssuedCert, now: Time)
    requires CertsOk(certs)
    ensures RotateActive(certs, agentId, cert, now).Ok? <==>
      || (forall c <- certs :: c.fingerprint != cert.fingerprint)
      || (exists c :: c in certs && HoldsActive(c, agentId)
            && c.fingerprint == cert.fingerprint && c.subjectHash == cert.subjectHash)
    ensures RotateActive(certs, agentId, cert, now).Err? ==> RotateActive(certs, agentId, cert, now).error == DuplicateKey
  {
    var revoked := RevokeActive(certs, agentId);
    SameFingerprints(certs, agentId, cert.fingerprint);
    var newest := NewestActive(certs, agentId);
    if c :| c in certs && HoldsActive(c, agentId) && c.fingerprint == cert.fingerprint && c.subjectHash == cert.subjectHash {
      OnlyActive(certs, agentId, c);
    }
  }

  lemma SameFingerprints(certs: seq<Certificate>, agentId: string, fingerprint: string)
    ensures ByFingerprint(RevokeActive(certs, agentId), fingerprint).None? <==> ByFingerprint(certs, fingerprint).None?
  {
    var revoked := RevokeActive(certs, agentId);
    if ByFingerprint(revoked, fingerprint).Some? {
      var i :| 0 <= i < |revoked| && revoked[i] == ByFingerprint(revoked, fingerprint).value;
      assert certs[i] in certs && certs[i].fingerprint == fingerprint;
    }
    if ByFingerprint(certs, fingerprint).Some? {
      var i :| 0 <= i < |certs| && certs[i] == ByFingerprint(certs, fingerprint).value;
      assert revoked[i] in revoked && revoked[i].fingerprint == fingerprint;
    }
  }

  lemma OnlyActive(certs: seq<Certificate>, agentId: string, c: Certificate)
    requires OneActivePerAgent(certs) && c in certs && HoldsActive(c, agentId)
    ensures NewestActive(certs, agentId) == Some(c)
  {
    var n := NewestActive(certs, agentId).value;
    var i :| 0 <= i < |certs| && certs[i] == c;
    var j :| 0 <= j < |certs| && certs[j] == n;
  }

  lemma OnlyFingerprint(certs: seq<Certificate>, c: Certificate)
    requires UniqueFingerprints(certs) && c in certs
    ensures ByFingerprint(certs, c.fingerprint) == Some(c)
  {
    var n := ByFingerprint(certs, c.fingerprint).value;
    var i :| 0 <= i < |certs| && certs[i] == c;
    var j :| 0 <= j < |certs| && certs[j] == n;
  }

  // the agent's active certificate, as it was issued
  ghost predicate Carries(certs: seq<Certificate>, agentId: string, cert: IssuedCert) {
    exists c :: c in certs && HoldsActive(c, agentId) && c.fingerprint == cert.fingerprint && c.subjectHash == cert.subjectHash
  }

  // A new certificate is stored as it was issued, for that agent, active from now on.
  lemma NewCertificateStored(certs: seq<Certificate>, agentId: string, cert: IssuedCert, now: Time)
    requires CertsOk(certs) && forall c <- certs :: c.fingerprint != cert.fingerprint
    ensures RotateActive(certs, agentId, cert, now).Ok?
    ensures var stored := NewestActive(RotateActive(certs, agentId, cert, now).value, agentId);
      && stored.Some? && stored.value.agentId == agentId && stored.value.active && stored.value.boundAt == now
      && stored.value.subjectHash == cert.subjectHash && stored.value.fingerprint == cert.fingerprint
  {
    RotateAccepts(certs, agentId, cert, now);
    RotateKeeps(certs, agentId, cert, now);
    var certs' := RotateActive(certs, agentId, cert, now).value;
    OnlyActive(certs', agentId, certs'[|certs'| - 1]);
  }

  // What rotation has stored, registration accepts, again and again: an agent can
  // register with the certificate it was issued.
  lemma RotatedIsAccepted(certs: seq<Certificate>, agentId: string, cert: IssuedCert, now: Time, later: Time)
    requires CertsOk(certs) && RotateActive(certs, agentId, cert, now).Ok?
    ensures var certs' := RotateActive(certs, agentId, cert, now).value;
      Carries(certs', agentId, cert) && EnsureMatching(certs', agentId, cert, later) == Ok(certs')
  {
    RotateKeeps(certs, agentId, cert, now);
    RotateAccepts(certs, agentId, cert, now);
    var certs' := RotateActive(certs, agentId, cert, now).value;
    if forall c <- certs :: c.fingerprint != cert.fingerprint {
      assert certs'[|certs'| - 1] in certs';
    }
    CarriedIsAccepted(certs', agentId, cert, later);
  }

  lemma MatchedIsAcceptedAgain(certs: seq<Certificate>, agentId: string, cert: IssuedCert, now: Time, later: Time)
    requires CertsOk(certs) && EnsureMatching(certs, agentId, cert, now).Ok?
    ensures var certs' := EnsureMatching(certs, agentId, cert, now).value;
      Carries(certs', agentId, cert) && EnsureMatching(certs', agentId, cert, later) == Ok(certs')
  {
    EnsureMatchingKeeps(certs, agentId, cert, now);
    var certs' := EnsureMatching(certs, agentId, cert, now).value;
    if ByFingerprint(certs, cert.fingerprint).None? {
      assert certs'[|certs'| - 1] in certs';
    }
    CarriedIsAccepted(certs', agentId, cert, later);
  }

  lemma CarriedIsAccepted(certs: seq<Certificate>, agentId: string, cert: IssuedCert, later: Time)
    requires CertsOk(certs) && Carries(certs, agentId, cert)
    ensures EnsureMatching(certs, agentId, cert, later) == Ok(certs)
  {
    var c :| c in certs && HoldsActive(c, agentId) && c.fingerprint == cert.fingerprint && c.subjectHash == cert.subjectHash;
    OnlyFingerprint(certs, c);
  }

  // Why registration refuses: a known fingerprint that is revoked, and otherwise a
  // mismatch.
  lemma EnsureMatchingRefuses(certs: seq<Certificate>, agentId: string, cert: IssuedCert, now: Time)
    requires CertsOk(certs) && EnsureMatching(certs, agentId, cert, now).Err?
    ensures EnsureMatching(certs, agentId, cert, now).error ==
      if exists c :: c in certs && c.fingerprint == cert.fingerprint && !c.active then CertificateRevoked else CertificateMismatch
  {
    if c :| c in certs && c.fingerprint == cert.fingerprint && !c.active { OnlyFingerprint(certs, c); }
  }

  // all that a transaction on one row leaves alone
  ghost predicate OnlyRow(t: Tables, t': Tables, id: string) {
    t'.agents == t.agents && t'.certs == t.certs && t'.enrollments - {id} == t.enrollments - {id}
  }

  // A created enrollment is admitted, for the agent it was created for, until it
  // expires; a known id is not created again.
  lemma CreatedIsAdmitted(t: Tables, id: string, agentId: string, expiresAt: Time, now: Time)
    ensures var r := CreateTx(t, id, agentId, expiresAt);
      if id in t.enrollments then r == Reply(t, Err(DuplicateKey))
      else
        && r.outcome == Ok(()) && OnlyRow(t, r.tables, id) && r.tables.enrollments[id].attempts == 0
        && GetPendingTx(r.tables, id, now).outcome == if now < expiresAt then Ok(agentId) else Err(EnrollmentExpired)
  {
  }

  // Admission: exactly the pending, unexpired rows, each attempt counted; every other
  // row is refused for its own reason and left alone.
  lemma AdmissionExact(t: Tables, id: string, now: Time)
    ensures var r := GetPendingTx(t, id, now);
      && OnlyRow(t, r.tables, id)
      && (r.outcome.Ok? <==> id in t.enrollments && t.enrollments[id].status == Pending && now < t.enrollments[id].expiresAt)
      && (r.outcome.Ok? ==>
            && t.enrollments[id].agentId == (if r.outcome.value == "" && t.enrollments[id].agentId.None? then None else Some(r.outcome.value))
            && r.tables.enrollments[id] == t.enrollments[id].(attempts := r.tables.enrollments[id].attempts)
            && r.tables.enrollments[id].attempts == t.enrollments[id].attempts + 1)
      && (r.outcome.Err? ==> r.tables == t)
      && (r.outcome == Err(EnrollmentNotFound) <==> id !in t.enrollments)
      && (r.outcome == Err(EnrollmentUsed) <==> id in t.enrollments && t.enrollments[id].status in {Issuing, Issued, Used})
      && (r.outcome == Err(EnrollmentRevoked) <==> id in t.enrollments && t.enrollments[id].status == Withdrawn)
  {
  }

  // A claim takes exactly a pending, unexpired row, for the claiming agent, and from
  // nobody else can it be claimed then; releasing it puts back what was there.
  lemma ClaimThenRelease(t: Tables, id: string, agentId: string, now: Time, other: string, later: Time, keep: bool)
    ensures var r := ClaimTx(t, id, agentId, now);
      && (r.outcome.Ok? <==> id in t.enrollments && t.enrollments[id].status == Pending && now < t.enrollments[id].expiresAt)
      && (r.outcome.Err? ==> r == Reply(t, Err(EnrollmentUsed)))
      && (r.outcome.Ok? ==>
            var back := ReleaseTx(r.tables, id, agentId, keep);
            && OnlyRow(t, r.tables, id) && ClaimedBy(r.tables.enrollments, id, agentId)
            && ClaimTx(r.tables, id, other, later) == Reply(r.tables, Err(EnrollmentUsed))
            && (other != agentId ==> ReleaseTx(r.tables, id, other, keep) == Reply(r.tables, Ok(())))
            && back.outcome == Ok(()) && OnlyRow(t, back.tables, id)
            && back.tables.enrollments[id] == t.enrollments[id].(agentId := if keep then Some(agentId) else None))
  {
  }

  // Finalizing succeeds exactly for a claimed, unexpired row and a certificate that
  // rotation accepts; only then can the row be marked used, once.
  lemma FinalizeThenMark(t: Tables, id: string, agentId: string, p: Payload, cert: IssuedCert, now: Time)
    ensures var r := FinalizeTx(t, id, agentId, p, cert, now);
      && (r.outcome.Ok? <==> RotateActive(t.certs, agentId, cert, now).Ok? && ClaimedBy(t.enrollments, id, agentId)
                             && now < t.enrollments[id].expiresAt)
      && (r.outcome.Err? ==> r.tables == t)
      && (r.outcome.Ok? ==>
            var used := MarkUsedTx(r.tables, id, agentId);
            && MarkUsedTx(t, id, agentId) == Reply(t, Err(EnrollmentUsed))
            && r.tables.enrollments - {id} == t.enrollments - {id}
            && used.outcome == Ok(()) && OnlyRow(r.tables, used.tables, id)
            && used.tables.enrollments[id] == t.enrollments[id].(status := Used)
            && MarkUsedTx(used.tables, id, agentId) == Reply(used.tables, Err(EnrollmentUsed)))
  {
  }

  // A registered agent is online with the payload it sent; an enrolled one has its
  // payload stored and is as online as before. No other agent changes.
  lemma AgentsStored(t: Tables, id: string, agentId: string, p: Payload, cert: IssuedCert, now: Time)
    ensures var r := RegisterTx(t, agentId, p, cert, now);
      if r.outcome.Err? then r.tables == t
      else
        && r.tables.agents - {agentId} == t.agents - {agentId} && r.tables.enrollments == t.enrollments
        && agentId in r.tables.agents && r.tables.agents[agentId].online && r.tables.agents[agentId].payload == p
    ensures var r := FinalizeTx(t, id, agentId, p, cert, now);
      r.outcome.Ok? ==>
        && r.tables.agents - {agentId} == t.agents - {agentId}
        && agentId in r.tables.agents && r.tables.agents[agentId].payload == p
        && (r.tables.agents[agentId].online <==> agentId in t.agents && t.agents[agentId].online)
  {
    hide EnsureMatching, RotateActive;
  }
}
