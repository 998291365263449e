// The stores as they run: a class whose fields are the tables, each method one
// transaction carried out statement by statement and rolled back on error, and
// Service.Enroll on top of it with its `claimed` flag and deferred release.

module Service {
  import opened Prelude
  import opened Store
  import Machine = Enrollment

  class Database {
    var agents: map<string, Agent>
    var certs: seq<Certificate>
    var enrollments: map<string, Enrollment>

    ghost function Contents(): Tables
      reads this
    {
      Tables(agents, certs, enrollments)
    }

    constructor ()
      ensures Contents() == Machine.Init.tables
    {
      agents, certs, enrollments := map[], [], map[];
    }

    method SelectByFingerprint(fingerprint: string) returns (r: Option<Certificate>)
      ensures r == ByFingerprint(certs, fingerprint)
    {
      r := None;
      for i := 0 to |certs|
        invariant r == ByFingerprint(certs[..i], fingerprint)
      {
        assert certs[..i + 1][..i] == certs[..i];
        if certs[i].fingerprint == fingerprint { r := Some(certs[i]); }
      }
      assert certs[..|certs|] == certs;
    }

    method SelectNewestActive(agentId: string) returns (r: Option<Certificate>)
      ensures r == NewestActive(certs, agentId)
    {
      r := None;
      for i := 0 to |certs|
        invariant r == NewestActive(certs[..i], agentId)
      {
        assert certs[..i + 1][..i] == certs[..i];
        if HoldsActive(certs[i], agentId) && (r.None? || r.value.boundAt <= certs[i].boundAt) {
          r := Some(certs[i]);
        }
      }
      assert certs[..|certs|] == certs;
    }

    method Revoke(agentId: string)
      modifies this`certs
      ensures certs == RevokeActive(old(certs), agentId)
    {
      for i := 0 to |certs|
        invariant |certs| == |old(certs)|
        invariant certs[..i] == RevokeActive(old(certs), agentId)[..i]
        invariant certs[i..] == old(certs)[i..]
      {
        assert certs[i] == old(certs)[i];
        if HoldsActive(certs[i], agentId) {
          certs := certs[i := certs[i].(active := false)];
        }
      }
    }

    method Insert(agentId: string, cert: IssuedCert, now: Time) returns (r: Result<()>)
      modifies this`certs
      ensures var expected := InsertActive(old(certs), agentId, cert, now);
        if expected.Ok? then r == Ok(()) && certs == expected.value
        else r == Err(expected.error) && certs == old(certs)
    {
      var known := SelectByFingerprint(cert.fingerprint);
      if known.Some? { return Err(DuplicateKey); }
      certs := certs + [Certificate(agentId, cert.subjectHash, cert.fingerprint, true, now)];
      return Ok(());
    }

    // leaves partial updates behind on error; the caller's transaction undoes them
    method RotateActiveCertificate(agentId: string, cert: IssuedCert, now: Time) returns (r: Result<()>)
      modifies this`certs
      ensures var expected := RotateActive(old(certs), agentId, cert, now);
        if expected.Ok? then r == Ok(()) && certs == expected.value else r == Err(expected.error)
    {
      var stored := SelectNewestActive(agentId);
      if stored.Some? {
        if stored.value.subjectHash == cert.subjectHash && stored.value.fingerprint == cert.fingerprint {
          return Ok(());
        }
        Revoke(agentId);
      }
      r := Insert(agentId, cert, now);
    }

    method EnsureMatchingCertificate(agentId: string, cert: IssuedCert, now: Time) returns (r: Result<()>)
      modifies this`certs
      ensures var expected := EnsureMatching(old(certs), agentId, cert, now);
        if expected.Ok? then r == Ok(()) && certs == expected.value
        else r == Err(expected.error) && certs == old(certs)
    {
      var stored := SelectByFingerprint(cert.fingerprint);
      if stored.Some? {
        if !stored.value.active { return Err(CertificateRevoked); }
        if stored.value.agentId != agentId || stored.value.subjectHash != cert.subjectHash {
          return Err(CertificateMismatch);
        }
        return Ok(());
      }
      var other := SelectNewestActive(agentId);
      if other.Some? { return Err(CertificateMismatch); }
      r := Insert(agentId, cert, now);
    }

    method CreateEnrollment(id: string, agentId: string, expiresAt: Time, fault: Fault) returns (r: Result<()>)
      modifies this
      ensures Reply(Contents(), r) == Observed(old(Contents()), CreateTx(old(Contents()), id, agentId, expiresAt), fault)
    {
      if fault == FailBefore { return Err(StoreFailure); }
      if id in enrollments {
        r := Err(DuplicateKey);
      } else {
        enrollments := enrollments[id := Enrollment(if agentId == "" then None else Some(agentId), Pending, expiresAt, 0)];
        r := Ok(());
      }
      if fault == FailAfter { r := Err(StoreFailure); }
    }

    method GetPendingEnrollment(id: string, now: Time, fault: Fault) returns (r: Result<string>)
      modifies this
      ensures Reply(Contents(), r) == Observed(old(Contents()), GetPendingTx(old(Contents()), id, now), fault)
    {
      if fault == FailBefore { return Err(StoreFailure); }
      if id !in enrollments {
        r := Err(EnrollmentNotFound);
      } else {
        var row := enrollments[id];
        if row.status in {Issuing, Issued, Used} {
          r := Err(EnrollmentUsed);
        } else if row.status == Withdrawn {
          r := Err(EnrollmentRevoked);
        } else if row.status != Pending {
          r := Err(InvalidInput);
        } else if !(now < row.expiresAt) {
          r := Err(EnrollmentExpired);
        } else {
          enrollments := enrollments[id := row.(attempts := row.attempts + 1)];
          r := Ok(if row.agentId.Some? then row.agentId.value else "");
        }
      }
      if fault == FailAfter { r := Err(StoreFailure); }
    }

    method ClaimEnrollment(id: string, agentId: string, now: Time, fault: Fault) returns (r: Result<()>)
      modifies this
      ensures Reply(Contents(), r) == Observed(old(Contents()), ClaimTx(old(Contents()), id, agentId, now), fault)
    {
      if fault == FailBefore { return Err(StoreFailure); }
      var affected := 0;
      if id in enrollments && enrollments[id].status == Pending && enrollments[id].expiresAt > now {
        enrollments := enrollments[id := enrollments[id].(status := Issuing, agentId := Some(agentId))];
        affected := 1;
      }
      r := if affected == 0 then Err(EnrollmentUsed) else Ok(());
      if fault == FailAfter { r := Err(StoreFailure); }
    }

    method ReleaseEnrollmentClaim(id: string, agentId: string, keepAgentId: bool, fault: Fault) returns (r: Result<()>)
      modifies this
      ensures Reply(Contents(), r) == Observed(old(Contents()), ReleaseTx(old(Contents()), id, agentId, keepAgentId), fault)
    {
      if fault == FailBefore { return Err(StoreFailure); }
      if id in enrollments && enrollments[id].status == Issuing && enrollments[id].agentId == Some(agentId) {
        var row := enrollments[id].(status := Pending);
        if !keepAgentId { row := row.(agentId := None); }
        enrollments := enrollments[id := row];
      }
      r := if fault == FailAfter then Err(StoreFailure) else Ok(());
    }

    method FinalizeEnrollmentIssue(id: string, agentId: string, p: Payload, cert: IssuedCert, now: Time, fault: Fault)
      returns (r: Result<()>)
      modifies this
      ensures Reply(Contents(), r)
              == Observed(old(Contents()), FinalizeTx(old(Contents()), id, agentId, p, cert, now), fault)
    {
      if fault == FailBefore { return Err(StoreFailure); }
      var savedAgents, savedCerts, savedEnrollments := agents, certs, enrollments;
      agents := UpsertOffline(agents, agentId, p);
      r := RotateActiveCertificate(agentId, cert, now);
      if r.Ok? {
        var affected := 0;
        if id in enrollments && enrollments[id].status == Issuing && enrollments[id].agentId == Some(agentId)
           && enrollments[id].expiresAt > now
        {
          enrollments := enrollments[id := enrollments[id].(status := Issued, agentId := Some(agentId))];
          affected := 1;
        }
        if affected == 0 { r := Err(EnrollmentUsed); }
      }
      if r.Err? {
        agents, certs, enrollments := savedAgents, savedCerts, savedEnrollments;
      }
      if fault == FailAfter { r := Err(StoreFailure); }
    }

    method MarkEnrollmentUsed(id: string, agentId: string, fault: Fault) returns (r: Result<()>)
      modifies this
      ensures Reply(Contents(), r) == Observed(old(Contents()), MarkUsedTx(old(Contents()), id, agentId), fault)
    {
      if fault == FailBefore { return Err(StoreFailure); }
      var affected := 0;
      if id in enrollments && enrollments[id].status == Issued && enrollments[id].agentId == Some(agentId) {
        enrollments := enrollments[id := enrollments[id].(status := Used, agentId := Some(agentId))];
        affected := 1;
      }
      r := if affected == 0 then Err(EnrollmentUsed) else Ok(());
      if fault == FailAfter { r := Err(StoreFailure); }
    }

    method RegisterAgentWithCertificate(agentId: string, p: Payload, cert: IssuedCert, now: Time, fault: Fault)
      returns (r: Result<()>)
      modifies this
      ensures Reply(Contents(), r) == Observed(old(Contents()), RegisterTx(old(Contents()), agentId, p, cert, now), fault)
    {
      if fault == FailBefore { return Err(StoreFailure); }
      var savedAgents := agents;
      agents := UpsertOnline(agents, agentId, p);
      r := EnsureMatchingCertificate(agentId, cert, now);
      if r.Err? { agents := savedAgents; }
      if fault == FailAfter { r := Err(StoreFailure); }
    }
  }

  // ----- Service.Enroll ------------------------------------------------------------

  datatype Request = Request(hostname: string, ip: string, os: string, monitorType: string)

  datatype Response = Response(agentId: string, cert: IssuedCert)

  // What the surroundings of one Enroll call decide: the derived agent number
  // ("" when the IP does not parse), the issuer's answer, the clock and the
  // fate of each store operation.
  datatype Surroundings = Surroundings(
    agentNumber: string, issued: Option<IssuedCert>, claimAt: Time, finalizeAt: Time,
    claimFault: Fault, finalizeFault: Fault, releaseFault: Fault)

  function Identified(id: string, req: Request, around: Surroundings): string {
    if id == "" || req.hostname == "" || req.ip == "" then "" else around.agentNumber
  }

  function EnrollSteps(id: string, req: Request, around: Surroundings): seq<Machine.Step> {
    [Machine.Validate(0, Identified(id, req, around)),
     Machine.Claim(0, around.claimAt, around.claimFault),
     Machine.Issue(0, around.issued),
     Machine.Finalize(0, Payload(req.hostname, req.ip, req.os, req.monitorType), around.finalizeAt, around.finalizeFault),
     Machine.Release(0, around.releaseFault)]
  }

  ghost function Admitted(t: Tables, id: string, expected: string): Machine.State {
    Machine.State(t, map[0 := Machine.Session(id, Machine.Admitted(expected))], map[], [])
  }

  lemma RunFive(s: Machine.State, steps: seq<Machine.Step>)
    requires |steps| == 5
    ensures Machine.Run(s, steps)
         == Machine.Next(Machine.Next(Machine.Next(Machine.Next(Machine.Next(s, steps[0]), steps[1]), steps[2]), steps[3]), steps[4])
  {
    var s1 := Machine.Next(s, steps[0]);
    var s2 := Machine.Next(s1, steps[1]);
    var s3 := Machine.Next(s2, steps[2]);
    var s4 := Machine.Next(s3, steps[3]);
    var t1, t2, t3, t4 := steps[1..], steps[2..], steps[3..], steps[4..];
    assert t1[0] == steps[1] && t1[1..] == t2;
    assert t2[0] == steps[2] && t2[1..] == t3;
    assert t3[0] == steps[3] && t3[1..] == t4;
    assert t4[0] == steps[4] && t4[1..] == [];
    assert Machine.Run(s4, t4) == Machine.Next(s4, steps[4]);
    assert Machine.Run(s3, t3) == Machine.Run(s4, t4);
    assert Machine.Run(s2, t2) == Machine.Run(s3, t3);
    assert Machine.Run(s1, t1) == Machine.Run(s2, t2);
  }

  // Enroll, run alone, is the five steps of its session in the state machine.
  method Enroll(db: Database, id: string, expected: string, req: Request, around: Surroundings)
    returns (r: Result<Response>)
    modifies db
    ensures var final := Machine.Run(Admitted(old(db.Contents()), id, expected), EnrollSteps(id, req, around));
      && db.Contents() == final.tables
      && 0 in final.sessions
      && (r.Ok? <==> final.sessions[0].phase.Responded?)
      && (r.Ok? ==> final.sessions[0].phase == Machine.Responded(r.value.agentId, r.value.cert))
    ensures id == "" || req.hostname == "" || req.ip == "" || around.agentNumber == "" ==>
      r == Err(InvalidInput) && db.Contents() == old(db.Contents())
    ensures id != "" && req.hostname != "" && req.ip != "" && around.agentNumber != "" && expected !in {"", around.agentNumber} ==>
      r == Err(AgentMismatch) && db.Contents() == old(db.Contents())
    ensures r.Ok? ==> r.value.agentId == around.agentNumber && around.issued == Some(r.value.cert)
  {
    ghost var s0 := Admitted(db.Contents(), id, expected);
    ghost var steps := EnrollSteps(id, req, around);
    RunFive(s0, steps);
    var agentId := Identified(id, req, around);
    if agentId == "" { return Err(InvalidInput); }
    if expected != "" && expected != agentId { return Err(AgentMismatch); }
    var claim := db.ClaimEnrollment(id, agentId, around.claimAt, around.claimFault);
    if claim.Err? { return Err(claim.error); }
    var claimed := true;
    match around.issued {
      case None => r := Err(StoreFailure);
      case Some(cert) =>
        var done := db.FinalizeEnrollmentIssue(id, agentId, Payload(req.hostname, req.ip, req.os, req.monitorType),
                                               cert, around.finalizeAt, around.finalizeFault);
        if done.Err? {
          r := Err(done.error);
        } else {
          claimed := false;
          r := Ok(Response(agentId, cert));
        }
    }
    if claimed {
      var _ := db.ReleaseEnrollmentClaim(id, agentId, expected != "", around.releaseFault);
    }
  }
}
