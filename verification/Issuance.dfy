// What an issued certificate is good for: the transaction that stores it, the
// registrations that accept it afterwards, and how long. And what refuses an
// enrollment once it has expired.

module Issuance {
  import opened Prelude
  import opened Store
  import opened Enrollment

  // A step that commits is the finalization of an unexpired claim, and it stores
  // the certificate its session carries for that session's agent.
  lemma CommitExact(s: State, step: Step)
    requires |Next(s, step).commits| > |s.commits|
    ensures step.Finalize? && At(s, step.sid) && s.sessions[step.sid].phase.Certified?
    ensures var ses := s.sessions[step.sid];
      && Next(s, step).commits == s.commits + [Commit(step.sid, ses.id, ses.phase.agentId, ses.phase.cert)]
      && ses.id in s.tables.enrollments && step.now < s.tables.enrollments[ses.id].expiresAt
      && ClaimedBy(s.tables.enrollments, ses.id, ses.phase.agentId)
      && RotateActive(s.tables.certs, ses.phase.agentId, ses.phase.cert, step.now) == Ok(Next(s, step).tables.certs)
  {
    hide RotateActive, EnsureMatching;
  }

  // Once a row has expired it is not admitted, not claimed and not issued.
  lemma ExpiredIsRefused(s: State, step: Step)
    requires step.GetPending? || step.Claim? || step.Finalize?
    requires At(s, step.sid)
    requires s.sessions[step.sid].id in s.tables.enrollments
          && s.tables.enrollments[s.sessions[step.sid].id].expiresAt <= step.now
    ensures Next(s, step).tables == s.tables && Next(s, step).commits == s.commits
  {
    hide RotateActive, EnsureMatching;
  }

  // The attempts of a row count its admissions and nothing else.
  lemma AttemptsExact(s: State, step: Step, id: string)
    requires id in s.tables.enrollments
    ensures id in Next(s, step).tables.enrollments
    ensures var row := s.tables.enrollments[id];
      Next(s, step).tables.enrollments[id].attempts - row.attempts ==
        if step.GetPending? && step.sid in s.sessions && s.sessions[step.sid] == Session(id, Opened)
           && step.fault != FailBefore && row.status == Pending && step.now < row.expiresAt
        then 1 else 0
  {
    hide RotateActive, EnsureMatching;
    match step
    case Create(_, _, _, _) =>
    case Register(_, _, _, _, _) =>
    case Open(_, _) =>
    case Validate(_, _) =>
    case Issue(_, _) =>
    case Hangup(_) =>
    case Kill(_) =>
    case GetPending(sid, now, fault) =>
    case Claim(sid, now, fault) =>
    case Finalize(sid, p, now, fault) =>
    case Release(sid, fault) =>
    case Acknowledge(sid, fault) =>
  }

  // Only an acknowledgement of a session that has its response makes a row used.
  lemma UsedByAcknowledge(s: State, step: Step, id: string)
    requires id in s.tables.enrollments && s.tables.enrollments[id].status != Used
    requires id in Next(s, step).tables.enrollments && Next(s, step).tables.enrollments[id].status == Used
    ensures step.Acknowledge? && step.sid in s.sessions && s.sessions[step.sid].id == id
         && s.sessions[step.sid].phase.Responded?
         && s.tables.enrollments[id].agentId == Some(s.sessions[step.sid].phase.agentId)
  {
    hide RotateActive, EnsureMatching;
    match step
    case Create(_, _, _, _) =>
    case Register(_, _, _, _, _) =>
    case Open(_, _) =>
    case Validate(_, _) =>
    case Issue(_, _) =>
    case Hangup(_) =>
    case Kill(_) =>
    case GetPending(sid, now, fault) =>
    case Claim(sid, now, fault) =>
    case Finalize(sid, p, now, fault) =>
    case Release(sid, fault) =>
    case Acknowledge(sid, fault) =>
  }

  // ----- accepted afterwards ----------------------------------------------------------

  // The agent registers with the certificate just issued to it.
  lemma CommitIsAccepted(s: State, step: Step, p: Payload, later: Time)
    requires Inv(s) && |Next(s, step).commits| > |s.commits|
    ensures var s' := Next(s, step);
      var c := s'.commits[|s.commits|];
      && Carries(s'.tables.certs, c.agentId, c.cert)
      && RegisterTx(s'.tables, c.agentId, p, c.cert, later).outcome == Ok(())
      && RegisterTx(s'.tables, c.agentId, p, c.cert, later).tables.certs == s'.tables.certs
  {
    hide RotateActive, EnsureMatching, Carries, CertsOk;
    CommitExact(s, step);
    var ph := s.sessions[step.sid].phase;
    RotatedIsAccepted(s.tables.certs, ph.agentId, ph.cert, step.now, later);
  }

  // A registration once accepted is accepted again, and changes no certificate.
  lemma RegisteredIsAcceptedAgain(s: State, agentId: string, p: Payload, cert: IssuedCert, now: Time, p': Payload, later: Time)
    requires Inv(s) && RegisterTx(s.tables, agentId, p, cert, now).outcome.Ok?
    ensures var t := RegisterTx(s.tables, agentId, p, cert, now).tables;
      && Carries(t.certs, agentId, cert)
      && RegisterTx(t, agentId, p', cert, later).outcome == Ok(())
      && RegisterTx(t, agentId, p', cert, later).tables.certs == t.certs
  {
    hide EnsureMatching, Carries, CertsOk;
    MatchedIsAcceptedAgain(s.tables.certs, agentId, cert, now, later);
  }

  lemma InsertLeaves(certs: seq<Certificate>, other: string, cert': IssuedCert, now: Time, agentId: string, cert: IssuedCert)
    requires Carries(certs, agentId, cert) && InsertActive(certs, other, cert', now).Ok?
    ensures Carries(InsertActive(certs, other, cert', now).value, agentId, cert)
  {
    var c :| c in certs && HoldsActive(c, agentId) && c.fingerprint == cert.fingerprint && c.subjectHash == cert.subjectHash;
    assert c in InsertActive(certs, other, cert', now).value;
  }

  lemma RevokeLeaves(certs: seq<Certificate>, other: string, agentId: string, cert: IssuedCert)
    requires Carries(certs, agentId, cert) && other != agentId
    ensures Carries(RevokeActive(certs, other), agentId, cert)
  {
    var c :| c in certs && HoldsActive(c, agentId) && c.fingerprint == cert.fingerprint && c.subjectHash == cert.subjectHash;
    var i :| 0 <= i < |certs| && certs[i] == c;
    assert RevokeActive(certs, other)[i] == c;
  }

  // Rotating another agent's certificate, or registering anyone, takes away nobody
  // else's certificate.
  lemma RotateLeaves(certs: seq<Certificate>, other: string, cert': IssuedCert, now: Time, agentId: string, cert: IssuedCert)
    requires Carries(certs, agentId, cert) && other != agentId && RotateActive(certs, other, cert', now).Ok?
    ensures Carries(RotateActive(certs, other, cert', now).value, agentId, cert)
  {
    hide Carries, InsertActive;
    RevokeLeaves(certs, other, agentId, cert);
    match NewestActive(certs, other)
    case None => InsertLeaves(certs, other, cert', now, agentId, cert);
    case Some(stored) =>
      if !(stored.subjectHash == cert'.subjectHash && stored.fingerprint == cert'.fingerprint) {
        InsertLeaves(RevokeActive(certs, other), other, cert', now, agentId, cert);
      }
  }

  lemma EnsureMatchingLeaves(certs: seq<Certificate>, other: string, cert': IssuedCert, now: Time, agentId: string, cert: IssuedCert)
    requires Carries(certs, agentId, cert) && EnsureMatching(certs, other, cert', now).Ok?
    ensures Carries(EnsureMatching(certs, other, cert', now).value, agentId, cert)
  {
    hide Carries, InsertActive;
    if ByFingerprint(certs, cert'.fingerprint).None? { InsertLeaves(certs, other, cert', now, agentId, cert); }
  }

  lemma StepLeaves(s: State, step: Step, agentId: string, cert: IssuedCert)
    requires Carries(s.tables.certs, agentId, cert)
    requires |Next(s, step).commits| > |s.commits| ==> Next(s, step).commits[|s.commits|].agentId != agentId
    ensures Carries(Next(s, step).tables.certs, agentId, cert)
  {
    hide RotateActive, EnsureMatching, Carries;
    if |Next(s, step).commits| > |s.commits| {
      CommitExact(s, step);
      var ph := s.sessions[step.sid].phase;
      RotateLeaves(s.tables.certs, ph.agentId, ph.cert, step.now, agentId, cert);
    } else if step.Register? && Next(s, step).tables.certs != s.tables.certs {
      EnsureMatchingLeaves(s.tables.certs, step.agentId, step.cert, step.now, agentId, cert);
    }
  }

  lemma {:induction false} CommitsGrow(s: State, steps: seq<Step>)
    ensures s.commits <= Run(s, steps).commits
    decreases |steps|
  {
    if steps != [] {
      CommitsStep(s, steps[0]);
      CommitsGrow(Next(s, steps[0]), steps[1..]);
    }
  }

  lemma CommitsStep(s: State, step: Step)
    ensures s.commits <= Next(s, step).commits
  {
    hide RotateActive, EnsureMatching;
    if |Next(s, step).commits| > |s.commits| { CommitExact(s, step); }
  }

  // A certificate is accepted until the next one is issued to its agent, whatever
  // else happens in between: other enrollments, registrations of any agent, even
  // of this one with another certificate, store failures and killed servers.
  lemma {:induction false} AcceptedUntilReplaced(s: State, steps: seq<Step>, agentId: string, cert: IssuedCert, p: Payload, later: Time)
    requires Inv(s) && Carries(s.tables.certs, agentId, cert)
    requires forall i :: |s.commits| <= i < |Run(s, steps).commits| ==> Run(s, steps).commits[i].agentId != agentId
    ensures Carries(Run(s, steps).tables.certs, agentId, cert)
    ensures RegisterTx(Run(s, steps).tables, agentId, p, cert, later).outcome == Ok(())
    decreases |steps|
  {
    hide EnsureMatching, Carries, Inv, Next;
    if steps == [] {
      InvCerts(s);
      CarriedIsAccepted(s.tables.certs, agentId, cert, later);
    } else {
      var s' := Next(s, steps[0]);
      NextKeeps(s, steps[0]);
      CommitsStep(s, steps[0]);
      CommitsGrow(s', steps[1..]);
      assert Run(s, steps) == Run(s', steps[1..]);
      assert |s'.commits| > |s.commits| ==> Run(s, steps).commits[|s.commits|] == s'.commits[|s.commits|];
      StepLeaves(s, steps[0], agentId, cert);
      AcceptedUntilReplaced(s', steps[1..], agentId, cert, p, later);
    }
  }

  lemma InvCerts(s: State)
    requires Inv(s)
    ensures CertsOk(s.tables.certs)
  {
  }

  // From its commit on, an agent's certificate is the one it registers with, until
  // a later enrollment commits another one for that agent.
  lemma IssuedIsAccepted(steps: seq<Step>, step: Step, more: seq<Step>, p: Payload, later: Time)
    requires var s := Run(Init, steps);
      |Next(s, step).commits| == |s.commits| + 1
    requires var s, s' := Run(Init, steps), Next(Run(Init, steps), step);
      forall i :: |s'.commits| <= i < |Run(s', more).commits| ==> Run(s', more).commits[i].agentId != s'.commits[|s.commits|].agentId
    ensures var s, s' := Run(Init, steps), Next(Run(Init, steps), step);
      var c := s'.commits[|s.commits|];
      RegisterTx(Run(s', more).tables, c.agentId, p, c.cert, later).outcome == Ok(())
  {
    hide Next, Inv, Run;
    var s := Run(Init, steps);
    RunReaches(steps);
    ReachableInv(s);
    CommitIsAccepted(s, step, p, later);
    NextKeeps(s, step);
    var c := Next(s, step).commits[|s.commits|];
    AcceptedUntilReplaced(Next(s, step), more, c.agentId, c.cert, p, later);
  }
}
