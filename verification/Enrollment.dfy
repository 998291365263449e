// Any number of enrollment connections racing over the shared tables, together
// with collector registrations, as a state machine: one step is one atomic
// store operation (or one decision between two of them) of one session. Every
// step sequence is a run, so every interleaving, every store failure, every lost
// connection and every killed server process is covered.

module Enrollment {
  import opened Prelude
  import opened Store

  // Where a connection stands in handleConn and Service.Enroll.
  datatype Phase =
    | Opened                                          // hello decoded
    | Admitted(expected: string)                      // GetPendingEnrollment returned the row
    | Validated(expected: string, agentId: string)    // Enroll's checks passed, nothing claimed
    | Claimed(expected: string, agentId: string)      // claimed == true, no certificate yet
    | Certified(expected: string, agentId: string, cert: IssuedCert)  // claimed == true
    | Unwinding(expected: string, agentId: string)    // the deferred release is due
    | Responded(agentId: string, cert: IssuedCert)    // Enroll returned a response
    | Closed

  datatype Session = Session(id: string, phase: Phase)

  datatype Commit = Commit(sid: nat, id: string, agentId: string, cert: IssuedCert)

  // `bindings` and `commits` are history: what each enrollment was created for,
  // and every FinalizeEnrollmentIssue transaction that took effect.
  datatype State = State(
    tables: Tables,
    sessions: map<nat, Session>,
    bindings: map<string, string>,
    commits: seq<Commit>)

  const Init := State(Tables(map[], [], map[]), map[], map[], [])

  datatype Step =
    | Create(id: string, binding: string, expiresAt: Time, fault: Fault)
    | Open(sid: nat, id: string)
    | GetPending(sid: nat, now: Time, fault: Fault)
    | Validate(sid: nat, agentId: string)
    | Claim(sid: nat, now: Time, fault: Fault)
    | Issue(sid: nat, issued: Option<IssuedCert>)
    | Finalize(sid: nat, payload: Payload, now: Time, fault: Fault)
    | Release(sid: nat, fault: Fault)
    | Acknowledge(sid: nat, fault: Fault)
    | Hangup(sid: nat)                                // connection lost, or its frame refused
    | Kill(sid: nat)                                  // server process killed, one step for each of its sessions
    | Register(agentId: string, payload: Payload, cert: IssuedCert, now: Time, fault: Fault)

  function To(s: State, sid: nat, phase: Phase): State
    requires sid in s.sessions
  {
    s.(sessions := s.sessions[sid := s.sessions[sid].(phase := phase)])
  }

  predicate At(s: State, sid: nat) { sid in s.sessions }

  // handleConn reads or writes the connection before Enroll and after it, but not
  // while Enroll runs, on a context of its own; a loss in between is noticed later.
  predicate UsesConnection(ph: Phase) {
    ph.Admitted? || ph.Responded?
  }

  // A step that is not enabled changes nothing.
  function Next(s: State, step: Step): State {
    match step
    case Create(id, binding, expiresAt, fault) => NextCreate(s, id, binding, expiresAt, fault)
    case Open(sid, id) =>
      if At(s, sid) then s else s.(sessions := s.sessions[sid := Session(id, Opened)])
    case GetPending(sid, now, fault) => NextGetPending(s, sid, now, fault)
    case Validate(sid, agentId) =>
      if At(s, sid) && s.sessions[sid].phase.Admitted? then
        var expected := s.sessions[sid].phase.expected;
        if agentId == "" || (expected != "" && expected != agentId)
        then To(s, sid, Closed)
        else To(s, sid, Validated(expected, agentId))
      else s
    case Claim(sid, now, fault) => NextClaim(s, sid, now, fault)
    case Issue(sid, issued) =>
      if At(s, sid) && s.sessions[sid].phase.Claimed? then
        var ph := s.sessions[sid].phase;
        if issued.Some? then To(s, sid, Certified(ph.expected, ph.agentId, issued.value))
        else To(s, sid, Unwinding(ph.expected, ph.agentId))
      else s
    case Finalize(sid, payload, now, fault) => NextFinalize(s, sid, payload, now, fault)
    case Release(sid, fault) => NextRelease(s, sid, fault)
    case Acknowledge(sid, fault) => NextAcknowledge(s, sid, fault)
    case Hangup(sid) => if At(s, sid) && UsesConnection(s.sessions[sid].phase) then To(s, sid, Closed) else s
    case Kill(sid) => if At(s, sid) then To(s, sid, Closed) else s
    case Register(agentId, payload, cert, now, fault) =>
      s.(tables := Observed(s.tables, RegisterTx(s.tables, agentId, payload, cert, now), fault).tables)
  }

  function NextCreate(s: State, id: string, binding: string, expiresAt: Time, fault: Fault): State {
    var r := CreateTx(s.tables, id, binding, expiresAt);
    var o := Observed(s.tables, r, fault);
    if r.outcome.Ok? && fault != FailBefore
    then s.(tables := o.tables, bindings := s.bindings[id := binding])
    else s.(tables := o.tables)
  }

  function NextGetPending(s: State, sid: nat, now: Time, fault: Fault): State {
    if At(s, sid) && s.sessions[sid].phase.Opened? then
      var o := Observed(s.tables, GetPendingTx(s.tables, s.sessions[sid].id, now), fault);
      To(s.(tables := o.tables), sid, if o.outcome.Ok? then Admitted(o.outcome.value) else Closed)
    else s
  }

  function NextClaim(s: State, sid: nat, now: Time, fault: Fault): State {
    if At(s, sid) && s.sessions[sid].phase.Validated? then
      var ph := s.sessions[sid].phase;
      var o := Observed(s.tables, ClaimTx(s.tables, s.sessions[sid].id, ph.agentId, now), fault);
      To(s.(tables := o.tables), sid, if o.outcome.Ok? then Claimed(ph.expected, ph.agentId) else Closed)
    else s
  }

  function NextFinalize(s: State, sid: nat, payload: Payload, now: Time, fault: Fault): State {
    if At(s, sid) && s.sessions[sid].phase.Certified? then
      var id := s.sessions[sid].id;
      var ph := s.sessions[sid].phase;
      var r := FinalizeTx(s.tables, id, ph.agentId, payload, ph.cert, now);
      var o := Observed(s.tables, r, fault);
      var s' := To(s.(tables := o.tables), sid,
                   if o.outcome.Ok? then Responded(ph.agentId, ph.cert) else Unwinding(ph.expected, ph.agentId));
      if r.outcome.Ok? && fault != FailBefore
      then s'.(commits := s.commits + [Commit(sid, id, ph.agentId, ph.cert)])
      else s'
    else s
  }

  function NextRelease(s: State, sid: nat, fault: Fault): State {
    if At(s, sid) && s.sessions[sid].phase.Unwinding? then
      var ph := s.sessions[sid].phase;
      var r := ReleaseTx(s.tables, s.sessions[sid].id, ph.agentId, ph.expected != "");
      To(s.(tables := Observed(s.tables, r, fault).tables), sid, Closed)
    else s
  }

  function NextAcknowledge(s: State, sid: nat, fault: Fault): State {
    if At(s, sid) && s.sessions[sid].phase.Responded? then
      var r := MarkUsedTx(s.tables, s.sessions[sid].id, s.sessions[sid].phase.agentId);
      To(s.(tables := Observed(s.tables, r, fault).tables), sid, Closed)
    else s
  }

  function Run(s: State, steps: seq<Step>): State
    decreases |steps|
  {
    if steps == [] then s else Run(Next(s, steps[0]), steps[1..])
  }

  // ----- the inductive invariant ---------------------------------------------

  predicate HoldsClaim(sessions: map<nat, Session>, sid: nat) {
    sid in sessions
    && (sessions[sid].phase.Claimed? || sessions[sid].phase.Certified? || sessions[sid].phase.Unwinding?)
  }

  ghost predicate Committed(commits: seq<Commit>, id: string) {
    exists i :: 0 <= i < |commits| && commits[i].id == id
  }

  ghost predicate CommittedBy(commits: seq<Commit>, id: string, sid: nat) {
    exists i :: 0 <= i < |commits| && commits[i].id == id && commits[i].sid == sid
  }

  function Bound(binding: string): Option<string> {
    if binding == "" then None else Some(binding)
  }

  // A pending row carries the binding it was created with, an issuing one never
  // contradicts it; a row is issued or used exactly when it has a commit.
  ghost predicate RowOk(row: Enrollment, binding: string, committed: bool) {
    && (row.status == Pending ==> row.agentId == Bound(binding))
    && (row.status == Issuing ==> row.agentId.Some? && (binding != "" ==> row.agentId == Some(binding)))
    && row.status in {Pending, Issuing, Issued, Used}
    && (row.status in {Issued, Used} <==> committed)
  }

  ghost predicate RowsOk(rows: map<string, Enrollment>, bindings: map<string, string>, commits: seq<Commit>) {
    && rows.Keys == bindings.Keys
    && forall id <- rows :: RowOk(rows[id], bindings[id], Committed(commits, id))
  }

  ghost predicate SessionOk(ses: Session, sid: nat, rows: map<string, Enrollment>,
                            bindings: map<string, string>, commits: seq<Commit>)
  {
    var ph := ses.phase;
    var holding := ph.Claimed? || ph.Certified? || ph.Unwinding?;
    && (ph.Admitted? || ph.Validated? || holding ==> ses.id in rows && ses.id in bindings && ph.expected == bindings[ses.id])
    && (ph.Validated? || holding ==> ph.agentId != "" && (ph.expected != "" ==> ph.agentId == ph.expected))
    && (ph.Claimed? || ph.Certified? ==> ClaimedBy(rows, ses.id, ph.agentId))
    && (ph.Unwinding? ==> ClaimedBy(rows, ses.id, ph.agentId) || CommittedBy(commits, ses.id, sid))
    && (ph.Responded? ==> Commit(sid, ses.id, ph.agentId, ph.cert) in commits)
  }

  ghost predicate SessionsOk(sessions: map<nat, Session>, rows: map<string, Enrollment>,
                             bindings: map<string, string>, commits: seq<Commit>)
  {
    forall sid <- sessions :: SessionOk(sessions[sid], sid, rows, bindings, commits)
  }

  ghost predicate CommitOk(c: Commit, rows: map<string, Enrollment>, bindings: map<string, string>,
                           sessions: map<nat, Session>)
  {
    && c.id in rows && c.id in bindings
    && rows[c.id].agentId == Some(c.agentId)
    && (bindings[c.id] != "" ==> c.agentId == bindings[c.id])
    && c.sid in sessions && sessions[c.sid].id == c.id
    && (sessions[c.sid].phase.Unwinding? || sessions[c.sid].phase.Responded? || sessions[c.sid].phase.Closed?)
  }

  ghost predicate CommitsOk(commits: seq<Commit>, rows: map<string, Enrollment>, bindings: map<string, string>,
                            sessions: map<nat, Session>)
  {
    forall c <- commits :: CommitOk(c, rows, bindings, sessions)
  }

  ghost predicate OneHolder(sessions: map<nat, Session>) {
    forall a, b :: HoldsClaim(sessions, a) && HoldsClaim(sessions, b) && sessions[a].id == sessions[b].id ==> a == b
  }

  ghost predicate OneCommit(commits: seq<Commit>) {
    forall i, j :: 0 <= i < j < |commits| ==> commits[i].id != commits[j].id
  }

  ghost predicate Inv(s: State) {
    && RowsOk(s.tables.enrollments, s.bindings, s.commits)
    && SessionsOk(s.sessions, s.tables.enrollments, s.bindings, s.commits)
    && CommitsOk(s.commits, s.tables.enrollments, s.bindings, s.sessions)
    && OneHolder(s.sessions)
    && OneCommit(s.commits)
    && CertsOk(s.tables.certs)
  }

  ghost predicate OtherHolder(sessions: map<nat, Session>, sid: nat, id: string) {
    exists a :: a != sid && HoldsClaim(sessions, a) && sessions[a].id == id
  }

  // s' differs from s in session `sid` and, at most, in that session's row.
  ghost predicate OnlySession(s: State, s': State, sid: nat) {
    && At(s, sid) && At(s', sid)
    && s'.bindings == s.bindings
    && s'.sessions == s.sessions[sid := s'.sessions[sid]]
    && s'.sessions[sid].id == s.sessions[sid].id
    && var id := s.sessions[sid].id;
       if id in s.tables.enrollments
       then id in s'.tables.enrollments
            && s'.tables.enrollments == s.tables.enrollments[id := s'.tables.enrollments[id]]
       else s'.tables.enrollments == s.tables.enrollments
  }

  // It is enough to look at the session and the row that a step touches.
  lemma LocalStep(s: State, s': State, sid: nat)
    requires Inv(s) && OnlySession(s, s', sid) && s'.commits == s.commits && CertsOk(s'.tables.certs)
    requires SessionOk(s'.sessions[sid], sid, s'.tables.enrollments, s'.bindings, s'.commits)
    requires var id := s.sessions[sid].id;
      id in s.tables.enrollments ==>
        && RowOk(s'.tables.enrollments[id], s'.bindings[id], Committed(s'.commits, id))
        && (Committed(s.commits, id) ==> s'.tables.enrollments[id].agentId == s.tables.enrollments[id].agentId)
        && (OtherHolder(s.sessions, sid, id) ==>
              && s'.tables.enrollments[id].agentId == s.tables.enrollments[id].agentId
              && s'.tables.enrollments[id].status == s.tables.enrollments[id].status)
    requires HoldsClaim(s'.sessions, sid) ==> HoldsClaim(s.sessions, sid) || !OtherHolder(s.sessions, sid, s.sessions[sid].id)
    requires s.sessions[sid].phase.Unwinding? || s.sessions[sid].phase.Responded? ==> s'.sessions[sid].phase.Closed?
    requires s.sessions[sid].phase.Closed? ==> s'.sessions[sid].phase.Closed?
    ensures Inv(s')
  {
    var id := s.sessions[sid].id;
    forall x <- s'.tables.enrollments ensures RowOk(s'.tables.enrollments[x], s'.bindings[x], Committed(s'.commits, x)) {
      assert x in s.tables.enrollments && RowOk(s.tables.enrollments[x], s.bindings[x], Committed(s.commits, x));
    }
    forall a <- s'.sessions ensures SessionOk(s'.sessions[a], a, s'.tables.enrollments, s'.bindings, s'.commits) {
      if a != sid {
        assert SessionOk(s.sessions[a], a, s.tables.enrollments, s.bindings, s.commits) && s'.sessions[a] == s.sessions[a];
        assert HoldsClaim(s.sessions, a) && s.sessions[a].id == id ==> OtherHolder(s.sessions, sid, id);
      }
    }
    forall c <- s'.commits ensures CommitOk(c, s'.tables.enrollments, s'.bindings, s'.sessions) {
      assert CommitOk(c, s.tables.enrollments, s.bindings, s.sessions);
    }
    forall a, b | HoldsClaim(s'.sessions, a) && HoldsClaim(s'.sessions, b) && s'.sessions[a].id == s'.sessions[b].id ensures a == b {
      if a != b {
        assert a != sid ==> HoldsClaim(s.sessions, a);
        assert b != sid ==> HoldsClaim(s.sessions, b);
      }
    }
  }

  lemma GetPendingKeeps(s: State, sid: nat, now: Time, fault: Fault)
    requires Inv(s) && At(s, sid)
    ensures Inv(NextGetPending(s, sid, now, fault))
  {
    if s.sessions[sid].phase.Opened? {
      LocalStep(s, NextGetPending(s, sid, now, fault), sid);
    }
  }

  lemma QuietKeeps(s: State, step: Step)
    requires Inv(s) && (step.Validate? || step.Issue? || step.Hangup? || step.Kill?)
    ensures Inv(Next(s, step))
  {
    if At(s, step.sid) && Next(s, step) != s {
      LocalStep(s, Next(s, step), step.sid);
    }
  }

  lemma ClaimKeeps(s: State, sid: nat, now: Time, fault: Fault)
    requires Inv(s) && At(s, sid)
    ensures Inv(NextClaim(s, sid, now, fault))
  {
    if s.sessions[sid].phase.Validated? {
      var id := s.sessions[sid].id;
      assert RowOk(s.tables.enrollments[id], s.bindings[id], Committed(s.commits, id));
      LocalStep(s, NextClaim(s, sid, now, fault), sid);
    }
  }

  lemma ReleaseKeeps(s: State, sid: nat, fault: Fault)
    requires Inv(s) && At(s, sid)
    ensures Inv(NextRelease(s, sid, fault))
  {
    if s.sessions[sid].phase.Unwinding? {
      var id := s.sessions[sid].id;
      assert RowOk(s.tables.enrollments[id], s.bindings[id], Committed(s.commits, id));
      assert HoldsClaim(s.sessions, sid) && !OtherHolder(s.sessions, sid, id);
      LocalStep(s, NextRelease(s, sid, fault), sid);
    }
  }

  lemma AcknowledgeKeeps(s: State, sid: nat, fault: Fault)
    requires Inv(s) && At(s, sid)
    ensures Inv(NextAcknowledge(s, sid, fault))
  {
    if s.sessions[sid].phase.Responded? {
      var id := s.sessions[sid].id;
      var i :| 0 <= i < |s.commits| && s.commits[i] == Commit(sid, id, s.sessions[sid].phase.agentId, s.sessions[sid].phase.cert);
      assert CommitOk(s.commits[i], s.tables.enrollments, s.bindings, s.sessions) && Committed(s.commits, id)
          && RowOk(s.tables.enrollments[id], s.bindings[id], Committed(s.commits, id));
      LocalStep(s, NextAcknowledge(s, sid, fault), sid);
    }
  }

  lemma FinalizeKeeps(s: State, sid: nat, payload: Payload, now: Time, fault: Fault)
    requires Inv(s) && At(s, sid)
    ensures Inv(NextFinalize(s, sid, payload, now, fault))
  {
    if s.sessions[sid].phase.Certified? {
      var id := s.sessions[sid].id;
      var ph := s.sessions[sid].phase;
      var s' := NextFinalize(s, sid, payload, now, fault);
      assert SessionOk(s.sessions[sid], sid, s.tables.enrollments, s.bindings, s.commits)
          && RowOk(s.tables.enrollments[id], s.bindings[id], Committed(s.commits, id));
      if FinalizeTx(s.tables, id, ph.agentId, payload, ph.cert, now).outcome.Ok? && fault != FailBefore {
        RotateKeeps(s.tables.certs, ph.agentId, ph.cert, now);
        FinalizeCommitKeeps(s, s', sid);
      } else {
        assert s'.tables == s.tables && s'.sessions == s.sessions[sid := Session(id, Unwinding(ph.expected, ph.agentId))];
        LocalStep(s, s', sid);
      }
    }
  }

  // s' is s after session `sid` committed its rotation.
  ghost predicate CommitOf(s: State, s': State, sid: nat) {
    && OnlySession(s, s', sid) && s.sessions[sid].phase.Certified?
    && var ses := s.sessions[sid];
       && s'.commits == s.commits + [Commit(sid, ses.id, ses.phase.agentId, ses.phase.cert)]
       && ses.id in s.tables.enrollments
       && s'.tables.enrollments[ses.id] == s.tables.enrollments[ses.id].(status := Issued)
       && (s'.sessions[sid].phase == Unwinding(ses.phase.expected, ses.phase.agentId)
           || s'.sessions[sid].phase == Responded(ses.phase.agentId, ses.phase.cert))
  }

  lemma CommitsGrow(commits: seq<Commit>, c: Commit)
    ensures Committed(commits + [c], c.id) && CommittedBy(commits + [c], c.id, c.sid)
    ensures forall id :: id != c.id ==> (Committed(commits + [c], id) <==> Committed(commits, id))
    ensures forall id, a :: CommittedBy(commits, id, a) ==> CommittedBy(commits + [c], id, a)
  {
    assert forall i :: 0 <= i < |commits| ==> (commits + [c])[i] == commits[i];
    assert (commits + [c])[|commits|] == c;
  }

  lemma CommitKeepsRows(s: State, s': State, sid: nat)
    requires Inv(s) && CommitOf(s, s', sid)
    ensures !Committed(s.commits, s.sessions[sid].id) && RowsOk(s'.tables.enrollments, s'.bindings, s'.commits)
  {
    hide CertsOk, OneHolder, OneCommit, CommitsOk, Committed, CommittedBy;
    var id := s.sessions[sid].id;
    CommitsGrow(s.commits, s'.commits[|s.commits|]);
    assert SessionOk(s.sessions[sid], sid, s.tables.enrollments, s.bindings, s.commits);
    assert RowOk(s.tables.enrollments[id], s.bindings[id], Committed(s.commits, id));
    forall x <- s'.tables.enrollments ensures RowOk(s'.tables.enrollments[x], s'.bindings[x], Committed(s'.commits, x)) {
      assert RowOk(s.tables.enrollments[x], s.bindings[x], Committed(s.commits, x));
    }
  }

  lemma CommitKeepsSessions(s: State, s': State, sid: nat)
    requires Inv(s) && CommitOf(s, s', sid)
    ensures SessionsOk(s'.sessions, s'.tables.enrollments, s'.bindings, s'.commits) && OneHolder(s'.sessions)
  {
    hide CertsOk, OneCommit, CommitsOk, RowsOk, Committed, CommittedBy;
    var c := s'.commits[|s.commits|];
    CommitsGrow(s.commits, c);
    assert c in s'.commits;
    assert SessionOk(s.sessions[sid], sid, s.tables.enrollments, s.bindings, s.commits);
    forall a <- s'.sessions ensures SessionOk(s'.sessions[a], a, s'.tables.enrollments, s'.bindings, s'.commits) {
      if a != sid {
        assert SessionOk(s.sessions[a], a, s.tables.enrollments, s.bindings, s.commits) && s'.sessions[a] == s.sessions[a];
        assert HoldsClaim(s.sessions, a) ==> s.sessions[a].id != s.sessions[sid].id;
      }
    }
    assert forall a :: HoldsClaim(s'.sessions, a) ==> HoldsClaim(s.sessions, a);
  }

  lemma FinalizeCommitKeeps(s: State, s': State, sid: nat)
    requires Inv(s) && CommitOf(s, s', sid) && CertsOk(s'.tables.certs)
    ensures Inv(s')
  {
    CommitKeepsRows(s, s', sid);
    CommitKeepsSessions(s, s', sid);
    hide CertsOk, RowsOk, SessionsOk, OneHolder;
    var id := s.sessions[sid].id;
    var c := s'.commits[|s.commits|];
    assert SessionOk(s.sessions[sid], sid, s.tables.enrollments, s.bindings, s.commits) by {
      CommitterOk(s, sid);
    }
    forall d <- s'.commits ensures CommitOk(d, s'.tables.enrollments, s'.bindings, s'.sessions) {
      if d != c { assert d in s.commits && CommitOk(d, s.tables.enrollments, s.bindings, s.sessions); }
    }
  }

  lemma CommitterOk(s: State, sid: nat)
    requires Inv(s) && At(s, sid)
    ensures SessionOk(s.sessions[sid], sid, s.tables.enrollments, s.bindings, s.commits)
  {
  }

  lemma CreateKeeps(s: State, id: string, binding: string, expiresAt: Time, fault: Fault)
    requires Inv(s)
    ensures Inv(NextCreate(s, id, binding, expiresAt, fault))
  {
    if id !in s.tables.enrollments && fault != FailBefore {
      NewRowKeeps(s.tables.enrollments, s.bindings, s.commits, s.sessions, id,
                  Enrollment(Bound(binding), Pending, expiresAt, 0), binding);
    }
  }

  lemma NewRowKeeps(rows: map<string, Enrollment>, bindings: map<string, string>, commits: seq<Commit>,
                    sessions: map<nat, Session>, id: string, row: Enrollment, binding: string)
    requires RowsOk(rows, bindings, commits) && SessionsOk(sessions, rows, bindings, commits)
    requires CommitsOk(commits, rows, bindings, sessions)
    requires id !in rows && row.status == Pending && row.agentId == Bound(binding)
    ensures RowsOk(rows[id := row], bindings[id := binding], commits)
    ensures SessionsOk(sessions, rows[id := row], bindings[id := binding], commits)
    ensures CommitsOk(commits, rows[id := row], bindings[id := binding], sessions)
  {
    forall c <- commits ensures CommitOk(c, rows[id := row], bindings[id := binding], sessions) && c.id != id {
      assert CommitOk(c, rows, bindings, sessions);
    }
    assert !Committed(commits, id);
    forall sid <- sessions ensures SessionOk(sessions[sid], sid, rows[id := row], bindings[id := binding], commits) {
      assert SessionOk(sessions[sid], sid, rows, bindings, commits);
    }
  }

  lemma RegisterOpenKeeps(s: State, step: Step)
    requires Inv(s) && (step.Register? || step.Open?)
    ensures Inv(Next(s, step))
  {
    hide CertsOk, EnsureMatching;
    var s' := Next(s, step);
    if step.Register? {
      EnsureMatchingKeeps(s.tables.certs, step.agentId, step.cert, step.now);
    }
    assert s'.commits == s.commits && s'.tables.enrollments == s.tables.enrollments;
    forall id <- s'.tables.enrollments ensures RowOk(s'.tables.enrollments[id], s'.bindings[id], Committed(s'.commits, id)) {
      assert RowOk(s.tables.enrollments[id], s.bindings[id], Committed(s.commits, id))
          && (Committed(s'.commits, id) <==> Committed(s.commits, id));
    }
    forall a <- s'.sessions ensures SessionOk(s'.sessions[a], a, s'.tables.enrollments, s'.bindings, s'.commits) {
      assert a in s.sessions ==>
        SessionOk(s.sessions[a], a, s.tables.enrollments, s.bindings, s.commits) && s'.sessions[a] == s.sessions[a];
    }
    assert forall a :: HoldsClaim(s'.sessions, a) ==> HoldsClaim(s.sessions, a);
  }

  lemma NextKeeps(s: State, step: Step)
    requires Inv(s)
    ensures Inv(Next(s, step))
  {
    match step
    case Create(id, binding, expiresAt, fault) => CreateKeeps(s, id, binding, expiresAt, fault);
    case Open(_, _) => RegisterOpenKeeps(s, step);
    case Register(_, _, _, _, _) => RegisterOpenKeeps(s, step);
    case GetPending(sid, now, fault) => if At(s, sid) { GetPendingKeeps(s, sid, now, fault); }
    case Claim(sid, now, fault) => if At(s, sid) { ClaimKeeps(s, sid, now, fault); }
    case Finalize(sid, p, now, fault) => if At(s, sid) { FinalizeKeeps(s, sid, p, now, fault); }
    case Release(sid, fault) => if At(s, sid) { ReleaseKeeps(s, sid, fault); }
    case Acknowledge(sid, fault) => if At(s, sid) { AcknowledgeKeeps(s, sid, fault); }
    case Validate(_, _) => QuietKeeps(s, step);
    case Issue(_, _) => QuietKeeps(s, step);
    case Hangup(_) => QuietKeeps(s, step);
    case Kill(_) => QuietKeeps(s, step);
  }

  lemma {:induction false} RunKeeps(s: State, steps: seq<Step>)
    requires Inv(s)
    ensures Inv(Run(s, steps))
    decreases |steps|
  {
    if steps != [] {
      NextKeeps(s, steps[0]);
      RunKeeps(Next(s, steps[0]), steps[1..]);
    }
  }

  // ----- what every run guarantees ---------------------------------------------

  ghost predicate Reachable(s: State) {
    exists steps :: s == Run(Init, steps)
  }

  lemma ReachableInv(s: State)
    requires Reachable(s)
    ensures Inv(s)
  {
    var steps :| s == Run(Init, steps);
    RunKeeps(Init, steps);
  }

  // An enrollment id commits at most one certificate rotation, whatever the
  // interleaving; a pre-bound one only for the agent it was created for.
  lemma OneRotationPerEnrollment(s: State, i: nat, j: nat)
    requires Reachable(s) && i < |s.commits| && j < |s.commits|
    ensures s.commits[i].id == s.commits[j].id ==> i == j
    ensures s.commits[i].id in s.bindings
    ensures s.bindings[s.commits[i].id] != "" ==> s.commits[i].agentId == s.bindings[s.commits[i].id]
  {
    ReachableInv(s);
    assert CommitOk(s.commits[i], s.tables.enrollments, s.bindings, s.sessions);
  }

  // A pending row carries the binding it was created with, although claims
  // overwrite agent_id; so what a connection was told to expect is that binding.
  lemma BindingSurvives(s: State, id: string, sid: nat)
    requires Reachable(s) && id in s.tables.enrollments && At(s, sid)
    ensures id in s.bindings
    ensures s.tables.enrollments[id].status == Pending ==> s.tables.enrollments[id].agentId == Bound(s.bindings[id])
    ensures s.sessions[sid].id == id && (s.sessions[sid].phase.Admitted? || HoldsClaim(s.sessions, sid)) ==>
              s.sessions[sid].phase.expected == s.bindings[id]
  {
    ReachableInv(s);
    assert SessionOk(s.sessions[sid], sid, s.tables.enrollments, s.bindings, s.commits);
  }

  ghost predicate Commits(s: State, s': State, id: string) {
    |s'.commits| == |s.commits| + 1 && s'.commits[|s.commits|].id == id
  }

  function Rank(st: Status): nat {
    match st
    case Issued => 1
    case Used => 2
    case _ => 0
  }

  ghost predicate RowAdvances(s: State, s': State, id: string)
    requires id in s.tables.enrollments && id in s'.tables.enrollments
  {
    var row, row' := s.tables.enrollments[id], s'.tables.enrollments[id];
    && (Commits(s, s', id) <==> row.status == Issuing && row'.status == Issued)
    && s.commits <= s'.commits
    && Rank(row.status) <= Rank(row'.status)
    && (Rank(row.status) > 0 ==> row'.agentId == row.agentId)
  }

  // One step commits a rotation for `id` exactly when it takes the row from
  // issuing to issued, and issued and used rows never go back or change hands.
  lemma CommitIffIssued(s: State, step: Step, id: string)
    requires id in s.tables.enrollments
    ensures id in Next(s, step).tables.enrollments && RowAdvances(s, Next(s, step), id)
  {
    hide RotateActive, EnsureMatching, CertsOk;
    match step
    case Create(_, _, _, _) =>
    case Register(_, _, _, _, _) =>
    case Open(_, _) =>
    case Validate(_, _) =>
    case Issue(_, _) =>
    case Hangup(_) =>
    case Kill(_) =>
    case GetPending(sid, now, fault) =>
    case Claim(sid, now, fault) =>
    case Finalize(sid, p, now, fault) =>
    case Release(sid, fault) =>
    case Acknowledge(sid, fault) =>
  }

  // A response leaves Enroll only after its own commit.
  lemma ResponseAfterCommit(s: State, sid: nat)
    requires Reachable(s) && At(s, sid) && s.sessions[sid].phase.Responded?
    ensures var ses := s.sessions[sid];
      Commit(sid, ses.id, ses.phase.agentId, ses.phase.cert) in s.commits
  {
    ReachableInv(s);
    assert SessionOk(s.sessions[sid], sid, s.tables.enrollments, s.bindings, s.commits);
  }

  // At most one session holds an enrollment's claim.
  lemma ClaimIsExclusive(s: State, a: nat, b: nat)
    requires Reachable(s) && HoldsClaim(s.sessions, a) && HoldsClaim(s.sessions, b) && s.sessions[a].id == s.sessions[b].id
    ensures a == b
  {
    ReachableInv(s);
  }

  function Actor(step: Step): Option<nat> {
    match step
    case Create(_, _, _, _) => None
    case Register(_, _, _, _, _) => None
    case Open(sid, _) => Some(sid)
    case GetPending(sid, _, _) => Some(sid)
    case Validate(sid, _) => Some(sid)
    case Claim(sid, _, _) => Some(sid)
    case Issue(sid, _) => Some(sid)
    case Finalize(sid, _, _, _) => Some(sid)
    case Release(sid, _) => Some(sid)
    case Acknowledge(sid, _) => Some(sid)
    case Hangup(sid) => Some(sid)
    case Kill(sid) => Some(sid)
  }

  // A row that is not pending is out of reach of a session that neither holds
  // its claim nor has been answered.
  ghost predicate OutOfReach(s: State, id: string, actor: Option<nat>) {
    && id in s.tables.enrollments && s.tables.enrollments[id].status != Pending
    && (actor.Some? && At(s, actor.value) && s.sessions[actor.value].id == id ==>
          !HoldsClaim(s.sessions, actor.value) && !s.sessions[actor.value].phase.Responded?)
  }

  lemma OutOfReachUnchanged(s: State, step: Step, id: string)
    requires OutOfReach(s, id, Actor(step))
    ensures var s' := Next(s, step);
      id in s'.tables.enrollments && s'.tables.enrollments[id] == s.tables.enrollments[id]
  {
    match step
    case Create(_, _, _, _) =>
    case Register(_, _, _, _, _) =>
    case Open(_, _) =>
    case Validate(_, _) =>
    case Issue(_, _) =>
    case Hangup(_) =>
    case Kill(_) =>
    case GetPending(sid, now, fault) =>
    case Claim(sid, now, fault) =>
    case Finalize(sid, p, now, fault) =>
    case Release(sid, fault) =>
    case Acknowledge(sid, fault) =>
  }

  lemma OnlyActorMoves(s: State, step: Step, a: nat)
    requires Actor(step) != Some(a)
    ensures a in Next(s, step).sessions <==> a in s.sessions
    ensures a in s.sessions ==> Next(s, step).sessions[a] == s.sessions[a]
  {
    match step
    case Create(_, _, _, _) =>
    case Register(_, _, _, _, _) =>
    case Open(_, _) =>
    case Validate(_, _) =>
    case Issue(_, _) =>
    case Hangup(_) =>
    case Kill(_) =>
    case GetPending(sid, now, fault) =>
    case Claim(sid, now, fault) =>
    case Finalize(sid, p, now, fault) =>
    case Release(sid, fault) =>
    case Acknowledge(sid, fault) =>
  }

  lemma NoNewHolder(s: State, step: Step, id: string)
    requires OutOfReach(s, id, Actor(step))
    ensures forall a :: HoldsClaim(Next(s, step).sessions, a) && Next(s, step).sessions[a].id == id ==>
              HoldsClaim(s.sessions, a) && s.sessions[a].id == id
  {
    forall a | HoldsClaim(Next(s, step).sessions, a) && Next(s, step).sessions[a].id == id
      ensures HoldsClaim(s.sessions, a) && s.sessions[a].id == id
    {
      if Actor(step) != Some(a) {
        OnlyActorMoves(s, step, a);
      }
    }
  }

  lemma HeldIsOutOfReach(s: State, holder: nat, other: Option<nat>)
    requires Inv(s) && HoldsClaim(s.sessions, holder) && other != Some(holder)
    ensures OutOfReach(s, s.sessions[holder].id, other)
  {
    var id := s.sessions[holder].id;
    assert SessionOk(s.sessions[holder], holder, s.tables.enrollments, s.bindings, s.commits);
    assert CommittedBy(s.commits, id, holder) ==> Committed(s.commits, id);
    assert RowOk(s.tables.enrollments[id], s.bindings[id], Committed(s.commits, id));
    if other.Some? && At(s, other.value) && s.sessions[other.value].id == id {
      assert SessionOk(s.sessions[other.value], other.value, s.tables.enrollments, s.bindings, s.commits);
    }
  }

  // While a session holds a claim no step of anyone else (in particular no
  // other session's release) touches its row or its place in the protocol.
  lemma OthersLeaveClaimAlone(s: State, step: Step, holder: nat)
    requires Reachable(s) && HoldsClaim(s.sessions, holder) && Actor(step) != Some(holder)
    ensures var s' := Next(s, step);
      && holder in s'.sessions && s'.sessions[holder] == s.sessions[holder]
      && s.sessions[holder].id in s.tables.enrollments
      && s.sessions[holder].id in s'.tables.enrollments
      && s'.tables.enrollments[s.sessions[holder].id] == s.tables.enrollments[s.sessions[holder].id]
  {
    ReachableInv(s);
    HeldIsOutOfReach(s, holder, Actor(step));
    OutOfReachUnchanged(s, step, s.sessions[holder].id);
    OnlyActorMoves(s, step, holder);
  }

  // ----- certificates over whole runs --------------------------------------------

  lemma NextExtendsCerts(s: State, step: Step)
    requires Inv(s)
    ensures Extends(s.tables.certs, Next(s, step).tables.certs)
  {
    hide CertsOk, RowsOk, SessionsOk, CommitsOk, OneHolder, OneCommit, RotateActive, EnsureMatching;
    if step.Register? {
      EnsureMatchingKeeps(s.tables.certs, step.agentId, step.cert, step.now);
    } else if step.Finalize? && At(s, step.sid) && s.sessions[step.sid].phase.Certified? {
      var ph := s.sessions[step.sid].phase;
      RotateKeeps(s.tables.certs, ph.agentId, ph.cert, step.now);
    }
  }

  lemma {:induction false} RunExtendsCerts(s: State, steps: seq<Step>)
    requires Inv(s)
    ensures Extends(s.tables.certs, Run(s, steps).tables.certs)
    decreases |steps|
  {
    if steps != [] {
      NextKeeps(s, steps[0]);
      NextExtendsCerts(s, steps[0]);
      RunExtendsCerts(Next(s, steps[0]), steps[1..]);
      ExtendsTransitive(s.tables.certs, Next(s, steps[0]).tables.certs, Run(s, steps).tables.certs);
    }
  }

  // Each agent has at most one active certificate, and no fingerprint is stored twice.
  lemma OneActiveCertificate(s: State, i: nat, j: nat)
    requires Reachable(s) && i < |s.tables.certs| && j < |s.tables.certs|
    ensures s.tables.certs[i].fingerprint == s.tables.certs[j].fingerprint ==> i == j
    ensures (s.tables.certs[i].active && s.tables.certs[j].active
             && s.tables.certs[i].agentId == s.tables.certs[j].agentId) ==> i == j
  {
    ReachableInv(s);
  }

  // A fingerprint once revoked is refused by every later registration.
  lemma RevokedNeverRegisters(s: State, i: nat, steps: seq<Step>,
                              agentId: string, p: Payload, subjectHash: string, now: Time)
    requires Reachable(s) && i < |s.tables.certs| && !s.tables.certs[i].active
    ensures RegisterTx(Run(s, steps).tables, agentId, p, IssuedCert(subjectHash, s.tables.certs[i].fingerprint), now)
            == Reply(Run(s, steps).tables, Err(CertificateRevoked))
  {
    ReachableInv(s);
    RunKeeps(s, steps);
    RunExtendsCerts(s, steps);
    RevokedNeverMatches(Run(s, steps).tables.certs, agentId, IssuedCert(subjectHash, s.tables.certs[i].fingerprint), now, i);
  }

  // An accepted registration, and every committed rotation, leaves its
  // fingerprint as the agent's single active certificate.
  lemma RegistrationLeavesSingleActive(s: State, agentId: string, p: Payload, cert: IssuedCert, now: Time)
    requires Reachable(s) && RegisterTx(s.tables, agentId, p, cert, now).outcome.Ok?
    ensures SingleActive(RegisterTx(s.tables, agentId, p, cert, now).tables.certs, agentId, cert.fingerprint)
  {
    ReachableInv(s);
    EnsureMatchingKeeps(s.tables.certs, agentId, cert, now);
  }

  lemma CommitLeavesSingleActive(s: State, step: Step)
    requires Reachable(s) && |Next(s, step).commits| > |s.commits|
    ensures var s' := Next(s, step);
      SingleActive(s'.tables.certs, s'.commits[|s.commits|].agentId, s'.commits[|s.commits|].cert.fingerprint)
  {
    ReachableInv(s);
    var ph := s.sessions[step.sid].phase;
    RotateKeeps(s.tables.certs, ph.agentId, ph.cert, step.now);
  }

  // ----- claims nobody holds -------------------------------------------------------

  ghost predicate Orphaned(s: State, id: string) {
    && id in s.tables.enrollments && s.tables.enrollments[id].status == Issuing
    && forall a :: HoldsClaim(s.sessions, a) ==> s.sessions[a].id != id
  }

  lemma OrphanIsOutOfReach(s: State, id: string, actor: Option<nat>)
    requires Inv(s) && Orphaned(s, id)
    ensures OutOfReach(s, id, actor)
  {
    assert RowOk(s.tables.enrollments[id], s.bindings[id], Committed(s.commits, id));
    if actor.Some? && At(s, actor.value) {
      assert SessionOk(s.sessions[actor.value], actor.value, s.tables.enrollments, s.bindings, s.commits);
    }
  }

  // An orphaned claim is permanent: no run ever changes its row again.
  lemma {:induction false} OrphanIsForever(s: State, steps: seq<Step>, id: string)
    requires Inv(s) && Orphaned(s, id)
    ensures Orphaned(Run(s, steps), id)
    ensures Run(s, steps).tables.enrollments[id] == s.tables.enrollments[id]
    decreases |steps|
  {
    if steps != [] {
      OrphanIsOutOfReach(s, id, Actor(steps[0]));
      OutOfReachUnchanged(s, steps[0], id);
      NoNewHolder(s, steps[0], id);
      NextKeeps(s, steps[0]);
      OrphanIsForever(Next(s, steps[0]), steps[1..], id);
    }
  }

  // The three ways a claim loses its holder without being given back.
  ghost predicate Abandons(s: State, step: Step, id: string) {
    match step
    case Claim(sid, now, fault) =>
      At(s, sid) && s.sessions[sid].id == id && s.sessions[sid].phase.Validated?
      && fault == FailAfter && ClaimTx(s.tables, id, s.sessions[sid].phase.agentId, now).outcome.Ok?
    case Release(sid, fault) =>
      At(s, sid) && s.sessions[sid].id == id && s.sessions[sid].phase.Unwinding?
      && fault == FailBefore && ClaimedBy(s.tables.enrollments, id, s.sessions[sid].phase.agentId)
    case Kill(sid) =>
      HoldsClaim(s.sessions, sid) && s.sessions[sid].id == id
      && ClaimedBy(s.tables.enrollments, id, s.sessions[sid].phase.agentId)
    case _ => false
  }

  // the holder's own next step, knowing only that the row is still claimed for it
  lemma HolderStep(s: State, step: Step, holder: nat)
    requires HoldsClaim(s.sessions, holder) && Actor(step) == Some(holder)
    requires ClaimedBy(s.tables.enrollments, s.sessions[holder].id, s.sessions[holder].phase.agentId)
    ensures var id, s' := s.sessions[holder].id, Next(s, step);
      (id in s'.tables.enrollments && s'.tables.enrollments[id].status == Issuing && !HoldsClaim(s'.sessions, holder))
      <==> Abandons(s, step, id)
    ensures HoldsClaim(Next(s, step).sessions, holder) ==> Next(s, step).sessions[holder].id == s.sessions[holder].id
  {
    match step
    case Create(_, _, _, _) =>
    case Register(_, _, _, _, _) =>
    case Open(_, _) =>
    case Validate(_, _) =>
    case Issue(_, _) =>
    case Hangup(_) =>
    case Kill(_) =>
    case GetPending(sid, now, fault) =>
    case Claim(sid, now, fault) =>
    case Finalize(sid, p, now, fault) =>
    case Release(sid, fault) =>
    case Acknowledge(sid, fault) =>
  }

  // a step on a row that nobody has claimed
  lemma UnclaimedStep(s: State, step: Step, id: string)
    requires id in s.tables.enrollments && s.tables.enrollments[id].status != Issuing
    ensures var s' := Next(s, step);
      && id in s'.tables.enrollments
      && (s'.tables.enrollments[id].status == Issuing ==>
            step.Claim? && At(s, step.sid) && s.sessions[step.sid].id == id && s.sessions[step.sid].phase.Validated?
            && s.tables.enrollments[id].status == Pending && s'.sessions[step.sid].id == id
            && (Abandons(s, step, id) <==> !HoldsClaim(s'.sessions, step.sid)))
      && (s'.tables.enrollments[id].status != Issuing ==> !Abandons(s, step, id))
  {
    hide CertsOk, RotateActive, EnsureMatching;
    match step
    case Create(_, _, _, _) =>
    case Register(_, _, _, _, _) =>
    case Open(_, _) =>
    case Validate(_, _) =>
    case Issue(_, _) =>
    case Hangup(_) =>
    case Kill(_) =>
    case GetPending(sid, now, fault) =>
    case Claim(sid, now, fault) =>
    case Finalize(sid, p, now, fault) =>
    case Release(sid, fault) =>
    case Acknowledge(sid, fault) =>
  }

  lemma PendingHasNoHolder(s: State, id: string, a: nat)
    requires Inv(s) && id in s.tables.enrollments && s.tables.enrollments[id].status == Pending
    ensures HoldsClaim(s.sessions, a) ==> s.sessions[a].id != id
  {
    if HoldsClaim(s.sessions, a) && s.sessions[a].id == id {
      HeldIsOutOfReach(s, a, None);
    }
  }

  lemma IssuingHolderClaims(s: State, holder: nat)
    requires Inv(s) && HoldsClaim(s.sessions, holder)
    ensures var ses := s.sessions[holder];
      ses.id in s.tables.enrollments
      && (s.tables.enrollments[ses.id].status == Issuing ==> ClaimedBy(s.tables.enrollments, ses.id, ses.phase.agentId))
  {
    var id := s.sessions[holder].id;
    HeldIsOutOfReach(s, holder, None);
    assert SessionOk(s.sessions[holder], holder, s.tables.enrollments, s.bindings, s.commits);
    assert CommittedBy(s.commits, id, holder) ==> Committed(s.commits, id);
    assert RowOk(s.tables.enrollments[id], s.bindings[id], Committed(s.commits, id));
  }

  // A claim becomes orphaned by exactly these steps.
  lemma OrphanedExactlyBy(s: State, step: Step, id: string)
    requires Reachable(s) && id in s.tables.enrollments && !Orphaned(s, id)
    ensures Orphaned(Next(s, step), id) <==> Abandons(s, step, id)
  {
    ReachableInv(s);
    var s' := Next(s, step);
    if s.tables.enrollments[id].status != Issuing {
      UnclaimedStep(s, step, id);
      if s'.tables.enrollments[id].status == Issuing {
        forall a | a != step.sid ensures HoldsClaim(s'.sessions, a) ==> s'.sessions[a].id != id {
          OnlyActorMoves(s, step, a);
          PendingHasNoHolder(s, id, a);
        }
      }
    } else {
      var holder :| HoldsClaim(s.sessions, holder) && s.sessions[holder].id == id;
      IssuingHolderClaims(s, holder);
      forall a | a != holder ensures HoldsClaim(s'.sessions, a) && Actor(step) != Some(a) ==> s'.sessions[a].id != id {
        if Actor(step) != Some(a) { OnlyActorMoves(s, step, a); }
      }
      if Actor(step) == Some(holder) {
        HolderStep(s, step, holder);
      } else {
        OthersLeaveClaimAlone(s, step, holder);
        assert HoldsClaim(s'.sessions, holder);
      }
    }
  }

  // Over whole runs: an enrollment is stranded at the end exactly when some step on
  // the way abandoned its claim.
  lemma {:induction false} StrandedExactlyWhen(steps: seq<Step>, id: string)
    ensures Orphaned(Run(Init, steps), id) <==> Abandoned(steps, id)
    decreases |steps|
  {
    hide Orphaned, Abandons, Next, Abandoned;
    if steps == [] {
      NothingAbandoned(id);
    } else {
      var front, last := steps[..|steps| - 1], steps[|steps| - 1];
      assert steps == front + [last];
      var s := Run(Init, front);
      RunSnoc(Init, front, last);
      RunReaches(front);
      StrandedExactlyWhen(front, id);
      AbandonedSnoc(front, last, id);
      StrandingStep(s, last, id);
    }
  }

  ghost predicate Abandoned(steps: seq<Step>, id: string) {
    exists i :: 0 <= i < |steps| && Abandons(Run(Init, steps[..i]), steps[i], id)
  }

  lemma NothingAbandoned(id: string)
    ensures !Abandoned([], id) && !Orphaned(Run(Init, []), id)
  {
  }

  lemma AbandonedSnoc(front: seq<Step>, last: Step, id: string)
    ensures Abandoned(front + [last], id) <==> Abandoned(front, id) || Abandons(Run(Init, front), last, id)
  {
    hide Abandons, Run;
    var steps := front + [last];
    assert steps[..|front|] == front;
    if Abandoned(front, id) {
      var i :| 0 <= i < |front| && Abandons(Run(Init, front[..i]), front[i], id);
      assert steps[..i] == front[..i];
    }
    if Abandoned(steps, id) {
      var i :| 0 <= i < |steps| && Abandons(Run(Init, steps[..i]), steps[i], id);
      if i < |front| { assert steps[..i] == front[..i]; }
    }
  }

  // one step of such a run, also for a row that is not there yet or is stranded already
  lemma StrandingStep(s: State, step: Step, id: string)
    requires Reachable(s)
    ensures Orphaned(Next(s, step), id) <==> Orphaned(s, id) || Abandons(s, step, id)
  {
    hide Reachable;
    ReachableInv(s);
    if Orphaned(s, id) {
      OrphanIsForever(s, [step], id);
      assert [step][1..] == [] && Run(Next(s, step), []) == Next(s, step);
    } else if id in s.tables.enrollments {
      OrphanedExactlyBy(s, step, id);
    } else {
      UnknownNotStranded(s, step, id);
    }
  }

  lemma UnknownNotStranded(s: State, step: Step, id: string)
    requires id !in s.tables.enrollments
    ensures !Orphaned(Next(s, step), id) && !Abandons(s, step, id)
  {
    hide CertsOk, RotateActive, EnsureMatching;
    match step
    case Create(_, _, _, _) =>
    case Register(_, _, _, _, _) =>
    case Open(_, _) =>
    case Validate(_, _) =>
    case Issue(_, _) =>
    case Hangup(_) =>
    case Kill(_) =>
    case GetPending(sid, now, fault) =>
    case Claim(sid, now, fault) =>
    case Finalize(sid, p, now, fault) =>
    case Release(sid, fault) =>
    case Acknowledge(sid, fault) =>
  }

  // no process is killed, every claim that commits is reported as such, and every
  // release takes effect
  predicate Untroubled(step: Step) {
    !step.Kill? && !(step.Claim? && step.fault.FailAfter?) && !(step.Release? && step.fault.FailBefore?)
  }

  // So nothing is stranded, whatever else fails and however many connections are lost:
  // every claim is held by a session, which HolderSettles says commits it or gives it
  // back.
  lemma NothingStranded(steps: seq<Step>, id: string)
    requires forall i :: 0 <= i < |steps| ==> Untroubled(steps[i])
    ensures !Orphaned(Run(Init, steps), id)
  {
    StrandedExactlyWhen(steps, id);
    forall i | 0 <= i < |steps| ensures !Abandons(Run(Init, steps[..i]), steps[i], id) {
      assert Untroubled(steps[i]);
    }
  }

  // What is left of Enroll settles the row, whatever the issuer and the store answer,
  // as long as the deferred release takes effect.
  lemma HolderSettles(s: State, sid: nat, issued: Option<IssuedCert>, p: Payload, now: Time, f: Fault, rf: Fault)
    requires Reachable(s) && HoldsClaim(s.sessions, sid) && !rf.FailBefore?
    ensures var id, s' := s.sessions[sid].id, Next(Next(Next(s, Issue(sid, issued)), Finalize(sid, p, now, f)), Release(sid, rf));
      id in s'.tables.enrollments && s'.tables.enrollments[id].status != Issuing
  {
    hide Next, Inv;
    ReachableInv(s);
    var s1 := Next(s, Issue(sid, issued));
    NextKeeps(s, Issue(sid, issued));
    AfterIssue(s, sid, issued);
    var s2 := Next(s1, Finalize(sid, p, now, f));
    NextKeeps(s1, Finalize(sid, p, now, f));
    AfterFinalize(s1, sid, p, now, f);
    AfterRelease(s2, sid, rf);
  }

  lemma AfterIssue(s: State, sid: nat, issued: Option<IssuedCert>)
    requires HoldsClaim(s.sessions, sid)
    ensures var s' := Next(s, Issue(sid, issued));
      HoldsClaim(s'.sessions, sid) && s'.sessions[sid].id == s.sessions[sid].id && !s'.sessions[sid].phase.Claimed?
  {
  }

  lemma AfterFinalize(s: State, sid: nat, p: Payload, now: Time, f: Fault)
    requires Inv(s) && HoldsClaim(s.sessions, sid) && !s.sessions[sid].phase.Claimed?
    ensures var id, s' := s.sessions[sid].id, Next(s, Finalize(sid, p, now, f));
      && At(s', sid) && s'.sessions[sid].id == id && id in s'.tables.enrollments
      && (s'.sessions[sid].phase.Unwinding? || (s'.sessions[sid].phase.Responded? && s'.tables.enrollments[id].status == Issued))
  {
    hide Inv, RotateActive;
    IssuingHolderClaims(s, sid);
  }

  lemma AfterRelease(s: State, sid: nat, rf: Fault)
    requires Inv(s) && At(s, sid) && s.sessions[sid].id in s.tables.enrollments && !rf.FailBefore?
    requires s.sessions[sid].phase.Unwinding? || s.tables.enrollments[s.sessions[sid].id].status != Issuing
    ensures var id, s' := s.sessions[sid].id, Next(s, Release(sid, rf));
      id in s'.tables.enrollments && s'.tables.enrollments[id].status != Issuing
  {
    hide Inv;
    if s.sessions[sid].phase.Unwinding? { IssuingHolderClaims(s, sid); }
  }

  lemma {:induction false} RunSnoc(s: State, steps: seq<Step>, last: Step)
    ensures Run(s, steps + [last]) == Next(Run(s, steps), last)
    decreases |steps|
  {
    hide Next;
    if steps == [] {
      assert [] + [last] == [last] && [last][1..] == [];
      assert Run(s, [last]) == Run(Next(s, last), []);
    } else {
      assert (steps + [last])[1..] == steps[1..] + [last];
      RunSnoc(Next(s, steps[0]), steps[1..], last);
    }
  }

  // ----- runs that strand an enrollment ----------------------------------------------

  // one connection on one unbound enrollment
  ghost function Only(id: string, row: Enrollment, phase: Phase): State {
    State(Tables(map[], [], map[id := row]), map[0 := Session(id, phase)], map[id := ""], [])
  }

  // created unbound, admitted, and about to be claimed
  function UpToClaim(id: string, agentId: string): seq<Step> {
    [Create(id, "", 100, NoFault), Open(0, id), GetPending(0, 1, NoFault), Validate(0, agentId)]
  }

  function PendingRow(): Enrollment {
    Store.Enrollment(None, Pending, 100, 1)
  }

  function ClaimedRow(agentId: string): Enrollment {
    Store.Enrollment(Some(agentId), Issuing, 100, 1)
  }

  lemma OnlyOpens(id: string)
    ensures Next(Next(Init, Create(id, "", 100, NoFault)), Open(0, id)) == Only(id, Store.Enrollment(None, Pending, 100, 0), Opened)
  {
    assert map[][id := ""] == map[id := ""];
  }

  lemma OnlyMoves(id: string, row: Enrollment, from: Phase, to: Phase)
    ensures To(Only(id, row, from), 0, to) == Only(id, row, to)
  {
    assert map[0 := Session(id, from)][0 := Session(id, to)] == map[0 := Session(id, to)];
  }

  lemma OnlyAdmits(id: string)
    ensures Next(Only(id, Store.Enrollment(None, Pending, 100, 0), Opened), GetPending(0, 1, NoFault))
         == Only(id, PendingRow(), Admitted(""))
  {
    OnlyMoves(id, PendingRow(), Opened, Admitted(""));
    assert map[id := Store.Enrollment(None, Pending, 100, 0)][id := PendingRow()] == map[id := PendingRow()];
  }

  lemma OnlyValidates(id: string, agentId: string)
    requires agentId != ""
    ensures Next(Only(id, PendingRow(), Admitted("")), Validate(0, agentId)) == Only(id, PendingRow(), Validated("", agentId))
  {
    OnlyMoves(id, PendingRow(), Admitted(""), Validated("", agentId));
  }

  lemma ReadyToClaim(id: string, agentId: string)
    requires agentId != ""
    ensures Run(Init, UpToClaim(id, agentId)) == Only(id, PendingRow(), Validated("", agentId))
  {
    hide Next;
    var a, b, c, d := Create(id, "", 100, NoFault), Open(0, id), GetPending(0, 1, NoFault), Validate(0, agentId);
    OnlyOpens(id);
    OnlyAdmits(id);
    OnlyValidates(id, agentId);
    RunSnoc(Init, [], a);
    RunSnoc(Init, [a], b);
    RunSnoc(Init, [a, b], c);
    RunSnoc(Init, [a, b, c], d);
    assert [] + [a] == [a] && [a] + [b] == [a, b] && [a, b] + [c] == [a, b, c] && [a, b, c] + [d] == UpToClaim(id, agentId);
  }

  lemma OnlyClaims(id: string, agentId: string)
    ensures Next(Only(id, PendingRow(), Validated("", agentId)), Claim(0, 2, NoFault))
         == Only(id, ClaimedRow(agentId), Claimed("", agentId))
    ensures Next(Only(id, PendingRow(), Validated("", agentId)), Claim(0, 2, FailAfter)) == Only(id, ClaimedRow(agentId), Closed)
  {
    OnlyMoves(id, ClaimedRow(agentId), Validated("", agentId), Claimed("", agentId));
    OnlyMoves(id, ClaimedRow(agentId), Validated("", agentId), Closed);
    assert map[id := PendingRow()][id := ClaimedRow(agentId)] == map[id := ClaimedRow(agentId)];
  }

  lemma OnlyUnwinds(id: string, agentId: string)
    ensures Next(Next(Only(id, ClaimedRow(agentId), Claimed("", agentId)), Issue(0, None)), Release(0, FailBefore))
         == Only(id, ClaimedRow(agentId), Closed)
  {
    OnlyMoves(id, ClaimedRow(agentId), Claimed("", agentId), Unwinding("", agentId));
    OnlyMoves(id, ClaimedRow(agentId), Unwinding("", agentId), Closed);
  }

  lemma OnlyKilled(id: string, row: Enrollment, phase: Phase)
    ensures Next(Only(id, row, phase), Kill(0)) == Only(id, row, Closed)
  {
    OnlyMoves(id, row, phase, Closed);
  }

  // A server killed between the claim and the certificate: the enrollment is stranded,
  // although nobody has been issued anything.
  lemma KilledServerStrands(id: string, agentId: string)
    requires agentId != ""
    ensures var s := Run(Init, UpToClaim(id, agentId) + [Claim(0, 2, NoFault)] + [Kill(0)]);
      Orphaned(s, id) && s.commits == []
  {
    hide Next, Run;
    ReadyToClaim(id, agentId);
    OnlyClaims(id, agentId);
    OnlyKilled(id, ClaimedRow(agentId), Claimed("", agentId));
    RunSnoc(Init, UpToClaim(id, agentId), Claim(0, 2, NoFault));
    RunSnoc(Init, UpToClaim(id, agentId) + [Claim(0, 2, NoFault)], Kill(0));
  }

  // So it is by a running server, when the claim commits but is reported as failed: the
  // release is deferred only behind a claim that succeeded.
  lemma UnknownClaimStrands(id: string, agentId: string)
    requires agentId != ""
    ensures var s := Run(Init, UpToClaim(id, agentId) + [Claim(0, 2, FailAfter)]);
      Orphaned(s, id) && s.commits == []
  {
    hide Next, Run;
    ReadyToClaim(id, agentId);
    OnlyClaims(id, agentId);
    RunSnoc(Init, UpToClaim(id, agentId), Claim(0, 2, FailAfter));
  }

  // And when no certificate can be issued and the deferred release then fails: its error
  // is dropped, and nothing tries again.
  lemma FailedReleaseStrands(id: string, agentId: string)
    requires agentId != ""
    ensures var s := Run(Init, UpToClaim(id, agentId) + [Claim(0, 2, NoFault)] + [Issue(0, None)] + [Release(0, FailBefore)]);
      Orphaned(s, id) && s.commits == []
  {
    hide Next, Run;
    ReadyToClaim(id, agentId);
    OnlyClaims(id, agentId);
    OnlyUnwinds(id, agentId);
    var steps := UpToClaim(id, agentId) + [Claim(0, 2, NoFault)];
    RunSnoc(Init, UpToClaim(id, agentId), Claim(0, 2, NoFault));
    RunSnoc(Init, steps, Issue(0, None));
    RunSnoc(Init, steps + [Issue(0, None)], Release(0, FailBefore));
  }

  // A connection lost at that point strands nothing: Enroll goes on and gives the
  // claim back.
  lemma LostConnectionReleases(id: string, agentId: string)
    requires agentId != ""
    ensures var s := Run(Init, UpToClaim(id, agentId) + [Claim(0, 2, NoFault)] + [Hangup(0)]);
      var s' := Next(Next(s, Issue(0, None)), Release(0, NoFault));
      s'.tables.enrollments == map[id := PendingRow()]
  {
    hide Next, Run;
    ReadyToClaim(id, agentId);
    OnlyClaims(id, agentId);
    RunSnoc(Init, UpToClaim(id, agentId), Claim(0, 2, NoFault));
    RunSnoc(Init, UpToClaim(id, agentId) + [Claim(0, 2, NoFault)], Hangup(0));
    OnlyReleases(id, agentId);
  }

  lemma OnlyReleases(id: string, agentId: string)
    ensures var claimed := Only(id, ClaimedRow(agentId), Claimed("", agentId));
      && Next(claimed, Hangup(0)) == claimed
      && Next(Next(claimed, Issue(0, None)), Release(0, NoFault)) == Only(id, PendingRow(), Closed)
  {
    OnlyMoves(id, ClaimedRow(agentId), Claimed("", agentId), Unwinding("", agentId));
    OnlyMoves(id, PendingRow(), Unwinding("", agentId), Closed);
    assert map[id := ClaimedRow(agentId)][id := PendingRow()] == map[id := PendingRow()];
  }

  lemma RunReaches(steps: seq<Step>)
    ensures Reachable(Run(Init, steps))
  {
  }
}
