// The kernel's fork-time process cache: one hash table and one LRU list over
// the same entries, fed by the fork, exec and exit tracepoints, by a preload
// pass and emptied by eviction and a periodic GC. Every callback changes it
// under one lock, so each is one atomic step. The first half says what the steps
// do to the list of entries and proves what holds over every run of them; the
// class performs them on the two shared structures.

module ProcCache {
  import opened Prelude
  import opened Ancestry

  const MAX_ENTRIES: nat := 8192          // IG_PC_MAX_ENTRIES
  const BUCKETS: nat := 4096              // 1 << IG_PC_HASH_BITS
  const GRACE_NS: U64 := 300_000_000_000  // IG_PC_GRACE_NS, five minutes
  const GC_BATCH: nat := 256

  // what the tracepoint reads from a task
  datatype Task = Task(pid: nat, ppid: nat, uid: nat, euid: nat, sid: nat,
                       startTimeNs: nat, comm: string, tty: string)

  // one entry; an exit mark of 0 means alive
  datatype Row = Row(task: Task, exe: string, cmdline: string, exit: U64)

  function Born(t: Task): Row {
    Row(t, "", "", 0)
  }

  predicate Alive(r: Row) {
    r.exit == 0
  }

  ghost predicate DistinctPids(rows: seq<Row>) {
    forall i, j :: 0 <= i < j < |rows| ==> rows[i].task.pid != rows[j].task.pid
  }

  function Find(rows: seq<Row>, pid: nat): (r: Option<nat>)
    ensures r.Some? ==> r.value < |rows| && rows[r.value].task.pid == pid
    ensures r.None? ==> forall k :: 0 <= k < |rows| ==> rows[k].task.pid != pid
  {
    if rows == [] then None
    else if rows[0].task.pid == pid then Some(0)
    else match Find(rows[1..], pid) case Some(i) => Some(i + 1) case None => None
  }

  function RemoveAt<T>(xs: seq<T>, i: nat): seq<T>
    requires i < |xs|
  {
    xs[..i] + xs[i + 1..]
  }

  // ----- the steps, on the list of entries (most recent first) ---------------------

  datatype Step =
    | Fork(task: Task)
    | SkippedFork                         // throttled, or no memory for the entry
    | Exec(pid: nat, exe: string, cmdline: string, comm: string, tty: string)
    | Exit(pid: nat, now: U64)
    | Preload(task: Task)
    | Gc(now: U64)

  // `evicted`, `replaced` and `reaped` are history: how the removed entries left.
  datatype Pc = Pc(rows: seq<Row>, inserts: nat, evicted: nat, replaced: nat, reaped: nat)

  function AfterExec(r: Row, exe: string, cmdline: string, comm: string, tty: string): Row {
    r.(task := r.task.(comm := comm, tty := tty),
       exe := if exe == "" then r.exe else exe,
       cmdline := if cmdline == "" then r.cmdline else cmdline)
  }

  predicate Expired(r: Row, now: U64) {
    !Alive(r) && Minus(now, r.exit) >= GRACE_NS
  }

  // The GC pass from the tail, with room for `budget` more removals.
  function Sweep(rows: seq<Row>, now: U64, budget: nat): (kept: seq<Row>)
    requires budget > 0
    ensures |rows| - budget <= |kept| <= |rows|
  {
    if rows == [] then []
    else
      var last, rest := rows[|rows| - 1], rows[..|rows| - 1];
      if !Expired(last, now) then Sweep(rest, now, budget) + [last]
      else if budget == 1 then rest
      else Sweep(rest, now, budget - 1)
  }

  function Replace(s: Pc, pid: nat): Pc {
    match Find(s.rows, pid)
    case Some(i) => s.(rows := RemoveAt(s.rows, i), replaced := s.replaced + 1)
    case None => s
  }

  function MakeRoom(s: Pc): Pc {
    if |s.rows| >= MAX_ENTRIES then s.(rows := s.rows[..|s.rows| - 1], evicted := s.evicted + 1) else s
  }

  function Add(s: Pc, task: Task): Pc {
    s.(rows := [Born(task)] + s.rows, inserts := s.inserts + 1)
  }

  function Next(s: Pc, step: Step): Pc {
    match step
    case Fork(task) => Add(MakeRoom(Replace(s, task.pid)), task)
    case SkippedFork => s
    case Exec(pid, exe, cmdline, comm, tty) =>
      (match Find(s.rows, pid)
       case Some(i) => s.(rows := [AfterExec(s.rows[i], exe, cmdline, comm, tty)] + RemoveAt(s.rows, i))
       case None => s)
    case Exit(pid, now) =>
      (match Find(s.rows, pid)
       case Some(i) => s.(rows := RemoveAt(s.rows, i) + [s.rows[i].(exit := now)])
       case None => s)
    case Preload(task) =>
      if |s.rows| >= MAX_ENTRIES || Find(s.rows, task.pid).Some? then s else Add(s, task)
    case Gc(now) =>
      var kept := Sweep(s.rows, now, GC_BATCH);
      s.(rows := kept, reaped := s.reaped + |s.rows| - |kept|)
  }

  function Run(s: Pc, steps: seq<Step>): Pc
    decreases |steps|
  {
    if steps == [] then s else Run(Next(s, steps[0]), steps[1..])
  }

  const EMPTY: Pc := Pc([], 0, 0, 0, 0)

  // ----- what every step keeps ----------------------------------------------------

  // One entry per pid, never more than the limit, and every entry ever inserted
  // is still held or was evicted, replaced or reaped.
  ghost predicate Inv(s: Pc) {
    && DistinctPids(s.rows)
    && |s.rows| <= MAX_ENTRIES
    && s.inserts == |s.rows| + s.evicted + s.replaced + s.reaped
  }

  lemma RemoveKeeps(rows: seq<Row>, i: nat)
    requires DistinctPids(rows) && i < |rows|
    ensures DistinctPids(RemoveAt(rows, i))
    ensures Find(RemoveAt(rows, i), rows[i].task.pid).None?
    ensures forall k :: 0 <= k < |RemoveAt(rows, i)| ==> RemoveAt(rows, i)[k] == rows[if k < i then k else k + 1]
  {
    var rest := RemoveAt(rows, i);
    assert forall k :: 0 <= k < |rest| ==> rest[k] == rows[if k < i then k else k + 1];
  }

  lemma {:induction false} SweepFrom(rows: seq<Row>, now: U64, budget: nat)
    requires budget > 0
    ensures forall r :: r in Sweep(rows, now, budget) ==> r in rows
  {
    if rows != [] {
      var rest := rows[..|rows| - 1];
      if !Expired(rows[|rows| - 1], now) {
        SweepFrom(rest, now, budget);
      } else if budget > 1 {
        SweepFrom(rest, now, budget - 1);
      }
      assert forall r :: r in rest ==> r in rows;
    }
  }

  lemma {:induction false} SweepDistinct(rows: seq<Row>, now: U64, budget: nat)
    requires budget > 0 && DistinctPids(rows)
    ensures DistinctPids(Sweep(rows, now, budget))
  {
    if rows != [] {
      var rest := rows[..|rows| - 1];
      SweepFrom(rest, now, budget);
      if !Expired(rows[|rows| - 1], now) {
        SweepDistinct(rest, now, budget);
        var kept := Sweep(rest, now, budget);
        assert forall k :: 0 <= k < |kept| ==> kept[k] in rest;
      } else if budget > 1 {
        SweepDistinct(rest, now, budget - 1);
      }
    }
  }

  lemma ForkKeeps(s: Pc, task: Task)
    requires Inv(s)
    ensures Inv(Next(s, Fork(task)))
  {
    var i := Find(s.rows, task.pid);
    if i.Some? { RemoveKeeps(s.rows, i.value); }
    var rest := MakeRoom(Replace(s, task.pid)).rows;
    assert DistinctPids(rest) && forall k :: 0 <= k < |rest| ==> rest[k].task.pid != task.pid;
  }

  // exec and exit: an entry is moved to one end and keeps its pid
  lemma MoveKeeps(rows: seq<Row>, i: nat, moved: Row)
    requires DistinctPids(rows) && i < |rows| && moved.task.pid == rows[i].task.pid
    ensures DistinctPids([moved] + RemoveAt(rows, i)) && DistinctPids(RemoveAt(rows, i) + [moved])
  {
    RemoveKeeps(rows, i);
    var rest := RemoveAt(rows, i);
    assert forall k :: 0 <= k < |rest| ==> rest[k].task.pid != moved.task.pid;
  }

  lemma NextKeeps(s: Pc, step: Step)
    requires Inv(s)
    ensures Inv(Next(s, step))
  {
    match step
    case Fork(task) => ForkKeeps(s, task);
    case SkippedFork =>
    case Exec(pid, exe, cmdline, comm, tty) =>
      var i := Find(s.rows, pid);
      if i.Some? { MoveKeeps(s.rows, i.value, AfterExec(s.rows[i.value], exe, cmdline, comm, tty)); }
    case Exit(pid, now) =>
      var i := Find(s.rows, pid);
      if i.Some? { MoveKeeps(s.rows, i.value, s.rows[i.value].(exit := now)); }
    case Preload(_) =>
    case Gc(now) => SweepDistinct(s.rows, now, GC_BATCH);
  }

  // ----- what every step does ----------------------------------------------------------

  lemma FoundAt(rows: seq<Row>, i: nat, pid: nat)
    requires DistinctPids(rows) && i < |rows| && rows[i].task.pid == pid
    ensures Find(rows, pid) == Some(i)
  {
    FindOnly(rows, i);
  }

  // A fork puts the new process in front, alive and without exe and cmdline. An
  // entry of the same pid makes way for it; without one, the last entry of a full
  // cache does. Every other entry stays where it was behind it.
  lemma ForkMeans(s: Pc, task: Task)
    requires Inv(s)
    ensures forall i :: 0 <= i < |s.rows| && s.rows[i].task.pid == task.pid ==>
      && Next(s, Fork(task)).rows == [Row(task, "", "", 0)] + s.rows[..i] + s.rows[i + 1..]
      && Next(s, Fork(task)).replaced == s.replaced + 1 && Next(s, Fork(task)).evicted == s.evicted
    ensures (forall i :: 0 <= i < |s.rows| ==> s.rows[i].task.pid != task.pid) && |s.rows| < 8192 ==>
      && Next(s, Fork(task)).rows == [Row(task, "", "", 0)] + s.rows
      && Next(s, Fork(task)).replaced == s.replaced && Next(s, Fork(task)).evicted == s.evicted
    ensures (forall i :: 0 <= i < |s.rows| ==> s.rows[i].task.pid != task.pid) && |s.rows| == 8192 ==>
      && Next(s, Fork(task)).rows == [Row(task, "", "", 0)] + s.rows[..8191]
      && Next(s, Fork(task)).replaced == s.replaced && Next(s, Fork(task)).evicted == s.evicted + 1
    ensures Next(s, Fork(task)).inserts == s.inserts + 1 && Next(s, Fork(task)).reaped == s.reaped
  {
    hide Find, DistinctPids;
    forall i | 0 <= i < |s.rows| && s.rows[i].task.pid == task.pid
      ensures Next(s, Fork(task)).rows == [Row(task, "", "", 0)] + s.rows[..i] + s.rows[i + 1..]
      ensures Next(s, Fork(task)).replaced == s.replaced + 1 && Next(s, Fork(task)).evicted == s.evicted
    {
      FoundAt(s.rows, i, task.pid);
    }
  }

  // An exec moves its process to the front under its new names; what it could not
  // read of exe and cmdline stays, and so does an exit mark.
  lemma ExecMeans(s: Pc, pid: nat, exe: string, cmdline: string, comm: string, tty: string)
    requires Inv(s)
    ensures forall i :: 0 <= i < |s.rows| && s.rows[i].task.pid == pid ==>
      var r, rows' := s.rows[i], Next(s, Exec(pid, exe, cmdline, comm, tty)).rows;
      && rows' != [] && rows'[1..] == s.rows[..i] + s.rows[i + 1..]
      && rows'[0].task == r.task.(comm := comm, tty := tty) && rows'[0].exit == r.exit
      && rows'[0].exe == (if exe != "" then exe else r.exe)
      && rows'[0].cmdline == (if cmdline != "" then cmdline else r.cmdline)
    ensures (forall i :: 0 <= i < |s.rows| ==> s.rows[i].task.pid != pid) ==>
      Next(s, Exec(pid, exe, cmdline, comm, tty)) == s
  {
    hide Find, DistinctPids;
    forall i | 0 <= i < |s.rows| && s.rows[i].task.pid == pid ensures Find(s.rows, pid) == Some(i) {
      FoundAt(s.rows, i, pid);
    }
  }

  // An exit marks its process and moves it to the back.
  lemma ExitMeans(s: Pc, pid: nat, now: U64)
    requires Inv(s)
    ensures forall i :: 0 <= i < |s.rows| && s.rows[i].task.pid == pid ==>
      Next(s, Exit(pid, now)).rows == s.rows[..i] + s.rows[i + 1..] + [s.rows[i].(exit := now)]
    ensures (forall i :: 0 <= i < |s.rows| ==> s.rows[i].task.pid != pid) ==> Next(s, Exit(pid, now)) == s
  {
    hide Find, DistinctPids;
    forall i | 0 <= i < |s.rows| && s.rows[i].task.pid == pid ensures Find(s.rows, pid) == Some(i) {
      FoundAt(s.rows, i, pid);
    }
  }

  // A preload adds a process the cache does not hold in front, unless the cache
  // is full, and leaves everything else alone.
  lemma PreloadMeans(s: Pc, task: Task)
    requires Inv(s)
    ensures Next(s, Preload(task)) ==
      if |s.rows| < 8192 && forall i :: 0 <= i < |s.rows| ==> s.rows[i].task.pid != task.pid
      then s.(rows := [Row(task, "", "", 0)] + s.rows, inserts := s.inserts + 1)
      else s
  {
  }

  lemma {:induction false} EveryRun(s: Pc, steps: seq<Step>)
    requires Inv(s)
    ensures Inv(Run(s, steps))
    decreases |steps|
  {
    if steps != [] {
      NextKeeps(s, steps[0]);
      EveryRun(Next(s, steps[0]), steps[1..]);
    }
  }

  // ----- live entries before exited ones -------------------------------------------

  ghost predicate LiveFirst(rows: seq<Row>) {
    forall i, j :: 0 <= i < j < |rows| && !Alive(rows[i]) ==> !Alive(rows[j])
  }

  // The exact condition under which a step leaves live entries in front: exec
  // must not find an exited entry while another one lives, and an exit mark of 0
  // must not go behind an exited entry.
  ghost predicate KeepsOrder(rows: seq<Row>, step: Step) {
    match step
    case Exec(pid, _, _, _, _) =>
      var i := Find(rows, pid);
      i.Some? && !Alive(rows[i.value]) ==> forall k :: 0 <= k < |rows| ==> !Alive(rows[k])
    case Exit(pid, now) =>
      var i := Find(rows, pid);
      i.Some? && now == 0 ==> forall k :: 0 <= k < |rows| && k != i.value ==> Alive(rows[k])
    case _ => true
  }

  lemma {:induction false} SweepLiveFirst(rows: seq<Row>, now: U64, budget: nat)
    requires budget > 0 && LiveFirst(rows)
    ensures LiveFirst(Sweep(rows, now, budget))
  {
    if rows != [] {
      var rest := rows[..|rows| - 1];
      if !Expired(rows[|rows| - 1], now) {
        SweepLiveFirst(rest, now, budget);
        SweepFrom(rest, now, budget);
        var kept := Sweep(rest, now, budget);
        assert forall k :: 0 <= k < |kept| ==> kept[k] in rest;
      } else if budget > 1 {
        SweepLiveFirst(rest, now, budget - 1);
      }
    }
  }

  lemma RemoveLiveFirst(rows: seq<Row>, i: nat)
    requires LiveFirst(rows) && i < |rows|
    ensures LiveFirst(RemoveAt(rows, i))
  {
    var rest := RemoveAt(rows, i);
    assert forall k :: 0 <= k < |rest| ==> rest[k] == rows[if k < i then k else k + 1];
  }

  // What an index of the list becomes once entry i is gone.
  function Shifted(i: nat, k: nat): (k': int)
    requires k != i
  {
    if k < i then k else k - 1
  }

  lemma ToFrontOrder(rows: seq<Row>, i: nat, moved: Row)
    requires LiveFirst(rows) && i < |rows| && moved.exit == rows[i].exit
    ensures LiveFirst([moved] + RemoveAt(rows, i)) <==>
            (!Alive(rows[i]) ==> forall k :: 0 <= k < |rows| ==> !Alive(rows[k]))
  {
    RemoveLiveFirst(rows, i);
    var rest := RemoveAt(rows, i);
    var rows' := [moved] + rest;
    if !Alive(rows[i]) && exists k :: 0 <= k < |rows| && Alive(rows[k]) {
      var k :| 0 <= k < |rows| && Alive(rows[k]);
      assert rows'[Shifted(i, k) + 1] == rows[k];
      assert !Alive(rows'[0]) && Alive(rows'[Shifted(i, k) + 1]);
    } else {
      forall a, b | 0 <= a < b < |rows'| && !Alive(rows'[a]) ensures !Alive(rows'[b]) {
        assert rows'[b] == rest[b - 1] == rows[if b - 1 < i then b - 1 else b];
        if a > 0 { assert rows'[a] == rest[a - 1]; }
      }
    }
  }

  lemma ToBackOrder(rows: seq<Row>, i: nat, moved: Row)
    requires LiveFirst(rows) && i < |rows|
    ensures LiveFirst(RemoveAt(rows, i) + [moved]) <==>
            (Alive(moved) ==> forall k :: 0 <= k < |rows| && k != i ==> Alive(rows[k]))
  {
    RemoveLiveFirst(rows, i);
    var rest := RemoveAt(rows, i);
    var rows' := rest + [moved];
    if Alive(moved) && exists k :: 0 <= k < |rows| && k != i && !Alive(rows[k]) {
      var k :| 0 <= k < |rows| && k != i && !Alive(rows[k]);
      assert rest[Shifted(i, k)] == rows[k];
      assert !Alive(rows'[Shifted(i, k)]) && Alive(rows'[|rest|]);
    } else {
      assert forall k :: 0 <= k < |rest| ==> rest[k] == rows[if k < i then k else k + 1];
    }
  }

  lemma NextLiveFirst(s: Pc, step: Step)
    requires Inv(s) && LiveFirst(s.rows)
    ensures LiveFirst(Next(s, step).rows) <==> KeepsOrder(s.rows, step)
  {
    match step
    case Fork(task) =>
      var i := Find(s.rows, task.pid);
      if i.Some? { RemoveKeeps(s.rows, i.value); }
    case SkippedFork =>
    case Exec(pid, exe, cmdline, comm, tty) =>
      var i := Find(s.rows, pid);
      if i.Some? { ToFrontOrder(s.rows, i.value, AfterExec(s.rows[i.value], exe, cmdline, comm, tty)); }
    case Exit(pid, now) =>
      var i := Find(s.rows, pid);
      if i.Some? { ToBackOrder(s.rows, i.value, s.rows[i.value].(exit := now)); }
    case Preload(_) =>
    case Gc(now) => SweepLiveFirst(s.rows, now, GC_BATCH);
  }

  ghost predicate Orderly(s: Pc, steps: seq<Step>)
    decreases |steps|
  {
    steps != [] ==> KeepsOrder(s.rows, steps[0]) && Orderly(Next(s, steps[0]), steps[1..])
  }

  lemma {:induction false} OrderlyRunLiveFirst(s: Pc, steps: seq<Step>)
    requires Inv(s) && LiveFirst(s.rows) && Orderly(s, steps)
    ensures Inv(Run(s, steps)) && LiveFirst(Run(s, steps).rows)
    decreases |steps|
  {
    if steps != [] {
      NextKeeps(s, steps[0]);
      NextLiveFirst(s, steps[0]);
      OrderlyRunLiveFirst(Next(s, steps[0]), steps[1..]);
    }
  }

  lemma ForkKeepsOthers(s: Pc, task: Task, i: nat)
    requires i < |s.rows| && s.rows[i].task.pid != task.pid
    ensures s.rows[i] in Next(s, Fork(task)).rows
         || (Find(s.rows, task.pid).None? && |s.rows| >= MAX_ENTRIES && i == |s.rows| - 1)
         || |s.rows| > MAX_ENTRIES
  {
    var found := Find(s.rows, task.pid);
    var rows' := Next(s, Fork(task)).rows;
    if found.Some? {
      if |s.rows| <= MAX_ENTRIES {
        assert rows'[if i < found.value then i + 1 else i] == s.rows[i];
      }
    } else if |s.rows| < MAX_ENTRIES || i < |s.rows| - 1 {
      assert rows'[i + 1] == s.rows[i];
    }
  }

  // After any orderly run a fork drops at most one entry of another process, and
  // a live one only when no exited entry of another process is left to drop.
  lemma EvictionSparesLive(steps: seq<Step>, task: Task, r: Row)
    requires Orderly(EMPTY, steps)
    requires r in Run(EMPTY, steps).rows && r.task.pid != task.pid
    requires r !in Next(Run(EMPTY, steps), Fork(task)).rows
    ensures var rows := Run(EMPTY, steps).rows;
      && |rows| == MAX_ENTRIES && Find(rows, task.pid).None? && r == rows[MAX_ENTRIES - 1]
      && (Alive(r) ==> forall q :: q in rows ==> Alive(q))
  {
    OrderlyRunLiveFirst(EMPTY, steps);
    var s := Run(EMPTY, steps);
    var i :| 0 <= i < |s.rows| && s.rows[i] == r;
    ForkKeepsOthers(s, task, i);
  }

  // A fork that is skipped after its pid's last owner exited leaves the exited
  // entry to the exec that follows, which then puts it in front of a live one.
  lemma SkippedForkBreaksOrder(dead: Task, other: Task, now: U64)
    requires dead.pid != other.pid && now > 0
    ensures var steps := [Fork(dead), Fork(other), Exit(dead.pid, now), SkippedFork, Exec(dead.pid, "x", "x", "x", "")];
      && Orderly(EMPTY, steps[..4])
      && !LiveFirst(Run(EMPTY, steps).rows)
  {
    var e := Exec(dead.pid, "x", "x", "x", "");
    var steps := [Fork(dead), Fork(other), Exit(dead.pid, now), SkippedFork, e];
    var s1 := Next(EMPTY, Fork(dead));
    var s2 := Next(s1, Fork(other));
    assert s1.rows == [Born(dead)];
    assert s1.rows[1..] == [];
    assert s2.rows == [Born(other), Born(dead)];
    assert s2.rows[1..] == [Born(dead)];
    assert Find([Born(dead)], dead.pid) == Some(0);
    assert Find(s2.rows, dead.pid) == Some(1);
    var s3 := Next(s2, Exit(dead.pid, now));
    assert s3.rows == [Born(other), Born(dead).(exit := now)];
    assert s3.rows[1..] == [Born(dead).(exit := now)];
    assert Find(s3.rows[1..], dead.pid) == Some(0);
    assert Find(s3.rows, dead.pid) == Some(1);
    var s5 := Next(s3, e);
    assert !Alive(s5.rows[0]) && s5.rows[1] == Born(other);
    assert Next(s3, SkippedFork) == s3;
    assert steps[1..] == [Fork(other), Exit(dead.pid, now), SkippedFork, e];
    assert steps[1..][1..] == [Exit(dead.pid, now), SkippedFork, e];
    assert steps[1..][1..][1..] == [SkippedFork, e];
    assert steps[1..][1..][1..][1..] == [e];
    assert steps[1..][1..][1..][1..][1..] == [];
    assert [SkippedFork, e][1..] == [e] && [e][1..] == [];
    assert Run(s3, [e]) == Run(s5, []) == s5;
    assert Run(s3, [SkippedFork, e]) == s5;
    assert Run(s2, steps[1..][1..]) == s5;
    assert Run(s1, steps[1..]) == s5;
    assert Run(EMPTY, steps) == s5;
    var head := steps[..4];
    assert head[1..] == [Fork(other), Exit(dead.pid, now), SkippedFork];
    assert head[1..][1..] == [Exit(dead.pid, now), SkippedFork];
    assert head[1..][1..][1..] == [SkippedFork];
    assert Orderly(s3, [SkippedFork]);
    assert Orderly(s2, head[1..][1..]);
    assert Orderly(s1, head[1..]);
  }

  // ----- garbage collection ---------------------------------------------------------

  function Unexpired(rows: seq<Row>, now: U64): seq<Row> {
    if rows == [] then []
    else
      var rest := Unexpired(rows[..|rows| - 1], now);
      if Expired(rows[|rows| - 1], now) then rest else rest + [rows[|rows| - 1]]
  }

  lemma {:induction false} UnexpiredAre(rows: seq<Row>, now: U64, r: Row)
    ensures r in Unexpired(rows, now) <==> r in rows && !Expired(r, now)
  {
    if rows != [] {
      UnexpiredAre(rows[..|rows| - 1], now, r);
      assert rows == rows[..|rows| - 1] + [rows[|rows| - 1]];
    }
  }

  lemma UnexpiredNone(now: U64)
    ensures Unexpired([], now) == []
  {
  }

  lemma UnexpiredSnoc(rows: seq<Row>, last: Row, now: U64)
    ensures Unexpired(rows + [last], now) == Unexpired(rows, now) + if Expired(last, now) then [] else [last]
  {
    assert (rows + [last])[..|rows|] == rows;
  }

  lemma KeptSnoc(rest: seq<Row>, last: Row, now: U64, kept: seq<Row>, cut: nat)
    requires cut <= |rest| && kept == rest[..cut] + Unexpired(rest[cut..], now)
    ensures var rows := rest + [last];
      kept + (if Expired(last, now) then [] else [last]) == rows[..cut] + Unexpired(rows[cut..], now)
  {
    var rows := rest + [last];
    UnexpiredSnoc(rest[cut..], last, now);
    assert rows[cut..] == rest[cut..] + [last];
    assert rows[..cut] == rest[..cut];
    Associative(rest[..cut], Unexpired(rest[cut..], now), if Expired(last, now) then [] else [last]);
  }

  lemma Associative<T>(a: seq<T>, b: seq<T>, c: seq<T>)
    ensures (a + b) + c == a + (b + c)
  {
  }

  // The pass removes the expired entries behind some cut and nothing else; it
  // stops at the cut only when its budget is used up.
  lemma {:induction false} SweepCuts(rows: seq<Row>, now: U64, budget: nat) returns (cut: nat)
    requires budget > 0
    ensures cut <= |rows|
    ensures Sweep(rows, now, budget) == rows[..cut] + Unexpired(rows[cut..], now)
    ensures cut > 0 ==> |Sweep(rows, now, budget)| + budget == |rows|
  {
    hide Unexpired;
    UnexpiredNone(now);
    if rows == [] { return 0; }
    var last, rest := rows[|rows| - 1], rows[..|rows| - 1];
    if Expired(last, now) && budget == 1 {
      cut := |rest|;
      UnexpiredSnoc([], last, now);
      assert rows[cut..] == [] + [last];
      assert Sweep(rows, now, budget) == rest + [];
    } else {
      var left := if Expired(last, now) then budget - 1 else budget;
      cut := SweepCuts(rest, now, left);
      KeptSnoc(rest, last, now, Sweep(rest, now, left), cut);
      assert rest + [last] == rows;
    }
  }

  // `at` lists the positions of the kept rows, in order.
  ghost predicate KeptAt(kept: seq<Row>, rows: seq<Row>, at: seq<nat>) {
    && |at| == |kept|
    && (forall k :: 0 <= k < |kept| ==> at[k] < |rows| && rows[at[k]] == kept[k])
    && (forall j, k :: 0 <= j < k < |kept| ==> at[j] < at[k])
  }

  lemma KeptAtMore(kept: seq<Row>, rest: seq<Row>, at: seq<nat>, last: Row)
    requires KeptAt(kept, rest, at)
    ensures KeptAt(kept, rest + [last], at) && KeptAt(kept + [last], rest + [last], at + [|rest|])
  {
  }

  lemma KeptAll(rest: seq<Row>, last: Row)
    ensures KeptAt(rest, rest + [last], seq(|rest|, k => k))
  {
  }

  // What the pass keeps, it keeps in order.
  lemma {:induction false} SweepOrder(rows: seq<Row>, now: U64, budget: nat) returns (at: seq<nat>)
    requires budget > 0
    ensures KeptAt(Sweep(rows, now, budget), rows, at)
  {
    hide Expired;
    if rows == [] { return []; }
    var last, rest := rows[|rows| - 1], rows[..|rows| - 1];
    assert rows == rest + [last];
    hide KeptAt;
    if !Expired(last, now) {
      var below := SweepOrder(rest, now, budget);
      KeptAtMore(Sweep(rest, now, budget), rest, below, last);
      at := below + [|rest|];
    } else if budget == 1 {
      KeptAll(rest, last);
      at := seq(|rest|, k => k);
    } else {
      at := SweepOrder(rest, now, budget - 1);
      KeptAtMore(Sweep(rest, now, budget - 1), rest, at, last);
    }
  }

  lemma SweptAt(rows: seq<Row>, now: U64) returns (cut: nat)
    requires DistinctPids(rows)
    ensures forall k :: 0 <= k < |rows| ==>
      (rows[k] in Sweep(rows, now, GC_BATCH) <==> k < cut || !Expired(rows[k], now))
    ensures cut > 0 ==> |Sweep(rows, now, GC_BATCH)| + GC_BATCH == |rows|
  {
    cut := SweepCuts(rows, now, GC_BATCH);
    var front, back := rows[..cut], rows[cut..];
    forall k | 0 <= k < |rows|
      ensures rows[k] in front <==> k < cut
      ensures rows[k] in back <==> k >= cut
      ensures rows[k] in Unexpired(back, now) <==> k >= cut && !Expired(rows[k], now)
    {
      assert k < cut ==> front[k] == rows[k];
      assert k >= cut ==> back[k - cut] == rows[k];
      UnexpiredAre(back, now, rows[k]);
    }
  }

  predicate PastGrace(r: Row, now: U64) {
    !Alive(r) && r.exit + 300_000_000_000 <= now
  }

  // With a clock not behind any exit mark, one pass removes only entries past the
  // grace period, takes them from the tail, at most 256; if fewer, none is left.
  lemma GcPass(s: Pc, now: U64)
    requires Inv(s)
    requires forall k :: 0 <= k < |s.rows| ==> s.rows[k].exit <= now
    ensures var kept := Next(s, Gc(now)).rows;
      && |s.rows| - 256 <= |kept| <= |s.rows|
      && (forall r :: r in kept ==> r in s.rows)
      && (forall k :: 0 <= k < |s.rows| && !PastGrace(s.rows[k], now) ==> s.rows[k] in kept)
      && (forall i, j :: 0 <= i < j < |s.rows| && s.rows[i] !in kept && PastGrace(s.rows[j], now) ==> s.rows[j] !in kept)
      && (|kept| > |s.rows| - 256 ==> forall k :: 0 <= k < |s.rows| && PastGrace(s.rows[k], now) ==> s.rows[k] !in kept)
  {
    SweepFrom(s.rows, now, GC_BATCH);
    var cut := SweptAt(s.rows, now);
    assert forall k :: 0 <= k < |s.rows| ==> (Expired(s.rows[k], now) <==> PastGrace(s.rows[k], now));
  }

  // A clock set back makes the unsigned age huge: exactly then is an entry
  // reaped although its grace period has not passed.
  lemma ReapedEarly(r: Row, now: U64)
    ensures (Expired(r, now) && !PastGrace(r, now))
       <==> (now < r.exit && r.exit - now <= 0x1_0000_0000_0000_0000 - 300_000_000_000)
  {
    if now < r.exit {
      assert Minus(now, r.exit) == now + 0x1_0000_0000_0000_0000 - r.exit;
    }
  }

  // Such a run: a fork, its exit marked at 10, and a collection with the clock at 5
  // removes the entry, although its grace period has not even begun.
  lemma ClockSetBack(t: Task)
    ensures var steps := [Fork(t), Exit(t.pid, 10), Gc(5)];
      && Run(EMPTY, steps[..2]).rows == [Born(t).(exit := 10)]
      && !PastGrace(Born(t).(exit := 10), 5)
      && Run(EMPTY, steps).rows == []
  {
    var steps := [Fork(t), Exit(t.pid, 10), Gc(5)];
    var s1 := Next(EMPTY, Fork(t));
    assert s1.rows == [Born(t)] && s1.rows[1..] == [];
    var s2 := Next(s1, Exit(t.pid, 10));
    assert s2.rows == [Born(t).(exit := 10)] && s2.rows[..0] == [];
    var s3 := Next(s2, Gc(5));
    assert s3.rows == [];
    hide Next, Find, Sweep;
    assert steps[1..] == [Exit(t.pid, 10), Gc(5)] && steps[1..][1..] == [Gc(5)] && [Gc(5)][1..] == [];
    assert Run(s2, [Gc(5)]) == Run(s3, []);
    assert Run(s1, steps[1..]) == s3;
    assert steps[..2][1..] == [Exit(t.pid, 10)] && [Exit(t.pid, 10)][1..] == [];
    assert Run(s1, steps[..2][1..]) == Run(s2, []);
  }

  // No pass ever removes a live entry, whatever the clock says.
  lemma GcSparesLive(s: Pc, now: U64, r: Row)
    requires r in s.rows && Alive(r)
    ensures r in Next(s, Gc(now)).rows
  {
    var cut := SweepCuts(s.rows, now, GC_BATCH);
    UnexpiredAre(s.rows[cut..], now, r);
    assert s.rows == s.rows[..cut] + s.rows[cut..];
  }

  // ----- the shared entries ------------------------------------------------------------

  class Entry {
    const pid: nat
    const ppid: nat
    const uid: nat
    const euid: nat
    const sid: nat
    const startTimeNs: nat
    var comm: string
    var tty: string
    var exe: string
    var cmdline: string
    var exitTimeNs: U64

    constructor (t: Task)
      ensures Record() == Born(t)
    {
      pid, ppid, uid, euid, sid, startTimeNs := t.pid, t.ppid, t.uid, t.euid, t.sid, t.startTimeNs;
      comm, tty, exe, cmdline, exitTimeNs := t.comm, t.tty, "", "", 0;
    }

    function Record(): Row
      reads this
    {
      Row(Task(pid, ppid, uid, euid, sid, startTimeNs, comm, tty), exe, cmdline, exitTimeNs)
    }

    method Rename(exe: string, cmdline: string, comm: string, tty: string)
      modifies this
      ensures Record() == AfterExec(old(Record()), exe, cmdline, comm, tty)
    {
      if exe != "" { this.exe := exe; }
      if cmdline != "" { this.cmdline := cmdline; }
      this.comm := comm;
      this.tty := tty;
    }
  }

  // list_del and hash_del
  function Unlinked(xs: seq<Entry>, e: Entry): seq<Entry> {
    if xs == [] then []
    else if xs[0] == e then Unlinked(xs[1..], e)
    else [xs[0]] + Unlinked(xs[1..], e)
  }

  lemma {:induction false} UnlinkedHas(xs: seq<Entry>, e: Entry, x: Entry)
    ensures x in Unlinked(xs, e) <==> x in xs && x != e
  {
    if xs != [] { UnlinkedHas(xs[1..], e, x); }
  }

  ghost predicate Unequal(xs: seq<Entry>) {
    forall i, j :: 0 <= i < j < |xs| ==> xs[i].pid != xs[j].pid
  }

  lemma {:induction false} UnlinkedAt(xs: seq<Entry>, i: nat)
    requires Unequal(xs) && i < |xs|
    ensures Unlinked(xs, xs[i]) == RemoveAt(xs, i)
  {
    var rest := xs[1..];
    if i == 0 {
      assert forall k :: 0 <= k < |rest| ==> rest[k].pid != xs[0].pid;
      UnlinkedAbsent(rest, xs[0]);
      assert RemoveAt(xs, 0) == rest;
    } else {
      assert rest[i - 1] == xs[i] && xs[0] != xs[i];
      UnlinkedAt(rest, i - 1);
      assert [xs[0]] + RemoveAt(rest, i - 1) == RemoveAt(xs, i);
    }
  }

  lemma {:induction false} UnlinkedAbsent(xs: seq<Entry>, e: Entry)
    requires e !in xs
    ensures Unlinked(xs, e) == xs
  {
    if xs != [] {
      UnlinkedAbsent(xs[1..], e);
    }
  }

  lemma {:induction false} UnlinkedUnequal(xs: seq<Entry>, e: Entry)
    requires Unequal(xs)
    ensures Unequal(Unlinked(xs, e))
  {
    if e in xs {
      var i :| 0 <= i < |xs| && xs[i] == e;
      UnlinkedAt(xs, i);
    } else {
      UnlinkedAbsent(xs, e);
    }
  }

  type Home = nat -> nat

  // The buckets hold exactly the listed entries, each once, in its pid's bucket.
  ghost predicate Indexed(buckets: seq<seq<Entry>>, lru: seq<Entry>, home: Home) {
    && (forall p :: home(p) < |buckets|)
    && Unequal(lru)
    && (forall k :: 0 <= k < |lru| ==> lru[k] in buckets[home(lru[k].pid)])
    && (forall b :: 0 <= b < |buckets| ==> Unequal(buckets[b]))
    && (forall b, e :: 0 <= b < |buckets| && e in buckets[b] ==> e in lru && home(e.pid) == b)
  }

  lemma IndexedAfterAdd(buckets: seq<seq<Entry>>, lru: seq<Entry>, home: Home, e: Entry)
    requires Indexed(buckets, lru, home) && forall k :: 0 <= k < |lru| ==> lru[k].pid != e.pid
    ensures home(e.pid) < |buckets|
    ensures Indexed(buckets[home(e.pid) := [e] + buckets[home(e.pid)]], [e] + lru, home)
  {
    var h := home(e.pid);
    var bucket := buckets[h];
    assert forall k :: 0 <= k < |bucket| ==> bucket[k] in lru;
    assert Unequal([e] + bucket);
  }

  lemma IndexedAfterDelete(buckets: seq<seq<Entry>>, lru: seq<Entry>, home: Home, i: nat)
    requires Indexed(buckets, lru, home) && i < |lru|
    ensures Indexed(buckets[home(lru[i].pid) := Unlinked(buckets[home(lru[i].pid)], lru[i])], RemoveAt(lru, i), home)
  {
    var h := home(lru[i].pid);
    var buckets' := buckets[h := Unlinked(buckets[h], lru[i])];
    var lru' := RemoveAt(lru, i);
    UnlinkedUnequal(buckets[h], lru[i]);
    UnlinkedUnequal(lru, lru[i]);
    UnlinkedAt(lru, i);
    forall k | 0 <= k < |lru'| ensures lru'[k] in buckets'[home(lru'[k].pid)] {
      UnlinkedHas(lru, lru[i], lru'[k]);
      UnlinkedHas(buckets[h], lru[i], lru'[k]);
    }
    forall b, e | 0 <= b < |buckets'| && e in buckets'[b] ensures e in lru' && home(e.pid) == b {
      UnlinkedHas(buckets[h], lru[i], e);
      UnlinkedHas(lru, lru[i], e);
    }
  }

  lemma NotTwice(buckets: seq<seq<Entry>>, lru: seq<Entry>, home: Home, i: nat)
    requires Indexed(buckets, lru, home) && i < |lru|
    ensures forall k :: 0 <= k < |lru| && k != i ==> lru[k] != lru[i]
  {
  }

  // The index does not care about the order of the list.
  lemma IndexedReordered(buckets: seq<seq<Entry>>, lru: seq<Entry>, home: Home, lru': seq<Entry>)
    requires Indexed(buckets, lru, home) && Unequal(lru')
    requires forall k :: 0 <= k < |lru'| ==> lru'[k] in lru
    requires forall k :: 0 <= k < |lru| ==> lru[k] in lru'
    ensures Indexed(buckets, lru', home)
  {
    forall k | 0 <= k < |lru'| ensures lru'[k] in buckets[home(lru'[k].pid)] {
      var i :| 0 <= i < |lru| && lru[i] == lru'[k];
      assert lru[i] in buckets[home(lru[i].pid)];
    }
    forall b, e | 0 <= b < |buckets| && e in buckets[b] ensures e in lru' && home(e.pid) == b {
      assert e in lru;
      var i :| 0 <= i < |lru| && lru[i] == e;
      assert lru[i] in lru';
    }
  }

  lemma Moved(lru: seq<Entry>, i: nat, lru': seq<Entry>)
    requires Unequal(lru) && i < |lru|
    requires lru' == [lru[i]] + RemoveAt(lru, i) || lru' == RemoveAt(lru, i) + [lru[i]]
    ensures Unequal(lru')
    ensures forall k :: 0 <= k < |lru'| ==> lru'[k] in lru
    ensures forall k :: 0 <= k < |lru| ==> lru[k] in lru'
  {
    var rest := RemoveAt(lru, i);
    assert forall k :: 0 <= k < |rest| ==> rest[k] == lru[if k < i then k else k + 1];
    forall k | 0 <= k < |lru| ensures lru[k] in lru' {
      if k != i { assert rest[Shifted(i, k)] == lru[k]; }
    }
  }

  ghost function Records(es: seq<Entry>): (r: seq<Row>)
    reads es
    ensures |r| == |es|
  {
    seq(|es|, i requires 0 <= i < |es| reads es => es[i].Record())
  }

  lemma RecordsDistinct(buckets: seq<seq<Entry>>, es: seq<Entry>, home: Home)
    requires Indexed(buckets, es, home)
    ensures DistinctPids(Records(es))
  {
    assert forall k :: 0 <= k < |es| ==> Records(es)[k].task.pid == es[k].pid;
  }

  lemma RecordAt(es: seq<Entry>, k: nat)
    requires k < |es|
    ensures Records(es)[k] == es[k].Record()
  {
  }

  lemma RemoveAtParts<T>(rows: seq<T>, k: nat)
    requires k < |rows|
    ensures |RemoveAt(rows, k)| + 1 == |rows|
    ensures RemoveAt(rows, k)[..k] == rows[..k] && RemoveAt(rows, k)[k..] == rows[k + 1..]
    ensures RemoveAt(rows, k) == rows[..k] + rows[k + 1..]
  {
  }

  lemma RecordsWithout(es: seq<Entry>, i: nat)
    requires i < |es|
    ensures Records(RemoveAt(es, i)) == RemoveAt(Records(es), i)
  {
  }

  lemma {:induction false} FindOnly(rows: seq<Row>, i: nat)
    requires DistinctPids(rows) && i < |rows|
    ensures Find(rows, rows[i].task.pid) == Some(i)
  {
    var found := Find(rows, rows[i].task.pid).value;
    assert found < i || found == i || found > i;
  }

  // what collect_chain copies out of an entry
  function Shown(r: Row): ProcInfo {
    ProcInfo(r.task.pid, r.task.ppid, r.task.uid, r.task.euid, r.task.sid, r.task.tty, r.task.comm,
             if |r.exe| < EXE_LEN then r.exe else r.exe[..EXE_LEN - 1],
             if |r.cmdline| < CMDLINE_LEN then r.cmdline else r.cmdline[..CMDLINE_LEN - 1],
             0, r.task.startTimeNs)
  }

  const EXE_LEN: nat := 128
  const CMDLINE_LEN: nat := 256

  function CacheSource(rows: seq<Row>): Source {
    (i: nat, p: int) =>
      if p < 0 then None
      else match Find(rows, p) case Some(k) => Some(Shown(rows[k])) case None => None
  }

  lemma CacheSourceWellKeyed(rows: seq<Row>)
    ensures WellKeyed(CacheSource(rows))
  {
  }

  // The chain of ig_proc_cache_collect_chain is the longest parent path through the
  // cache: it is such a path, every other one is a prefix of it, it is marked
  // truncated unless it ends in a terminal process, and all it shows is cached.
  lemma ChainIsLongestPath(rows: seq<Row>, pid: nat, maxDepth: nat)
    requires maxDepth > 0
    ensures var src := CacheSource(rows);
      var w := Walk(src, pid, 0, maxDepth);
      && |w.entries| <= maxDepth && IsPath(src, pid, 0, w.entries)
      && (forall es :: IsPath(src, pid, 0, es) && |es| <= maxDepth ==> es <= w.entries)
      && (w.truncated <==> w.entries == [] || !Terminal(w.entries[|w.entries| - 1]))
      && (forall k :: 0 <= k < |w.entries| ==> ShownIn(rows, w.entries[k]))
  {
    hide CacheSource, Walk, IsPath, Terminal, ShownIn;
    CacheSourceWellKeyed(rows);
    WalkIsPath(CacheSource(rows), pid, 0, maxDepth);
    WalkIsLongestPath(CacheSource(rows), pid, maxDepth);
    PathShows(rows, pid, 0, Walk(CacheSource(rows), pid, 0, maxDepth).entries);
  }

  // What entry k of the chain shows: its own row, with exe and cmdline cut to the
  // sizes of the chain entry. It is followed by its parent's row unless the walk
  // ends there, and is the last of a truncated chain only if the chain is full or
  // the parent is not cached.
  lemma ChainShows(rows: seq<Row>, pid: nat, maxDepth: nat, k: nat) returns (j: nat)
    requires maxDepth > 0 && k < |Walk(CacheSource(rows), pid, 0, maxDepth).entries|
    ensures j < |rows|
    ensures var es, r := Walk(CacheSource(rows), pid, 0, maxDepth).entries, rows[j];
      && es[k].pid == r.task.pid == (if k == 0 then pid else es[k - 1].ppid) && es[k].ppid == r.task.ppid
      && es[k].uid == r.task.uid && es[k].euid == r.task.euid && es[k].sid == r.task.sid
      && es[k].comm == r.task.comm && es[k].tty == r.task.tty && es[k].startTimeNs == r.task.startTimeNs
      && es[k].exe == (if |r.exe| < 128 then r.exe else r.exe[..127])
      && es[k].cmdline == (if |r.cmdline| < 256 then r.cmdline else r.cmdline[..255])
      && (k + 1 < |es| ==> r.task.ppid > 1 && r.task.ppid != r.task.pid)
    ensures var w, r := Walk(CacheSource(rows), pid, 0, maxDepth), rows[j];
      k + 1 == |w.entries| ==>
        && (w.truncated <==> r.task.ppid > 1 && r.task.ppid != r.task.pid)
        && (w.truncated ==> |w.entries| == maxDepth || forall i :: 0 <= i < |rows| ==> rows[i].task.pid != r.task.ppid)
  {
    hide Walk, WellKeyed, Find;
    CacheSourceWellKeyed(rows);
    var src := CacheSource(rows);
    WalkGoesOn(src, pid, 0, maxDepth, k);
    WalkEnds(src, pid, 0, maxDepth);
    var es := Walk(src, pid, 0, maxDepth).entries;
    j := Find(rows, if k == 0 then pid else es[k - 1].ppid).value;
  }

  ghost predicate ShownIn(rows: seq<Row>, e: ProcInfo) {
    exists k :: 0 <= k < |rows| && e == Shown(rows[k])
  }

  lemma {:induction false} PathShows(rows: seq<Row>, pid: int, i: nat, es: seq<ProcInfo>)
    requires IsPath(CacheSource(rows), pid, i, es)
    ensures forall k :: 0 <= k < |es| ==> ShownIn(rows, es[k])
    decreases |es|
  {
    hide Shown, ShownIn;
    if es != [] {
      PathShows(rows, es[0].ppid, i + 1, es[1..]);
      SourceShows(rows, i, pid);
      assert forall k :: 0 < k < |es| ==> es[k] == es[1..][k - 1];
    }
  }

  lemma SourceShows(rows: seq<Row>, i: nat, pid: int)
    ensures CacheSource(rows)(i, pid).Some? ==> ShownIn(rows, CacheSource(rows)(i, pid).value)
  {
    hide Shown;
  }

  lemma SameAtEveryStep(rows: seq<Row>, i: nat, p: int)
    ensures CacheSource(rows)(i, p) == CacheSource(rows)(0, p)
  {
  }

  function PreloadSteps(tasks: seq<Task>): seq<Step> {
    seq(|tasks|, i requires 0 <= i < |tasks| => Preload(tasks[i]))
  }

  lemma {:induction false} FullTakesNoMore(s: Pc, steps: seq<Step>)
    requires |s.rows| >= MAX_ENTRIES && forall i :: 0 <= i < |steps| ==> steps[i].Preload?
    ensures Run(s, steps) == s
    decreases |steps|
  {
    if steps != [] { FullTakesNoMore(s, steps[1..]); }
  }

  lemma SweepNone(now: U64, budget: nat)
    requires budget > 0
    ensures Sweep([], now, budget) == []
  {
  }

  // one step of the GC loop, over the entry in front of position k
  lemma SweepStep(rows: seq<Row>, now: U64, budget: nat, k: nat)
    requires budget > 0 && 0 < k <= |rows|
    ensures Sweep(rows[..k], now, budget) + rows[k..] ==
      if !Expired(rows[k - 1], now) then Sweep(rows[..k - 1], now, budget) + rows[k - 1..]
      else if budget == 1 then rows[..k - 1] + rows[k..]
      else Sweep(rows[..k - 1], now, budget - 1) + rows[k..]
  {
    assert rows[..k][..k - 1] == rows[..k - 1];
    assert rows[k - 1..] == [rows[k - 1]] + rows[k..];
  }

  lemma StillAbsent(s: Pc, pid: nat)
    requires Find(s.rows, pid).None?
    ensures Find(MakeRoom(s).rows, pid).None?
  {
    var rows := MakeRoom(s).rows;
    assert forall k :: 0 <= k < |rows| ==> rows[k] == s.rows[k];
  }

  class Cache {
    const home: Home
    const table: array<seq<Entry>>
    var lru: seq<Entry>
    var count: nat
    var inserts: nat
    var hits: nat
    var misses: nat
    var evicts: nat
    ghost var replaced: nat
    ghost var reaped: nat

    ghost function Contents(): Pc
      reads this`lru, this`inserts, this`evicts, this`replaced, this`reaped, lru
    {
      Pc(Records(lru), inserts, evicts, replaced, reaped)
    }

    ghost predicate Linked()
      reads this`lru, this`count, table
    {
      Indexed(table[..], lru, home) && count == |lru|
    }

    ghost predicate Valid()
      reads this`lru, this`count, this`inserts, this`evicts, this`replaced, this`reaped, table, lru
    {
      Linked() && Inv(Contents())
    }

    constructor (home: Home)
      requires forall p :: home(p) < BUCKETS
      ensures Valid() && fresh(table) && Contents() == EMPTY
    {
      this.home := home;
      table := new seq<Entry>[BUCKETS](_ => []);
      lru, count := [], 0;
      inserts, hits, misses, evicts := 0, 0, 0, 0;
      replaced, reaped := 0, 0;
    }

    // ig_pc_find_locked: the bucket search finds what a search of the whole list would
    method FindLocked(pid: nat) returns (r: Entry?)
      requires Linked()
      ensures r == null <==> Find(Records(lru), pid).None?
      ensures r != null ==> r in lru && r.pid == pid && lru[Find(Records(lru), pid).value] == r
    {
      ghost var rows := Records(lru);
      var bucket := table[home(pid)];
      assert bucket == table[..][home(pid)];
      assert forall k :: 0 <= k < |lru| ==> rows[k].task.pid == lru[k].pid;
      for i := 0 to |bucket|
        invariant forall k :: 0 <= k < i ==> bucket[k].pid != pid
      {
        if bucket[i].pid == pid {
          assert bucket[i] in lru;
          ghost var k :| 0 <= k < |lru| && lru[k] == bucket[i];
          FindOnly(rows, k);
          return bucket[i];
        }
      }
      assert forall k :: 0 <= k < |lru| ==> lru[k] in table[..][home(lru[k].pid)];
      r := null;
    }

    // hash_del, list_del and the count
    method Delete(e: Entry, ghost i: nat)
      requires Linked() && i < |lru| && lru[i] == e
      modifies this`lru, this`count, table
      ensures Linked() && lru == RemoveAt(old(lru), i)
      ensures Records(lru) == RemoveAt(old(Records(lru)), i)
    {
      IndexedAfterDelete(table[..], lru, home, i);
      UnlinkedAt(lru, i);
      RecordsWithout(lru, i);
      table[home(e.pid)] := Unlinked(table[home(e.pid)], e);
      lru := Unlinked(lru, e);
      count := count - 1;
    }

    // hash_add, list_add and the counters
    method Insert(e: Entry)
      requires Linked() && Find(Records(lru), e.pid).None?
      modifies this`lru, this`count, this`inserts, table
      ensures Linked() && lru == [e] + old(lru) && inserts == old(inserts) + 1
      ensures Records(lru) == [e.Record()] + old(Records(lru))
    {
      hide Indexed;
      assert forall k :: 0 <= k < |lru| ==> Records(lru)[k].task.pid == lru[k].pid;
      IndexedAfterAdd(table[..], lru, home, e);
      table[home(e.pid)] := [e] + table[home(e.pid)];
      lru := [e] + lru;
      count := count + 1;
      inserts := inserts + 1;
    }

    // a reused pid's old entry goes first
    method DeleteOld(pid: nat)
      requires Linked()
      modifies this`lru, this`count, this`replaced, table
      ensures Linked() && Contents() == Replace(old(Contents()), pid)
      ensures Find(Records(lru), pid).None?
    {
      hide Indexed, Unequal, DistinctPids, RemoveAt;
      ghost var rows := Records(lru);
      var e := FindLocked(pid);
      if e != null {
        ghost var i := Find(rows, pid).value;
        RecordsDistinct(table[..], lru, home);
        RemoveKeeps(rows, i);
        Delete(e, i);
        replaced := replaced + 1;
      }
    }

    // ig_pc_evict_one_locked, called when the cache is full
    method EvictIfFull()
      requires Linked()
      modifies this`lru, this`count, this`evicts, table
      ensures Linked() && Contents() == MakeRoom(old(Contents()))
    {
      if count >= MAX_ENTRIES {
        Delete(lru[|lru| - 1], |lru| - 1);
        evicts := evicts + 1;
      }
    }

    // ig_pc_on_fork; `skip` covers the throttle and a failed allocation
    method OnFork(task: Task, skip: bool)
      requires Valid()
      modifies this, table
      ensures Valid()
      ensures Contents() == Next(old(Contents()), if skip then SkippedFork else Fork(task))
    {
      hide Indexed, Inv, Sweep, DistinctPids, RemoveAt, Find, Replace, MakeRoom;
      if skip { return; }
      NextKeeps(Contents(), Fork(task));
      var e := new Entry(task);
      DeleteOld(task.pid);
      StillAbsent(Contents(), task.pid);
      EvictIfFull();
      Insert(e);
    }

    // list_move and list_move_tail
    method Move(e: Entry, toFront: bool, ghost i: nat)
      requires Linked() && i < |lru| && lru[i] == e
      modifies this`lru
      ensures Linked()
      ensures lru == if toFront then [e] + RemoveAt(old(lru), i) else RemoveAt(old(lru), i) + [e]
      ensures Records(lru) == if toFront then [e.Record()] + RemoveAt(old(Records(lru)), i)
                                         else RemoveAt(old(Records(lru)), i) + [e.Record()]
    {
      hide Unlinked, Unequal;
      UnlinkedAt(lru, i);
      RecordsWithout(lru, i);
      ghost var was := lru;
      lru := if toFront then [e] + Unlinked(lru, e) else Unlinked(lru, e) + [e];
      Moved(was, i, lru);
      IndexedReordered(table[..], was, home, lru);
    }

    // ig_pc_on_exec
    method OnExec(pid: nat, exe: string, cmdline: string, comm: string, tty: string)
      requires Valid()
      modifies this`lru, lru
      ensures Valid() && Contents() == Next(old(Contents()), Exec(pid, exe, cmdline, comm, tty))
    {
      hide Indexed, Inv, Sweep;
      ghost var rows := Records(lru);
      NextKeeps(Contents(), Exec(pid, exe, cmdline, comm, tty));
      var e := FindLocked(pid);
      if e != null {
        ghost var i := Find(rows, pid).value;
        NotTwice(table[..], lru, home, i);
        e.Rename(exe, cmdline, comm, tty);
        assert Records(lru) == rows[i := AfterExec(rows[i], exe, cmdline, comm, tty)];
        Move(e, true, i);
        assert Records(lru) == [AfterExec(rows[i], exe, cmdline, comm, tty)] + RemoveAt(rows, i);
      }
    }

    // ig_pc_on_exit
    method OnExit(pid: nat, now: U64)
      requires Valid()
      modifies this`lru, lru
      ensures Valid() && Contents() == Next(old(Contents()), Exit(pid, now))
    {
      hide Indexed, Inv, Sweep;
      ghost var rows := Records(lru);
      NextKeeps(Contents(), Exit(pid, now));
      var e := FindLocked(pid);
      if e != null {
        ghost var i := Find(rows, pid).value;
        NotTwice(table[..], lru, home, i);
        e.exitTimeNs := now;
        assert Records(lru) == rows[i := rows[i].(exit := now)];
        Move(e, false, i);
        assert Records(lru) == RemoveAt(rows, i) + [rows[i].(exit := now)];
      }
    }

    // one process of ig_pc_preload
    method PreloadOne(task: Task) returns (full: bool)
      requires Valid()
      modifies this`lru, this`count, this`inserts, table
      ensures Valid() && Contents() == Next(old(Contents()), Preload(task))
      ensures full <==> |old(lru)| >= MAX_ENTRIES
    {
      hide Indexed, Inv, Sweep;
      NextKeeps(Contents(), Preload(task));
      var e := new Entry(task);
      if count >= MAX_ENTRIES { return true; }
      full := false;
      var found := FindLocked(task.pid);
      if found == null { Insert(e); }
    }

    // ig_pc_preload: stops at the first process it finds the cache full at, which
    // leaves the cache as preloading every process would
    method PreloadAll(tasks: seq<Task>)
      requires Valid()
      modifies this`lru, this`count, this`inserts, table
      ensures Valid() && Contents() == Run(old(Contents()), PreloadSteps(tasks))
    {
      hide Indexed, Inv, Sweep;
      ghost var steps := PreloadSteps(tasks);
      for i := 0 to |tasks|
        invariant Valid()
        invariant Run(Contents(), steps[i..]) == Run(old(Contents()), steps)
      {
        assert steps[i..][0] == Preload(tasks[i]) && steps[i..][1..] == steps[i + 1..];
        var full := PreloadOne(tasks[i]);
        if full {
          FullTakesNoMore(Contents(), steps[i + 1..]);
          return;
        }
      }
    }

    // ig_pc_gc_work
    method GcWork(now: U64)
      requires Valid()
      modifies this`lru, this`count, this`reaped, table
      ensures Valid() && Contents() == Next(old(Contents()), Gc(now))
    {
      hide Indexed, Inv, Sweep, Records, RemoveAt, Linked;
      NextKeeps(Contents(), Gc(now));
      ghost var rows := Records(lru);
      var batch, k := 0, |lru|;
      assert rows[..k] == rows && rows + [] == rows;
      while k > 0
        invariant Linked() && k <= |lru| && batch < GC_BATCH
        invariant |rows| == |lru| + batch && reaped == old(reaped) + batch
        invariant Sweep(rows, now, GC_BATCH) == Sweep(Records(lru)[..k], now, GC_BATCH - batch) + Records(lru)[k..]
      {
        ghost var held := Records(lru);
        SweepStep(held, now, GC_BATCH - batch, k);
        k := k - 1;
        var e := lru[k];
        RecordAt(lru, k);
        if e.exitTimeNs == 0 { continue; }
        if Minus(now, e.exitTimeNs) < GRACE_NS { continue; }
        RemoveAtParts(held, k);
        RemoveAtParts(lru, k);
        Delete(e, k);
        reaped := reaped + 1;
        batch := batch + 1;
        if batch >= GC_BATCH {
          break;
        }
      }
      if batch < GC_BATCH {
        SweepNone(now, GC_BATCH - batch);
        assert Records(lru)[..0] == [] && [] + Records(lru)[0..] == Records(lru);
      }
      assert Records(lru) == Sweep(rows, now, GC_BATCH);
    }

    method FindInValid(pid: nat) returns (r: Entry?)
      requires Valid()
      ensures r == null <==> CacheSource(Contents().rows)(0, pid).None?
      ensures r != null ==> CacheSource(Contents().rows)(0, pid) == Some(Shown(r.Record()))
    {
      hide Indexed, Inv;
      r := FindLocked(pid);
    }

    // ig_proc_cache_collect_chain
    method CollectChain(startPid: nat, maxDepth: int) returns (out: Chain)
      requires Valid()
      modifies this`hits, this`misses
      ensures Valid() && Contents() == old(Contents())
      ensures out == if maxDepth <= 0 then Chain([], false) else Walk(CacheSource(Contents().rows), startPid, 0, maxDepth)
      ensures hits == old(hits) + |out.entries|
      ensures misses == old(misses) + if out.truncated && |out.entries| < maxDepth then 1 else 0
    {
      hide Indexed, Inv, Valid, Linked, CacheSource, Walk;
      if maxDepth <= 0 { return Chain([], false); }
      ghost var src := CacheSource(Records(lru));
      var chain: seq<ProcInfo>, truncated := [], false;
      var cur := startPid;
      var i := 0;
      while i < maxDepth
        invariant Valid() && Contents() == old(Contents())
        invariant i <= maxDepth && |chain| == i && hits == old(hits) + i && misses == old(misses)
        invariant i < maxDepth ==> !truncated && Walk(src, startPid, 0, maxDepth) == Onto(chain, Walk(src, cur, i, maxDepth))
        invariant i == maxDepth ==> Walk(src, startPid, 0, maxDepth) == Chain(chain, truncated)
      {
        var e := FindInValid(cur);
        SameAtEveryStep(Records(lru), i, cur);
        WalkOn(src, cur, i, maxDepth, chain);
        if e == null {
          misses := misses + 1;
          return Chain(chain, true);
        }
        hits := hits + 1;
        var o := Shown(e.Record());
        chain := chain + [o];
        if o.ppid <= 1 || o.ppid == cur { return Chain(chain, truncated); }
        cur := e.ppid;
        if i == maxDepth - 1 { truncated := true; }
        i := i + 1;
      }
      out := Chain(chain, truncated);
    }
  }
}
