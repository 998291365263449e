// The LRU cache in front of the /proc walk: slots chained into a doubly linked
// list, with the lock dropped between a miss and the insert that follows it.
// The first half specifies the two locked sections on values and proves what
// holds over whole runs, interleaved or not; the class performs them on the
// linked slots.

module PidLru {
  import opened Prelude
  import opened Ancestry

  datatype Slot = Slot(pid: int, ticks: nat, chain: Chain, inUse: bool)

  datatype Stats = Stats(lookups: nat, hits: nat, misses: nat, evictions: nat)

  // `order` lists the slots in use, most recent first. `drops` is history: how
  // many entries were dropped because their pid had been reused.
  datatype Lru = Lru(slots: seq<Slot>, order: seq<nat>, stats: Stats, drops: nat)

  ghost predicate Distinct(xs: seq<nat>) {
    forall i, j :: 0 <= i < j < |xs| ==> xs[i] != xs[j]
  }

  predicate InRange(l: Lru) {
    forall k :: 0 <= k < |l.order| ==> l.order[k] < |l.slots|
  }

  // no slot is listed twice, and the listed slots are exactly those in use
  ghost predicate Shape(slots: seq<Slot>, order: seq<nat>) {
    && Distinct(order)
    && (forall k :: 0 <= k < |order| ==> order[k] < |slots|)
    && (forall n: nat :: n < |slots| ==> (slots[n].inUse <==> n in order))
  }

  ghost predicate WellFormed(l: Lru) {
    Shape(l.slots, l.order)
  }

  function Without(xs: seq<nat>, n: nat): (r: seq<nat>)
    ensures forall x :: x in r <==> x in xs && x != n
  {
    if xs == [] then [] else if xs[0] == n then Without(xs[1..], n) else [xs[0]] + Without(xs[1..], n)
  }

  // cache_find: the lowest slot in use for the pid
  function Find(slots: seq<Slot>, pid: int, i: nat): (r: Option<nat>)
    requires i <= |slots|
    ensures r.Some? ==> i <= r.value < |slots| && slots[r.value].inUse && slots[r.value].pid == pid
    ensures r.None? ==> forall n :: i <= n < |slots| ==> !(slots[n].inUse && slots[n].pid == pid)
    ensures r.Some? ==> forall n :: i <= n < r.value ==> !(slots[n].inUse && slots[n].pid == pid)
    decreases |slots| - i
  {
    if i == |slots| then None
    else if slots[i].inUse && slots[i].pid == pid then Some(i)
    else Find(slots, pid, i + 1)
  }

  function FirstFree(slots: seq<Slot>, i: nat): (r: Option<nat>)
    requires i <= |slots|
    ensures r.Some? ==> i <= r.value < |slots| && !slots[r.value].inUse
    ensures r.None? ==> forall n :: i <= n < |slots| ==> slots[n].inUse
    ensures r.Some? ==> forall n :: i <= n < r.value ==> slots[n].inUse
    decreases |slots| - i
  {
    if i == |slots| then None
    else if !slots[i].inUse then Some(i)
    else FirstFree(slots, i + 1)
  }

  // ----- the two locked sections ---------------------------------------------------

  datatype Begun = Begun(lru: Lru, hit: Option<Chain>)

  // first section: hit, or count the miss (dropping an entry of a reused pid)
  function Begin(l: Lru, pid: int, ticks: nat): Begun {
    var st := l.stats.(lookups := l.stats.lookups + 1);
    match Find(l.slots, pid, 0)
    case Some(n) =>
      if l.slots[n].ticks == ticks
      then Begun(Front(l, n).(stats := st.(hits := st.hits + 1)), Some(l.slots[n].chain))
      else Begun(Dropped(l, n).(stats := st.(misses := st.misses + 1), drops := l.drops + 1), None)
    case None => Begun(l.(stats := st.(misses := st.misses + 1)), None)
  }

  function Occupy(l: Lru, n: nat, pid: int, ticks: nat, chain: Chain): Lru
    requires n < |l.slots|
  {
    l.(slots := l.slots[n := Slot(pid, ticks, chain, true)], order := [n] + l.order)
  }

  function Evict(l: Lru): Lru
    requires InRange(l) && l.order != []
  {
    var n := l.order[|l.order| - 1];
    l.(slots := l.slots[n := l.slots[n].(inUse := false)], order := l.order[..|l.order| - 1],
       stats := l.stats.(evictions := l.stats.evictions + 1))
  }

  // second section: take a free slot or evict the tail
  function Insert(l: Lru, pid: int, ticks: nat, chain: Chain): Lru
    requires InRange(l)
  {
    match FirstFree(l.slots, 0)
    case Some(n) => Occupy(l, n, pid, ticks, chain)
    case None => if l.order == [] then l else Occupy(Evict(l), l.order[|l.order| - 1], pid, ticks, chain)
  }

  lemma {:induction false} WithoutShape(xs: seq<nat>, n: nat)
    requires Distinct(xs)
    ensures Distinct(Without(xs, n))
    ensures |Without(xs, n)| == |xs| - if n in xs then 1 else 0
  {
    if xs != [] {
      var rest := xs[1..];
      assert forall i :: 0 <= i < |rest| ==> rest[i] == xs[i + 1];
      assert xs == [xs[0]] + rest;
      WithoutShape(rest, n);
      assert xs[0] !in rest;
    }
  }

  function Front(l: Lru, n: nat): Lru {
    l.(order := [n] + Without(l.order, n))
  }

  function Dropped(l: Lru, n: nat): Lru
    requires n < |l.slots|
  {
    l.(slots := l.slots[n := l.slots[n].(inUse := false)], order := Without(l.order, n))
  }

  lemma FrontKeeps(l: Lru, n: nat)
    requires WellFormed(l) && n in l.order
    ensures WellFormed(Front(l, n)) && |Front(l, n).order| == |l.order|
  {
    WithoutShape(l.order, n);
    var w := Without(l.order, n);
    assert forall k :: 0 <= k < |w| ==> w[k] in w;
  }

  lemma DroppedKeeps(l: Lru, n: nat)
    requires WellFormed(l) && n in l.order
    ensures n < |l.slots| && WellFormed(Dropped(l, n)) && |Dropped(l, n).order| + 1 == |l.order|
  {
    WithoutShape(l.order, n);
    var w := Without(l.order, n);
    assert forall k :: 0 <= k < |w| ==> w[k] in w;
  }

  // Both sections keep the list duplicate-free and equal to the slots in use,
  // and the miss is accounted for by exactly one of: an entry, an eviction, a
  // drop, an insert still under way.
  lemma BeginKeeps(l: Lru, pid: int, ticks: nat)
    requires WellFormed(l)
    ensures var b := Begin(l, pid, ticks);
      && WellFormed(b.lru) && |b.lru.slots| == |l.slots|
      && b.lru.stats.evictions == l.stats.evictions
      && b.lru.stats.lookups == l.stats.lookups + 1
      && (b.hit.Some? ==> b.lru.stats.hits == l.stats.hits + 1 && b.lru.stats.misses == l.stats.misses
                          && |b.lru.order| + b.lru.drops == |l.order| + l.drops)
      && (b.hit.None? ==> b.lru.stats.hits == l.stats.hits && b.lru.stats.misses == l.stats.misses + 1
                          && |b.lru.order| + b.lru.drops == |l.order| + l.drops)
  {
    match Find(l.slots, pid, 0)
    case Some(n) =>
      FrontKeeps(l, n);
      DroppedKeeps(l, n);
    case None =>
  }

  lemma EvictKeeps(l: Lru)
    requires WellFormed(l) && l.order != []
    ensures var l' := Evict(l); var n := l.order[|l.order| - 1];
      && WellFormed(l') && |l'.slots| == |l.slots| && n < |l.slots|
      && !l'.slots[n].inUse && |l'.order| + 1 == |l.order|
  {
    var n := l.order[|l.order| - 1];
    var kept := l.order[..|l.order| - 1];
    assert l.order == kept + [n];
    assert forall m :: m in l.order <==> m in kept || m == n;
    assert n !in kept;
  }

  lemma OccupyKeeps(l: Lru, n: nat, pid: int, ticks: nat, chain: Chain)
    requires WellFormed(l) && n < |l.slots| && !l.slots[n].inUse
    ensures WellFormed(Occupy(l, n, pid, ticks, chain))
  {
    assert n !in l.order;
  }

  lemma InsertKeeps(l: Lru, pid: int, ticks: nat, chain: Chain)
    requires WellFormed(l) && |l.slots| > 0
    ensures var l' := Insert(l, pid, ticks, chain);
      && WellFormed(l') && |l'.slots| == |l.slots|
      && |l'.order| > 0 && l'.order[0] < |l.slots| && l'.slots[l'.order[0]] == Slot(pid, ticks, chain, true)
      && |l'.order| + l'.stats.evictions == |l.order| + l.stats.evictions + 1
      && l'.drops == l.drops && l'.stats == l.stats.(evictions := l'.stats.evictions)
  {
    match FirstFree(l.slots, 0)
    case Some(n) => OccupyKeeps(l, n, pid, ticks, chain);
    case None =>
      assert l.slots[0].inUse && 0 in l.order;
      EvictKeeps(l);
      OccupyKeeps(Evict(l), l.order[|l.order| - 1], pid, ticks, chain);
  }

  // ----- any number of threads, interleaved -------------------------------------------

  datatype Machine = Machine(
    lru: Lru,
    inflight: map<nat, (int, nat)>,        // threads between their two locked sections
    inserted: set<(int, nat, Chain)>)      // history of inserts

  datatype Step = Lookup(thread: nat, pid: int, ticks: nat) | Fill(thread: nat, chain: Chain)

  function Next(m: Machine, step: Step): Machine
    requires InRange(m.lru)
  {
    match step
    case Lookup(t, pid, ticks) =>
      if t in m.inflight then m
      else
        var b := Begin(m.lru, pid, ticks);
        if b.hit.Some? then m.(lru := b.lru)
        else m.(lru := b.lru, inflight := m.inflight[t := (pid, ticks)])
    case Fill(t, chain) =>
      if t !in m.inflight then m
      else
        var (pid, ticks) := m.inflight[t];
        Machine(Insert(m.lru, pid, ticks, chain), m.inflight - {t}, m.inserted + {(pid, ticks, chain)})
  }

  function Start(capacity: nat): Machine {
    Machine(Lru(seq(capacity, _ => Slot(0, 0, Chain([], false), false)), [], Stats(0, 0, 0, 0), 0), map[], {})
  }

  ghost predicate Inv(m: Machine) {
    && WellFormed(m.lru) && |m.lru.slots| > 0
    && (forall n :: 0 <= n < |m.lru.slots| && m.lru.slots[n].inUse ==>
          (m.lru.slots[n].pid, m.lru.slots[n].ticks, m.lru.slots[n].chain) in m.inserted)
    && m.lru.stats.lookups == m.lru.stats.hits + m.lru.stats.misses
    && m.lru.stats.misses == |m.lru.order| + m.lru.stats.evictions + m.lru.drops + |m.inflight|
  }

  lemma NextKeeps(m: Machine, step: Step)
    requires Inv(m)
    ensures Inv(Next(m, step)) && |Next(m, step).lru.slots| == |m.lru.slots|
  {
    match step
    case Lookup(t, pid, ticks) =>
      BeginKeeps(m.lru, pid, ticks);
    case Fill(t, chain) =>
      if t in m.inflight {
        InsertKeeps(m.lru, m.inflight[t].0, m.inflight[t].1, chain);
        assert (m.inflight - {t}).Keys == m.inflight.Keys - {t};
        assert |m.inflight - {t}| == |m.inflight| - 1;
      }
  }

  ghost function Run(m: Machine, steps: seq<Step>): (r: Machine)
    requires Inv(m)
    ensures Inv(r) && |r.lru.slots| == |m.lru.slots|
    decreases |steps|
  {
    if steps == [] then m
    else
      NextKeeps(m, steps[0]);
      Run(Next(m, steps[0]), steps[1..])
  }

  // In every interleaving the list is duplicate-free and exactly the slots in
  // use, and every lookup and every miss is accounted for.
  lemma EveryInterleaving(capacity: nat, steps: seq<Step>)
    requires capacity > 0
    ensures Inv(Start(capacity))
    ensures var m := Run(Start(capacity), steps);
      var st := m.lru.stats;
      && WellFormed(m.lru)
      && st.lookups == st.hits + st.misses
      && st.misses == |m.lru.order| + st.evictions + m.lru.drops + |m.inflight|
  {
  }

  // A hit only ever returns a chain some thread inserted for that very pid and
  // start time.
  lemma HitWasInserted(capacity: nat, steps: seq<Step>, pid: int, ticks: nat)
    requires capacity > 0 && Inv(Start(capacity))
    requires Begin(Run(Start(capacity), steps).lru, pid, ticks).hit.Some?
    ensures var m := Run(Start(capacity), steps);
      (pid, ticks, Begin(m.lru, pid, ticks).hit.value) in m.inserted
  {
  }

  // ----- one thread: the last `capacity` distinct pids ------------------------------------

  datatype Visit = Visit(pid: int, ticks: nat)

  // one whole lookup, with nothing in between; `chain` is what /proc would give
  function Resolved(l: Lru, v: Visit, chain: Chain): Lru
    requires WellFormed(l)
    ensures |l.slots| > 0 ==> WellFormed(Resolved(l, v, chain)) && |Resolved(l, v, chain).slots| == |l.slots|
  {
    var b := Begin(l, v.pid, v.ticks);
    BeginKeeps(l, v.pid, v.ticks);
    if b.hit.Some? then b.lru
    else if |l.slots| == 0 then Insert(b.lru, v.pid, v.ticks, chain)
    else
      InsertKeeps(b.lru, v.pid, v.ticks, chain);
      Insert(b.lru, v.pid, v.ticks, chain)
  }

  function VisitsOf(slots: seq<Slot>, order: seq<nat>): (r: seq<Visit>)
    requires forall k :: 0 <= k < |order| ==> order[k] < |slots|
    ensures |r| == |order|
    ensures forall k :: 0 <= k < |r| ==> r[k] == Visit(slots[order[k]].pid, slots[order[k]].ticks)
  {
    seq(|order|, k requires 0 <= k < |order| => Visit(slots[order[k]].pid, slots[order[k]].ticks))
  }

  // the pids on the list with the start times they were cached for, newest first
  function Visits(l: Lru): seq<Visit>
    requires InRange(l)
  {
    VisitsOf(l.slots, l.order)
  }

  function DropPid(vs: seq<Visit>, pid: int): seq<Visit> {
    if vs == [] then [] else if vs[0].pid == pid then DropPid(vs[1..], pid) else [vs[0]] + DropPid(vs[1..], pid)
  }

  // a history, newest visit first, with every pid's older visits removed
  function Latest(history: seq<Visit>): seq<Visit> {
    if history == [] then [] else [history[0]] + DropPid(Latest(history[1..]), history[0].pid)
  }

  function Take(vs: seq<Visit>, n: nat): seq<Visit> {
    if |vs| <= n then vs else vs[..n]
  }

  ghost predicate DistinctPids(vs: seq<Visit>) {
    forall i, j :: 0 <= i < j < |vs| ==> vs[i].pid != vs[j].pid
  }

  lemma {:induction false} DropPidFrom(vs: seq<Visit>, pid: int)
    ensures |DropPid(vs, pid)| <= |vs|
    ensures forall k :: 0 <= k < |DropPid(vs, pid)| ==>
      DropPid(vs, pid)[k].pid != pid && exists j :: 0 <= j < |vs| && vs[j] == DropPid(vs, pid)[k]
  {
    if vs != [] {
      var rest := vs[1..];
      DropPidFrom(rest, pid);
      var kept := DropPid(rest, pid);
      forall k | 0 <= k < |kept| ensures exists j :: 0 <= j < |vs| && vs[j] == kept[k] {
        var j :| 0 <= j < |rest| && rest[j] == kept[k];
        assert vs[j + 1] == kept[k];
      }
    }
  }

  lemma {:induction false} DropPidDistinct(vs: seq<Visit>, pid: int)
    requires DistinctPids(vs)
    ensures DistinctPids(DropPid(vs, pid))
  {
    if vs != [] {
      var rest := vs[1..];
      assert forall i :: 0 <= i < |rest| ==> rest[i] == vs[i + 1];
      DropPidDistinct(rest, pid);
      DropPidFrom(rest, pid);
    }
  }

  lemma {:induction false} DropPidAbsent(vs: seq<Visit>, pid: int)
    requires forall k :: 0 <= k < |vs| ==> vs[k].pid != pid
    ensures DropPid(vs, pid) == vs
  {
    if vs != [] { DropPidAbsent(vs[1..], pid); }
  }

  lemma {:induction false} LatestDistinct(history: seq<Visit>)
    ensures DistinctPids(Latest(history))
  {
    if history != [] {
      LatestDistinct(history[1..]);
      DropPidDistinct(Latest(history[1..]), history[0].pid);
      DropPidFrom(Latest(history[1..]), history[0].pid);
    }
  }

  // dropping a pid before or after cutting the list makes no difference to its front
  lemma {:induction false} DropThenTake(vs: seq<Visit>, pid: int, n: nat)
    requires DistinctPids(vs)
    ensures Take(DropPid(Take(vs, n + 1), pid), n) == Take(DropPid(vs, pid), n)
  {
    if vs != [] && |vs| > n + 1 {
      var rest := vs[1..];
      assert forall i :: 0 <= i < |rest| ==> rest[i] == vs[i + 1];
      assert Take(vs, n + 1)[1..] == rest[..n];
      if vs[0].pid == pid {
        DropPidAbsent(rest, pid);
        DropPidAbsent(rest[..n], pid);
      } else if n > 0 {
        DropThenTake(rest, pid, n - 1);
        assert Take(rest, n) == rest[..n];
        var cut := DropPid(rest[..n], pid);
        var all := DropPid(rest, pid);
        assert Take([vs[0]] + cut, n) == [vs[0]] + Take(cut, n - 1);
        assert Take([vs[0]] + all, n) == [vs[0]] + Take(all, n - 1);
      }
    }
  }

  // The list after a lookup: the visit moves (or comes) to the front, and what
  // no longer fits leaves at the back.
  function Bumped(vs: seq<Visit>, v: Visit, capacity: nat): seq<Visit> {
    Take([v] + DropPid(vs, v.pid), capacity)
  }

  lemma TakeCons(v: Visit, vs: seq<Visit>, n: nat)
    requires n > 0
    ensures Take([v] + vs, n) == [v] + Take(vs, n - 1)
  {
  }

  lemma LatestCons(history: seq<Visit>, v: Visit)
    ensures Latest([v] + history) == [v] + DropPid(Latest(history), v.pid)
  {
    assert ([v] + history)[1..] == history;
  }

  lemma BumpedLatest(history: seq<Visit>, v: Visit, capacity: nat)
    requires capacity > 0
    ensures Bumped(Take(Latest(history), capacity), v, capacity) == Take(Latest([v] + history), capacity)
  {
    hide DropPid, Take, DistinctPids, Latest;
    var vs := Latest(history);
    LatestDistinct(history);
    LatestCons(history, v);
    DropThenTake(vs, v.pid, capacity - 1);
    TakeCons(v, DropPid(vs, v.pid), capacity);
    TakeCons(v, DropPid(Take(vs, capacity), v.pid), capacity);
  }

  lemma {:induction false} DropIsWithout(slots: seq<Slot>, order: seq<nat>, n: nat)
    requires n < |slots| && forall k :: 0 <= k < |order| ==> order[k] < |slots|
    requires forall k :: 0 <= k < |order| && slots[order[k]].pid == slots[n].pid ==> order[k] == n
    ensures forall k :: 0 <= k < |Without(order, n)| ==> Without(order, n)[k] < |slots| && Without(order, n)[k] != n
    ensures DropPid(VisitsOf(slots, order), slots[n].pid) == VisitsOf(slots, Without(order, n))
  {
    if order != [] {
      assert forall k :: 0 <= k < |order[1..]| ==> order[1..][k] == order[k + 1];
      DropIsWithout(slots, order[1..], n);
      assert VisitsOf(slots, order)[1..] == VisitsOf(slots, order[1..]);
      assert VisitsOf(slots, order) == [VisitsOf(slots, order)[0]] + VisitsOf(slots, order[1..]);
    }
  }

  lemma {:induction false} DistinctBound(xs: seq<nat>, n: nat)
    requires Distinct(xs) && forall k :: 0 <= k < |xs| ==> xs[k] < n
    ensures |xs| <= n
    ensures (exists m :: 0 <= m < n && m !in xs) ==> |xs| < n
    ensures (forall m :: 0 <= m < n ==> m in xs) ==> |xs| == n
    decreases n
  {
    hide Without;
    assert xs == [] || xs[0] < n;
    if n > 0 {
      var ys := Without(xs, n - 1);
      WithoutShape(xs, n - 1);
      assert forall k :: 0 <= k < |ys| ==> ys[k] in ys && ys[k] in xs;
      DistinctBound(ys, n - 1);
    }
  }

  lemma NoPidElsewhere(l: Lru, pid: int)
    requires WellFormed(l) && DistinctPids(Visits(l))
    ensures Find(l.slots, pid, 0).None? ==> DropPid(Visits(l), pid) == Visits(l)
    ensures Find(l.slots, pid, 0).Some? ==>
      forall k :: 0 <= k < |l.order| && l.slots[l.order[k]].pid == pid ==> l.order[k] == Find(l.slots, pid, 0).value
  {
    var found := Find(l.slots, pid, 0);
    assert forall k :: 0 <= k < |l.order| ==> l.order[k] in l.order && l.slots[l.order[k]].inUse;
    if found.None? {
      DropPidAbsent(Visits(l), pid);
    } else {
      assert found.value in l.order;
    }
  }

  lemma VisitsFrame(slots: seq<Slot>, order: seq<nat>, n: nat, slot: Slot)
    requires n < |slots| && forall k :: 0 <= k < |order| ==> order[k] < |slots| && order[k] != n
    ensures VisitsOf(slots[n := slot], order) == VisitsOf(slots, order)
  {
  }

  lemma VisitsCons(slots: seq<Slot>, order: seq<nat>, n: nat)
    requires n < |slots| && forall k :: 0 <= k < |order| ==> order[k] < |slots|
    ensures forall k :: 0 <= k < |[n] + order| ==> ([n] + order)[k] < |slots|
    ensures VisitsOf(slots, [n] + order) == [Visit(slots[n].pid, slots[n].ticks)] + VisitsOf(slots, order)
  {
  }

  lemma OccupyVisits(l: Lru, n: nat, v: Visit, chain: Chain)
    requires n < |l.slots| && forall k :: 0 <= k < |l.order| ==> l.order[k] < |l.slots| && l.order[k] != n
    ensures InRange(Occupy(l, n, v.pid, v.ticks, chain))
    ensures Visits(Occupy(l, n, v.pid, v.ticks, chain)) == [v] + VisitsOf(l.slots, l.order)
  {
    var slot := Slot(v.pid, v.ticks, chain, true);
    VisitsFrame(l.slots, l.order, n, slot);
    VisitsCons(l.slots[n := slot], l.order, n);
  }

  lemma EvictVisits(l: Lru, v: Visit, chain: Chain)
    requires InRange(l) && Distinct(l.order) && |l.order| == |l.slots| > 0 && FirstFree(l.slots, 0).None?
    ensures InRange(Insert(l, v.pid, v.ticks, chain))
    ensures Visits(Insert(l, v.pid, v.ticks, chain)) == Take([v] + Visits(l), |l.slots|)
  {
    var last := |l.order| - 1;
    var evicted := Evict(l);
    OccupyVisits(evicted, l.order[last], v, chain);
    assert VisitsOf(evicted.slots, l.order[..last]) == Visits(l)[..last];
  }

  lemma InsertBumps(l: Lru, v: Visit, chain: Chain)
    requires WellFormed(l) && |l.slots| > 0
    ensures InRange(Insert(l, v.pid, v.ticks, chain))
    ensures Visits(Insert(l, v.pid, v.ticks, chain)) == Take([v] + Visits(l), |l.slots|)
  {
    DistinctBound(l.order, |l.slots|);
    match FirstFree(l.slots, 0)
    case Some(n) =>
      assert n !in l.order;
      OccupyVisits(l, n, v, chain);
    case None => EvictVisits(l, v, chain);
  }

  lemma BeginVisits(l: Lru, v: Visit)
    requires WellFormed(l) && DistinctPids(Visits(l))
    ensures var b := Begin(l, v.pid, v.ticks);
      InRange(b.lru) && Visits(b.lru) == (if b.hit.Some? then [v] else []) + DropPid(Visits(l), v.pid)
  {
    NoPidElsewhere(l, v.pid);
    if Find(l.slots, v.pid, 0).Some? {
      var n := Find(l.slots, v.pid, 0).value;
      var rest := Without(l.order, n);
      DropIsWithout(l.slots, l.order, n);
      VisitsCons(l.slots, rest, n);
      VisitsFrame(l.slots, rest, n, l.slots[n].(inUse := false));
    }
  }

  // A lookup moves the visit to the front of the list and keeps the rest.
  lemma ResolvedBumps(l: Lru, v: Visit, chain: Chain)
    requires WellFormed(l) && |l.slots| > 0 && DistinctPids(Visits(l))
    ensures Visits(Resolved(l, v, chain)) == Bumped(Visits(l), v, |l.slots|)
  {
    var b := Begin(l, v.pid, v.ticks);
    BeginKeeps(l, v.pid, v.ticks);
    BeginVisits(l, v);
    var kept := DropPid(Visits(l), v.pid);
    if b.hit.Some? {
      ListFits(b.lru);
      assert Visits(b.lru) == [v] + kept;
    } else {
      InsertBumps(b.lru, v, chain);
      assert Visits(b.lru) == kept;
    }
  }

  lemma ListFits(l: Lru)
    requires WellFormed(l)
    ensures |l.order| <= |l.slots|
  {
    DistinctBound(l.order, |l.slots|);
  }

  datatype Request = Request(visit: Visit, chain: Chain)

  // the cache after a single-threaded history, newest request first
  function Sequential(capacity: nat, history: seq<Request>): (l: Lru)
    requires capacity > 0
    ensures WellFormed(l) && |l.slots| == capacity
  {
    if history == [] then Start(capacity).lru
    else Resolved(Sequential(capacity, history[1..]), history[0].visit, history[0].chain)
  }

  function VisitHistory(history: seq<Request>): seq<Visit> {
    if history == [] then [] else [history[0].visit] + VisitHistory(history[1..])
  }

  // In single-threaded runs the list holds exactly the last `capacity` distinct
  // pids looked up, newest first, each with the start time last seen for it.
  lemma {:induction false} HoldsLatestPids(capacity: nat, history: seq<Request>)
    requires capacity > 0
    ensures Visits(Sequential(capacity, history)) == Take(Latest(VisitHistory(history)), capacity)
  {
    if history != [] {
      var before := VisitHistory(history[1..]);
      HoldsLatestPids(capacity, history[1..]);
      LatestDistinct(before);
      ResolvedBumps(Sequential(capacity, history[1..]), history[0].visit, history[0].chain);
      BumpedLatest(before, history[0].visit, capacity);
    }
  }

  // A lookup hits exactly when the pid is on the list with that start time.
  lemma HitsExactly(l: Lru, pid: int, ticks: nat)
    requires WellFormed(l) && DistinctPids(Visits(l))
    ensures Begin(l, pid, ticks).hit.Some? <==> Visit(pid, ticks) in Visits(l)
  {
    NoPidElsewhere(l, pid);
    var found := Find(l.slots, pid, 0);
    if found.Some? {
      assert found.value in l.order;
      var k :| 0 <= k < |l.order| && l.order[k] == found.value;
      assert Visits(l)[k] == Visit(pid, l.slots[found.value].ticks);
    }
    if Visit(pid, ticks) in Visits(l) {
      var k :| 0 <= k < |l.order| && Visits(l)[k] == Visit(pid, ticks);
      assert l.order[k] in l.order && l.slots[l.order[k]].inUse;
    }
  }

  // every chain in the cache came with some request for its visit
  ghost predicate FromHistory(l: Lru, history: seq<Request>) {
    forall n: nat :: n < |l.slots| && l.slots[n].inUse ==> Requested(history, l.slots[n])
  }

  ghost predicate Requested(history: seq<Request>, slot: Slot) {
    exists k :: 0 <= k < |history| && history[k] == Request(Visit(slot.pid, slot.ticks), slot.chain)
  }

  // A lookup fills at most one slot, with its own visit and chain.
  lemma ResolvedSlots(l: Lru, v: Visit, chain: Chain, n: nat)
    requires WellFormed(l) && |l.slots| > 0 && n < |l.slots|
    requires Resolved(l, v, chain).slots[n].inUse
    ensures Resolved(l, v, chain).slots[n] in {l.slots[n], Slot(v.pid, v.ticks, chain, true)}
  {
    hide Without, Shape, Find, FirstFree;
    BeginKeeps(l, v.pid, v.ticks);
    var b := Begin(l, v.pid, v.ticks);
    assert b.lru.slots[n].inUse ==> b.lru.slots[n] == l.slots[n];
    if b.hit.None? { InsertKeeps(b.lru, v.pid, v.ticks, chain); }
  }

  lemma RequestedLater(history: seq<Request>, request: Request, slot: Slot)
    requires Requested(history, slot) || slot == Slot(request.visit.pid, request.visit.ticks, request.chain, true)
    ensures Requested([request] + history, slot)
  {
    var longer := [request] + history;
    if Requested(history, slot) {
      var k :| 0 <= k < |history| && history[k] == Request(Visit(slot.pid, slot.ticks), slot.chain);
      assert longer[k + 1] == history[k];
    } else {
      assert longer[0] == request;
    }
  }

  lemma {:induction false} ChainsFromHistory(capacity: nat, history: seq<Request>)
    requires capacity > 0
    ensures FromHistory(Sequential(capacity, history), history)
  {
    if history != [] {
      hide Resolved, Requested;
      var before, now := Sequential(capacity, history[1..]), Sequential(capacity, history);
      ChainsFromHistory(capacity, history[1..]);
      assert history == [history[0]] + history[1..];
      forall n: nat | n < |now.slots| && now.slots[n].inUse ensures Requested(history, now.slots[n]) {
        ResolvedSlots(before, history[0].visit, history[0].chain, n);
        RequestedLater(history[1..], history[0], now.slots[n]);
      }
    }
  }

  // A single-threaded lookup hits exactly when its visit is among the last
  // `capacity` distinct pids looked up, and then answers with a chain that was
  // read for that very pid and start time.
  lemma HitsLatestPids(capacity: nat, history: seq<Request>, pid: int, ticks: nat)
    requires capacity > 0
    ensures var b := Begin(Sequential(capacity, history), pid, ticks);
      && (b.hit.Some? <==> Visit(pid, ticks) in Take(Latest(VisitHistory(history)), capacity))
      && (b.hit.Some? ==> exists k :: 0 <= k < |history| && history[k] == Request(Visit(pid, ticks), b.hit.value))
  {
    var l := Sequential(capacity, history);
    HoldsLatestPids(capacity, history);
    LatestDistinct(VisitHistory(history));
    HitsExactly(l, pid, ticks);
    ChainsFromHistory(capacity, history);
    if Begin(l, pid, ticks).hit.Some? {
      assert Requested(history, l.slots[Find(l.slots, pid, 0).value]);
    }
  }

  // visit k of a history is the newest one of its pid
  ghost predicate Newest(history: seq<Visit>, k: nat) {
    k < |history| && forall i :: 0 <= i < k ==> history[i].pid != history[k].pid
  }

  // the k-th entry of `vs` is visit at[k] of the history, in the history's order
  ghost predicate Picks(vs: seq<Visit>, history: seq<Visit>, at: seq<nat>) {
    && |at| == |vs|
    && (forall k :: 0 <= k < |vs| ==> at[k] < |history| && history[at[k]] == vs[k])
    && (forall j, k :: 0 <= j < k < |vs| ==> at[j] < at[k])
  }

  lemma PicksTail(vs: seq<Visit>, history: seq<Visit>, at: seq<nat>)
    requires vs != [] && Picks(vs, history, at)
    ensures Picks(vs[1..], history, at[1..]) && at[0] < |history| && history[at[0]] == vs[0]
    ensures at == [at[0]] + at[1..] && forall x :: x in at[1..] ==> at[0] < x
  {
  }

  lemma PicksCons(v: Visit, vs: seq<Visit>, history: seq<Visit>, x: nat, at: seq<nat>)
    requires Picks(vs, history, at) && x < |history| && history[x] == v && forall y :: y in at ==> x < y
    ensures Picks([v] + vs, history, [x] + at)
  {
    assert forall k :: 0 <= k < |at| ==> at[k] in at;
  }

  lemma {:induction false} DropPidPicks(vs: seq<Visit>, pid: int, history: seq<Visit>, at: seq<nat>) returns (kept: seq<nat>)
    requires Picks(vs, history, at)
    ensures Picks(DropPid(vs, pid), history, kept)
    ensures forall x :: x in kept ==> x in at && history[x].pid != pid
    ensures forall x :: x in at && history[x].pid != pid ==> x in kept
  {
    if vs == [] {
      kept := [];
    } else {
      PicksTail(vs, history, at);
      hide Picks;
      kept := DropPidPicks(vs[1..], pid, history, at[1..]);
      if vs[0].pid != pid {
        PicksCons(vs[0], DropPid(vs[1..], pid), history, at[0], kept);
        kept := [at[0]] + kept;
      }
    }
  }

  // the same picks in a history one visit longer
  lemma PicksShift(vs: seq<Visit>, history: seq<Visit>, at: seq<nat>) returns (moved: seq<nat>)
    requires history != [] && Picks(vs, history[1..], at)
    ensures Picks(vs, history, moved) && forall x: nat :: x in moved <==> x > 0 && x - 1 in at
  {
    moved := seq(|at|, k requires 0 <= k < |at| => at[k] + 1);
    forall x: nat | x > 0 && x - 1 in at ensures x in moved {
      var j :| 0 <= j < |at| && at[j] == x - 1;
      assert moved[j] == x;
    }
  }

  // What Latest keeps of a history: the newest visit of every pid, and no other,
  // newest first.
  lemma {:induction false} LatestExact(history: seq<Visit>) returns (at: seq<nat>)
    ensures Picks(Latest(history), history, at)
    ensures forall k: nat :: k in at <==> Newest(history, k)
  {
    if history == [] {
      at := [];
    } else {
      var rest := history[1..];
      var was := LatestExact(rest);
      hide Newest;
      var kept := DropPidPicks(Latest(rest), history[0].pid, rest, was);
      var moved := PicksShift(DropPid(Latest(rest), history[0].pid), history, kept);
      PicksCons(history[0], DropPid(Latest(rest), history[0].pid), history, 0, moved);
      at := [0] + moved;
      forall k: nat ensures k in at <==> Newest(history, k) {
        if k > 0 { NewestShift(history, k); } else { FirstIsNewest(history); }
      }
    }
  }

  lemma FirstIsNewest(history: seq<Visit>)
    requires history != []
    ensures Newest(history, 0)
  {
  }

  lemma NewestShift(history: seq<Visit>, k: nat)
    requires history != [] && k > 0
    ensures Newest(history, k) <==> Newest(history[1..], k - 1) && history[k].pid != history[0].pid
  {
    if k < |history| {
      if Newest(history[1..], k - 1) && history[k].pid != history[0].pid {
        forall i | 0 <= i < k ensures history[i].pid != history[k].pid {
          if i > 0 { assert history[1..][i - 1] == history[i]; }
        }
      }
      if Newest(history, k) {
        forall i | 0 <= i < k - 1 ensures history[1..][i].pid != history[1..][k - 1].pid {
          assert history[1..][i] == history[i + 1];
        }
      }
    }
  }

  // ----- the linked slots -----------------------------------------------------------------

  // prev and next are slot numbers; -1 is the null pointer.
  datatype Node = Node(slot: Slot, prev: int, next: int)

  function Slots(nodes: seq<Node>): (r: seq<Slot>)
    ensures |r| == |nodes|
    ensures forall i :: 0 <= i < |r| ==> r[i] == nodes[i].slot
  {
    seq(|nodes|, i requires 0 <= i < |nodes| => nodes[i].slot)
  }

  lemma {:induction false} WithoutAt(xs: seq<nat>, k: nat)
    requires Distinct(xs) && k < |xs|
    ensures Without(xs, xs[k]) == xs[..k] + xs[k + 1..]
  {
    var rest := xs[1..];
    assert forall i :: 0 <= i < |rest| ==> rest[i] == xs[i + 1];
    if k == 0 {
      WithoutAbsent(rest, xs[0]);
    } else {
      WithoutAt(rest, k - 1);
      assert xs[..k] == [xs[0]] + rest[..k - 1];
      assert xs[k + 1..] == rest[k..];
    }
  }

  lemma {:induction false} WithoutAbsent(xs: seq<nat>, n: nat)
    requires n !in xs
    ensures Without(xs, n) == xs
  {
    if xs != [] {
      assert forall x :: x in xs[1..] ==> x in xs;
      WithoutAbsent(xs[1..], n);
    }
  }

  function Before(order: seq<nat>, k: nat): int
    requires k < |order|
  {
    if k == 0 then -1 else order[k - 1]
  }

  function After(order: seq<nat>, k: nat): int
    requires k < |order|
  {
    if k + 1 == |order| then -1 else order[k + 1]
  }

  ghost predicate Linked(nodes: seq<Node>, order: seq<nat>, head: int, tail: int) {
    && Distinct(order)
    && (forall k :: 0 <= k < |order| ==> order[k] < |nodes|)
    && head == (if order == [] then -1 else order[0])
    && tail == (if order == [] then -1 else order[|order| - 1])
    && (forall k {:trigger nodes[order[k]]} :: 0 <= k < |order| ==>
          nodes[order[k]].prev == Before(order, k) && nodes[order[k]].next == After(order, k))
  }

  // nodes' is nodes with slot n taken out from between `before` and `after`
  ghost predicate Bypassed(nodes: seq<Node>, nodes': seq<Node>, before: int, n: nat, after: int) {
    && |nodes'| == |nodes|
    && forall m :: 0 <= m < |nodes| ==>
         && nodes'[m].slot == nodes[m].slot
         && (m != n ==> nodes'[m].next == if m == before then after else nodes[m].next)
         && (m != n ==> nodes'[m].prev == if m == after then before else nodes[m].prev)
  }

  // where the order after a removal at k comes from
  lemma RemovedAt(order: seq<nat>, k: nat, j: nat)
    requires Distinct(order) && k < |order| && j + 1 < |order|
    ensures var order', i := order[..k] + order[k + 1..], if j < k then j else j + 1;
      && |order'| + 1 == |order| && order'[j] == order[i] != order[k]
      && Before(order', j) == (if i == k + 1 then Before(order, k) else Before(order, i))
      && After(order', j) == (if i + 1 == k then After(order, k) else After(order, i))
  {
  }

  lemma LinkedAt(nodes: seq<Node>, order: seq<nat>, head: int, tail: int, k: nat)
    requires Linked(nodes, order, head, tail) && k < |order|
    ensures Distinct(order) && order[k] < |nodes|
    ensures nodes[order[k]].prev == Before(order, k) && nodes[order[k]].next == After(order, k)
    ensures -1 <= Before(order, k) < |nodes| && (Before(order, k) == -1 <==> k == 0)
    ensures -1 <= After(order, k) < |nodes| && (After(order, k) == -1 <==> k + 1 == |order|)
    ensures Before(order, k) != order[k] && After(order, k) != order[k]
    ensures (k == 0 ==> head == order[k]) && (k + 1 == |order| ==> tail == order[k])
  {
  }

  lemma RemovedDistinct(order: seq<nat>, k: nat)
    requires Distinct(order) && k < |order|
    ensures Distinct(order[..k] + order[k + 1..])
  {
    var order' := order[..k] + order[k + 1..];
    assert forall j :: 0 <= j < |order'| ==> order'[j] == order[if j < k then j else j + 1];
  }

  lemma OnlyNeighbours(order: seq<nat>, k: nat, i: nat)
    requires Distinct(order) && k < |order| && i < |order|
    ensures order[i] == Before(order, k) <==> i + 1 == k
    ensures order[i] == After(order, k) <==> i == k + 1
  {
  }

  lemma UnlinkedNode(nodes: seq<Node>, order: seq<nat>, head: int, tail: int, k: nat, nodes': seq<Node>, j: nat)
    requires Linked(nodes, order, head, tail) && k < |order| && j + 1 < |order|
    requires Bypassed(nodes, nodes', Before(order, k), order[k], After(order, k))
    ensures var order' := order[..k] + order[k + 1..];
      && order'[j] < |nodes'|
      && nodes'[order'[j]].prev == Before(order', j) && nodes'[order'[j]].next == After(order', j)
  {
    hide Linked, Distinct;
    var i := if j < k then j else j + 1;
    LinkedAt(nodes, order, head, tail, k);
    LinkedAt(nodes, order, head, tail, i);
    OnlyNeighbours(order, k, i);
    RemovedAt(order, k, j);
  }

  lemma UnlinkedAt(nodes: seq<Node>, order: seq<nat>, head: int, tail: int, k: nat, nodes': seq<Node>)
    requires Linked(nodes, order, head, tail) && k < |order|
    requires Bypassed(nodes, nodes', Before(order, k), order[k], After(order, k))
    ensures Linked(nodes', order[..k] + order[k + 1..],
                   if k > 0 then head else After(order, k), if k + 1 < |order| then tail else Before(order, k))
    ensures Slots(nodes') == Slots(nodes)
  {
    hide Bypassed, Distinct;
    SameSlots(nodes, nodes', Before(order, k), order[k], After(order, k));
    RemovedDistinct(order, k);
    var order' := order[..k] + order[k + 1..];
    forall j | 0 <= j < |order'|
      ensures order'[j] < |nodes'|
      ensures nodes'[order'[j]].prev == Before(order', j) && nodes'[order'[j]].next == After(order', j)
    {
      UnlinkedNode(nodes, order, head, tail, k, nodes', j);
    }
  }

  lemma SameSlots(nodes: seq<Node>, nodes': seq<Node>, before: int, n: nat, after: int)
    requires Bypassed(nodes, nodes', before, n, after)
    ensures Slots(nodes') == Slots(nodes)
  {
  }

  // nodes' is nodes with slot n put in front of `head`
  ghost predicate Prepended(nodes: seq<Node>, nodes': seq<Node>, n: nat, head: int) {
    && |nodes'| == |nodes| && n < |nodes|
    && nodes'[n].prev == -1 && nodes'[n].next == head
    && forall m :: 0 <= m < |nodes| ==>
         && nodes'[m].slot == nodes[m].slot
         && (m != n ==> nodes'[m].next == nodes[m].next)
         && (m != n ==> nodes'[m].prev == if m == head then n else nodes[m].prev)
  }

  lemma PushedNode(nodes: seq<Node>, order: seq<nat>, head: int, tail: int, n: nat, nodes': seq<Node>, j: nat)
    requires Linked(nodes, order, head, tail) && n !in order && Prepended(nodes, nodes', n, head)
    requires j <= |order|
    ensures var order' := [n] + order;
      && order'[j] < |nodes'|
      && nodes'[order'[j]].prev == Before(order', j) && nodes'[order'[j]].next == After(order', j)
  {
    if j > 0 {
      LinkedAt(nodes, order, head, tail, j - 1);
      LinkedAt(nodes, order, head, tail, 0);
      OnlyNeighbours(order, 0, j - 1);
      assert order[j - 1] == head <==> j == 1;
      assert order[j - 1] != n;
    }
  }

  lemma PrependedSlots(nodes: seq<Node>, nodes': seq<Node>, n: nat, head: int)
    requires Prepended(nodes, nodes', n, head)
    ensures Slots(nodes') == Slots(nodes)
  {
  }

  lemma ConsDistinct(order: seq<nat>, n: nat)
    requires Distinct(order) && n !in order
    ensures Distinct([n] + order)
  {
  }

  lemma PushedFront(nodes: seq<Node>, order: seq<nat>, head: int, tail: int, n: nat, nodes': seq<Node>)
    requires Linked(nodes, order, head, tail) && n !in order && Prepended(nodes, nodes', n, head)
    ensures Linked(nodes', [n] + order, n, if order == [] then n else tail)
    ensures Slots(nodes') == Slots(nodes)
  {
    hide Prepended, Distinct;
    PrependedSlots(nodes, nodes', n, head);
    ConsDistinct(order, n);
    var order' := [n] + order;
    forall j | 0 <= j < |order'|
      ensures order'[j] < |nodes'|
      ensures nodes'[order'[j]].prev == Before(order', j) && nodes'[order'[j]].next == After(order', j)
    {
      PushedNode(nodes, order, head, tail, n, nodes', j);
    }
  }

  class Cache {
    const nodes: array<Node>
    var head: int
    var tail: int
    var count: nat
    var stats: Stats
    ghost var order: seq<nat>
    ghost var drops: nat

    ghost function Contents(): Lru
      reads this, nodes
    {
      Lru(Slots(nodes[..]), order, stats, drops)
    }

    ghost predicate Valid()
      reads this, nodes
    {
      Linked(nodes[..], order, head, tail) && Shape(Slots(nodes[..]), order) && count == |order|
    }

    constructor (capacity: nat)
      ensures Valid() && fresh(nodes) && Contents() == Start(capacity).lru
    {
      nodes := new Node[capacity](_ => Node(Slot(0, 0, Chain([], false), false), -1, -1));
      head, tail, count := -1, -1, 0;
      stats := Stats(0, 0, 0, 0);
      order, drops := [], 0;
    }

    // lru_unlink
    method Unlink(n: nat)
      requires Linked(nodes[..], order, head, tail) && n in order
      modifies this`head, this`tail, this`order, nodes
      ensures Linked(nodes[..], order, head, tail) && order == Without(old(order), n)
      ensures Slots(nodes[..]) == old(Slots(nodes[..]))
    {
      hide Linked, Without;
      ghost var k :| 0 <= k < |order| && order[k] == n;
      LinkedAt(nodes[..], order, head, tail, k);
      WithoutAt(order, k);
      var node := nodes[n];
      if node.prev >= 0 {
        nodes[node.prev] := nodes[node.prev].(next := node.next);
      } else {
        head := node.next;
      }
      if node.next >= 0 {
        nodes[node.next] := nodes[node.next].(prev := node.prev);
      } else {
        tail := node.prev;
      }
      nodes[n] := nodes[n].(prev := -1, next := -1);
      assert Bypassed(old(nodes[..]), nodes[..], node.prev, n, node.next);
      UnlinkedAt(old(nodes[..]), order, old(head), old(tail), k, nodes[..]);
      order := order[..k] + order[k + 1..];
    }

    // lru_push_front
    method PushFront(n: nat)
      requires Linked(nodes[..], order, head, tail) && n < nodes.Length && n !in order
      modifies this`head, this`tail, this`order, nodes
      ensures Linked(nodes[..], order, head, tail) && order == [n] + old(order)
      ensures Slots(nodes[..]) == old(Slots(nodes[..]))
    {
      nodes[n] := nodes[n].(prev := -1, next := head);
      if head >= 0 {
        nodes[head] := nodes[head].(prev := n);
      }
      head := n;
      if tail < 0 { tail := n; }
      PushedFront(old(nodes[..]), order, old(head), old(tail), n, nodes[..]);
      order := [n] + order;
    }

    method SetSlot(n: nat, slot: Slot)
      requires Linked(nodes[..], order, head, tail) && n < nodes.Length
      modifies nodes
      ensures Linked(nodes[..], order, head, tail) && Slots(nodes[..]) == old(Slots(nodes[..]))[n := slot]
    {
      nodes[n] := nodes[n].(slot := slot);
    }

    method FindNode(pid: int) returns (r: Option<nat>)
      requires Valid()
      ensures r == Find(Contents().slots, pid, 0)
      ensures r.Some? ==> r.value in order && r.value < nodes.Length
      ensures r.Some? ==> nodes[r.value].slot == Contents().slots[r.value]
    {
      for i := 0 to nodes.Length
        invariant Find(Slots(nodes[..]), pid, 0) == Find(Slots(nodes[..]), pid, i)
      {
        if nodes[i].slot.inUse && nodes[i].slot.pid == pid { return Some(i); }
      }
      r := None;
    }

    method EvictTail() returns (victim: nat)
      requires Valid() && order != []
      modifies this, nodes
      ensures Valid() && Contents() == Evict(old(Contents())) && victim == old(order)[|old(order)| - 1]
    {
      hide Linked, Without;
      EvictKeeps(Contents());
      LinkedAt(nodes[..], order, head, tail, |order| - 1);
      WithoutAt(order, |order| - 1);
      victim := tail;
      Unlink(victim);
      SetSlot(victim, nodes[victim].slot.(inUse := false));
      assert Slots(nodes[..]) == Evict(old(Contents())).slots;
      count := count - 1;
      stats := stats.(evictions := stats.evictions + 1);
    }

    // cache_alloc_slot: a free slot, else the evicted tail; None only without slots
    method AllocSlot() returns (r: Option<nat>)
      requires Valid()
      modifies this, nodes
      ensures Valid()
      ensures match FirstFree(old(Contents()).slots, 0)
        case Some(n) => r == Some(n) && Contents() == old(Contents())
        case None =>
          if old(order) == [] then r == None && Contents() == old(Contents())
          else Contents() == Evict(old(Contents())) && r == Some(old(order)[|old(order)| - 1])
    {
      for i := 0 to nodes.Length
        invariant FirstFree(Slots(nodes[..]), 0) == FirstFree(Slots(nodes[..]), i)
      {
        if !nodes[i].slot.inUse { return Some(i); }
      }
      if tail < 0 { return None; }
      var victim := EvictTail();
      r := Some(victim);
    }

    method Hit(n: nat)
      requires Valid() && n in order
      modifies this`head, this`tail, this`order, this`stats, nodes
      ensures Valid()
      ensures Contents() == Front(old(Contents()), n).(stats := old(stats).(lookups := old(stats).lookups + 1, hits := old(stats).hits + 1))
    {
      hide Linked;
      FrontKeeps(Contents(), n);
      assert n !in Without(order, n);
      Unlink(n);
      PushFront(n);
      stats := stats.(lookups := stats.lookups + 1, hits := stats.hits + 1);
      assert Slots(nodes[..]) == old(Contents()).slots;
    }

    method DropReused(n: nat)
      requires Valid() && n in order
      modifies this, nodes
      ensures Valid() && n < nodes.Length
      ensures Contents() == Dropped(old(Contents()), n).(
        stats := old(stats).(lookups := old(stats).lookups + 1, misses := old(stats).misses + 1), drops := old(drops) + 1)
    {
      hide Linked;
      DroppedKeeps(Contents(), n);
      Unlink(n);
      SetSlot(n, nodes[n].slot.(inUse := false));
      assert Slots(nodes[..]) == Dropped(old(Contents()), n).slots;
      count := count - 1;
      drops := drops + 1;
      stats := stats.(lookups := stats.lookups + 1, misses := stats.misses + 1);
    }

    method CountMiss()
      requires Valid()
      modifies this`stats
      ensures Valid() && Contents() == old(Contents()).(stats := old(stats).(lookups := old(stats).lookups + 1, misses := old(stats).misses + 1))
    {
      stats := stats.(lookups := stats.lookups + 1, misses := stats.misses + 1);
    }

    // the first locked section of ig_pa_resolve_cached
    method LookupSection(pid: int, ticks: nat) returns (hit: Option<Chain>)
      requires Valid()
      modifies this, nodes
      ensures Valid() && Begun(Contents(), hit) == Begin(old(Contents()), pid, ticks)
    {
      hide Linked, Shape;
      var found := FindNode(pid);
      if found.None? {
        CountMiss();
        hit := None;
      } else if nodes[found.value].slot.ticks == ticks {
        hit := Some(nodes[found.value].slot.chain);
        Hit(found.value);
      } else {
        DropReused(found.value);
        hit := None;
      }
    }

    method Fill(n: nat, pid: int, ticks: nat, chain: Chain)
      requires Valid() && n < nodes.Length && !nodes[n].slot.inUse
      modifies this, nodes
      ensures Valid() && Contents() == Occupy(old(Contents()), n, pid, ticks, chain)
    {
      hide Linked;
      OccupyKeeps(Contents(), n, pid, ticks, chain);
      SetSlot(n, Slot(pid, ticks, chain, true));
      assert Slots(nodes[..]) == old(Contents()).slots[n := Slot(pid, ticks, chain, true)];
      PushFront(n);
      count := count + 1;
    }

    // the second locked section
    method InsertSection(pid: int, ticks: nat, chain: Chain)
      requires Valid()
      modifies this, nodes
      ensures Valid() && Contents() == Insert(old(Contents()), pid, ticks, chain)
    {
      ghost var before := Contents();
      var slot := AllocSlot();
      if slot.Some? {
        assert !Contents().slots[slot.value].inUse by {
          if FirstFree(before.slots, 0).None? { EvictKeeps(before); }
        }
        Fill(slot.value, pid, ticks, chain);
      }
    }

    // ig_pa_resolve_cached without interference: `ticks` is what the probe of
    // /proc/<pid>/stat gave, None when the process is gone.
    method ResolveCached(src: Source, pid: int, ticks: Option<nat>) returns (out: Chain)
      requires Valid()
      modifies this, nodes
      ensures Valid()
      ensures var full := if pid <= 0 then Chain([], false) else Walk(src, pid, 0, MAX_DEPTH);
        if nodes.Length == 0 then out == full && Contents() == old(Contents())
        else if ticks.None? then out == Chain([], false) && Contents() == old(Contents())
        else
          && Contents() == Resolved(old(Contents()), Visit(pid, ticks.value), full)
          && out == match Begin(old(Contents()), pid, ticks.value).hit case Some(c) => c case None => full
    {
      if nodes.Length == 0 {
        out := Resolve(src, pid);
        return;
      }
      if ticks.None? { return Chain([], false); }
      var hit := LookupSection(pid, ticks.value);
      if hit.Some? { return hit.value; }
      out := Resolve(src, pid);
      InsertSection(pid, ticks.value, out);
    }
  }
}
