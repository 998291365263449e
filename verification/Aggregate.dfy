// The report's numbers, counted from raw events in one pass, and the skeleton
// (matrix, incidents, glossary) that patches are later applied to.

module Aggregate {
  import opened Prelude
  import opened Ordered
  import opened Mitre
  import opened Assemble

  datatype Profile = Profile(severity: Severity, category: string, mitre: seq<string>)

  datatype Moment = Moment(day: int, time: int)

  // `evidence` is what _process_techniques infers from the event's process chain
  datatype Event = Event(path: string, agentId: string, blocked: bool, at: Option<Moment>, evidence: seq<string>)

  // the path rules, the agents' host names, and the days of the range
  datatype Context = Context(classify: string -> Profile, names: map<string, string>, first: int, days: nat)

  // _day_labels: every day from start to end, at most the last 31
  function DayLabels(start: int, end: int): (r: (int, nat))
    ensures 0 < r.1 <= 31 && (start <= end ==> r.0 + r.1 == end + 1)
    ensures start <= end < start + 31 ==> r == (start, end - start + 1)
    ensures start + 31 <= end ==> r.1 == 31
    ensures end < start ==> r == (start, 1)
  {
    var n := if end - start < 0 then 0 else end - start;
    if n + 1 > 31 then (start + n + 1 - 31, 31) else (start, n + 1)
  }

  function Rank(s: Severity): (r: nat)
    ensures r < 4
  {
    match s case Critical => 0 case High => 1 case Medium => 2 case Low => 3
  }

  function HostOf(ctx: Context, ev: Event): string {
    if ev.agentId in ctx.names then ctx.names[ev.agentId]
    else if ev.agentId != "" then ev.agentId
    else "unknown"
  }

  function SeverityOf(ctx: Context, ev: Event): Severity {
    ctx.classify(ev.path).severity
  }

  // position of the event's day in the report, if it is one of its days
  function DayOf(ctx: Context, ev: Event): (d: Option<nat>)
    ensures d.Some? ==> d.value < ctx.days
  {
    if ev.at.Some? && ctx.first <= ev.at.value.day < ctx.first + ctx.days then Some(ev.at.value.day - ctx.first) else None
  }

  // _event_mitre
  function EventMitre(ctx: Context, ev: Event): seq<string> {
    Deduped(ctx.classify(ev.path).mitre + ev.evidence)
  }

  // What is counted of an event: its rank, its day, its host and its techniques.
  lemma EventFacts(ctx: Context, ev: Event)
    ensures Rank(Critical) == 0 && Rank(High) == 1 && Rank(Medium) == 2 && Rank(Low) == 3
    ensures DayOf(ctx, ev).Some? <==> ev.at.Some? && ctx.first <= ev.at.value.day < ctx.first + ctx.days
    ensures DayOf(ctx, ev).Some? ==> ev.at.value.day == ctx.first + DayOf(ctx, ev).value
    ensures ev.agentId in ctx.names ==> HostOf(ctx, ev) == ctx.names[ev.agentId]
    ensures ev.agentId !in ctx.names ==> HostOf(ctx, ev) == (if ev.agentId != "" then ev.agentId else "unknown")
    ensures forall t :: t in EventMitre(ctx, ev) <==> t != "" && (t in ctx.classify(ev.path).mitre || t in ev.evidence)
  {
  }

  // ----- the counters -------------------------------------------------------------------------

  // Indexed by severity rank, and by day, where a list; by name where a tally.
  datatype Counters = Counters(
    severity: seq<nat>, category: Tally, critical: map<string, bool>, hostBlocked: Tally, hostUnblocked: Tally, tech: Tally,
    blocked: seq<seq<nat>>, dailyTotal: seq<nat>, dailyBlocked: seq<nat>, dailyUnblocked: seq<nat>, dailyCrit: seq<nat>)

  predicate Shaped(c: Counters, days: nat) {
    && |c.severity| == 4 && |c.blocked| == 4 && (forall r :: 0 <= r < 4 ==> |c.blocked[r]| == days)
    && |c.dailyTotal| == days && |c.dailyBlocked| == days && |c.dailyUnblocked| == days && |c.dailyCrit| == days
  }

  function Zeros(n: nat): seq<nat> {
    seq(n, _ => 0)
  }

  function NoCounts(days: nat): (c: Counters)
    ensures Shaped(c, days)
  {
    Counters(Zeros(4), [], map[], [], [], [], seq(4, _ => Zeros(days)), Zeros(days), Zeros(days), Zeros(days), Zeros(days))
  }

  // does the category have a Critical event so far?
  predicate IsCritical(flags: map<string, bool>, k: string) {
    k in flags && flags[k]
  }

  function Flagged(flags: map<string, bool>, k: string, critical: bool): map<string, bool> {
    flags[k := IsCritical(flags, k) || critical]
  }

  function Up(xs: seq<nat>, i: nat): seq<nat>
    requires i < |xs|
  {
    xs[i := xs[i] + 1]
  }

  function OnDay(c: Counters, days: nat, rank: nat, blocked: bool, d: nat): (r: Counters)
    requires Shaped(c, days) && rank < 4 && d < days
    ensures Shaped(r, days)
  {
    var c1 := if blocked
              then c.(blocked := c.blocked[rank := Up(c.blocked[rank], d)], dailyBlocked := Up(c.dailyBlocked, d))
              else c.(dailyUnblocked := Up(c.dailyUnblocked, d));
    c1.(dailyTotal := Up(c.dailyTotal, d), dailyCrit := if rank == 0 then Up(c.dailyCrit, d) else c.dailyCrit)
  }

  function Counted(c: Counters, ctx: Context, ev: Event): (r: Counters)
    requires Shaped(c, ctx.days)
    ensures Shaped(r, ctx.days)
  {
    if ev.path == "" then c
    else
      var rank := Rank(SeverityOf(ctx, ev));
      var host := HostOf(ctx, ev);
      var c1 := c.(severity := Up(c.severity, rank), category := Bump(c.category, ctx.classify(ev.path).category),
                   critical := Flagged(c.critical, ctx.classify(ev.path).category, rank == 0),
                   hostBlocked := if ev.blocked then Bump(c.hostBlocked, host) else c.hostBlocked,
                   hostUnblocked := if ev.blocked then c.hostUnblocked else Bump(c.hostUnblocked, host),
                   tech := TallyAll(c.tech, EventMitre(ctx, ev)));
      match DayOf(ctx, ev)
      case None => c1
      case Some(d) => OnDay(c1, ctx.days, rank, ev.blocked, d)
  }

  function CountAll(ctx: Context, events: seq<Event>): (c: Counters)
    ensures Shaped(c, ctx.days)
  {
    if events == [] then NoCounts(ctx.days)
    else Counted(CountAll(ctx, events[..|events| - 1]), ctx, events[|events| - 1])
  }

  // the loop of build_skeleton
  method CountEvents(ctx: Context, events: seq<Event>) returns (c: Counters)
    ensures c == CountAll(ctx, events)
  {
    var severity, category, critical, hostBlocked, hostUnblocked, tech := Zeros(4), [], map[], [], [], [];
    var blocked := seq(4, _ => Zeros(ctx.days));
    var total, dayBlocked, dayUnblocked, crit := Zeros(ctx.days), Zeros(ctx.days), Zeros(ctx.days), Zeros(ctx.days);
    for i := 0 to |events|
      invariant Counters(severity, category, critical, hostBlocked, hostUnblocked, tech, blocked, total, dayBlocked, dayUnblocked, crit)
             == CountAll(ctx, events[..i])
    {
      hide Bump, TallyAll, EventMitre;
      var ev := events[i];
      assert events[..i + 1][..i] == events[..i];
      if ev.path == "" { continue; }
      var prof := ctx.classify(ev.path);
      var sev := Rank(prof.severity);
      severity := Up(severity, sev);
      category := Bump(category, prof.category);
      critical := critical[prof.category := (prof.category in critical && critical[prof.category]) || sev == 0];
      var host := HostOf(ctx, ev);
      if ev.blocked {
        hostBlocked := Bump(hostBlocked, host);
      } else {
        hostUnblocked := Bump(hostUnblocked, host);
      }
      tech := TallyAll(tech, EventMitre(ctx, ev));
      var d := DayOf(ctx, ev);
      if d.Some? {
        if ev.blocked {
          blocked := blocked[sev := Up(blocked[sev], d.value)];
          dayBlocked := Up(dayBlocked, d.value);
        } else {
          dayUnblocked := Up(dayUnblocked, d.value);
        }
        total := Up(total, d.value);
        if sev == 0 { crit := Up(crit, d.value); }
      }
    }
    assert events[..|events|] == events;
    c := Counters(severity, category, critical, hostBlocked, hostUnblocked, tech, blocked, total, dayBlocked, dayUnblocked, crit);
  }

  // ----- what the counters mean ------------------------------------------------------------------

  ghost function CountIf(events: seq<Event>, p: Event -> bool): nat {
    if events == [] then 0
    else CountIf(events[..|events| - 1], p) + if p(events[|events| - 1]) then 1 else 0
  }

  function HasPath(): Event -> bool {
    (ev: Event) => ev.path != ""
  }

  function OfSeverity(ctx: Context, r: nat): Event -> bool {
    (ev: Event) => ev.path != "" && Rank(SeverityOf(ctx, ev)) == r
  }

  function OfCategory(ctx: Context, k: string): Event -> bool {
    (ev: Event) => ev.path != "" && ctx.classify(ev.path).category == k
  }

  function AtHost(ctx: Context, h: string, blocked: bool): Event -> bool {
    (ev: Event) => ev.path != "" && HostOf(ctx, ev) == h && ev.blocked == blocked
  }

  function Bucket(ctx: Context, r: nat, d: nat): Event -> bool {
    (ev: Event) => ev.path != "" && ev.blocked && Rank(SeverityOf(ctx, ev)) == r && DayOf(ctx, ev) == Some(d)
  }

  function Naming(ctx: Context, t: string): Event -> bool {
    (ev: Event) => ev.path != "" && t in EventMitre(ctx, ev)
  }

  function OnDate(ctx: Context, d: nat): Event -> bool {
    (ev: Event) => ev.path != "" && DayOf(ctx, ev) == Some(d)
  }

  function BlockedOn(ctx: Context, d: nat, blocked: bool): Event -> bool {
    (ev: Event) => ev.path != "" && DayOf(ctx, ev) == Some(d) && ev.blocked == blocked
  }

  function CriticalOn(ctx: Context, d: nat): Event -> bool {
    (ev: Event) => ev.path != "" && DayOf(ctx, ev) == Some(d) && SeverityOf(ctx, ev) == Critical
  }

  predicate CriticalIn(ctx: Context, k: string, ev: Event) {
    ev.path != "" && ctx.classify(ev.path).category == k && SeverityOf(ctx, ev) == Critical
  }

  ghost predicate SeesCritical(ctx: Context, events: seq<Event>, k: string) {
    exists i :: 0 <= i < |events| && CriticalIn(ctx, k, events[i])
  }

  // Every cell counts exactly the events it is for, and a category is flagged
  // exactly when one of its events is Critical.
  lemma CellsExact(ctx: Context, events: seq<Event>, r: nat, d: nat, k: string)
    requires r < 4 && d < ctx.days
    ensures var c := CountAll(ctx, events);
      && c.severity[r] == CountIf(events, OfSeverity(ctx, r))
      && c.blocked[r][d] == CountIf(events, Bucket(ctx, r, d))
      && Get(c.category, k) == CountIf(events, OfCategory(ctx, k))
      && Get(c.hostBlocked, k) == CountIf(events, AtHost(ctx, k, true))
      && Get(c.hostUnblocked, k) == CountIf(events, AtHost(ctx, k, false))
      && (IsCritical(c.critical, k) <==> SeesCritical(ctx, events, k))
    ensures var c := CountAll(ctx, events);
      && c.dailyTotal[d] == CountIf(events, OnDate(ctx, d))
      && c.dailyBlocked[d] == CountIf(events, BlockedOn(ctx, d, true))
      && c.dailyUnblocked[d] == CountIf(events, BlockedOn(ctx, d, false))
      && c.dailyCrit[d] == CountIf(events, CriticalOn(ctx, d))
  {
    hide CountAll, Counted;
    NamedCells(ctx, events, r, d, k);
    DayCells(ctx, events, d);
    FlagsExact(ctx, events, k);
  }

  lemma {:induction false} NamedCells(ctx: Context, events: seq<Event>, r: nat, d: nat, k: string)
    requires r < 4 && d < ctx.days
    ensures var c := CountAll(ctx, events);
      && c.severity[r] == CountIf(events, OfSeverity(ctx, r))
      && c.blocked[r][d] == CountIf(events, Bucket(ctx, r, d))
      && Get(c.category, k) == CountIf(events, OfCategory(ctx, k))
      && Get(c.hostBlocked, k) == CountIf(events, AtHost(ctx, k, true))
      && Get(c.hostUnblocked, k) == CountIf(events, AtHost(ctx, k, false))
  {
    hide Bump, TallyAll, EventMitre, Get, Flagged, HostOf;
    if events == [] {
      GetNothing(k);
    } else {
      var front, last := events[..|events| - 1], events[|events| - 1];
      NamedCells(ctx, front, r, d, k);
      var c := CountAll(ctx, front);
      BumpCounts(c.category, ctx.classify(last.path).category, k);
      BumpCounts(c.hostBlocked, HostOf(ctx, last), k);
      BumpCounts(c.hostUnblocked, HostOf(ctx, last), k);
    }
  }

  lemma {:induction false} DayCells(ctx: Context, events: seq<Event>, d: nat)
    requires d < ctx.days
    ensures var c := CountAll(ctx, events);
      && c.dailyTotal[d] == CountIf(events, OnDate(ctx, d))
      && c.dailyBlocked[d] == CountIf(events, BlockedOn(ctx, d, true))
      && c.dailyUnblocked[d] == CountIf(events, BlockedOn(ctx, d, false))
      && c.dailyCrit[d] == CountIf(events, CriticalOn(ctx, d))
  {
    hide Bump, TallyAll, EventMitre, HostOf, Flagged;
    if events != [] { DayCells(ctx, events[..|events| - 1], d); }
  }

  lemma {:induction false} FlagsExact(ctx: Context, events: seq<Event>, k: string)
    ensures IsCritical(CountAll(ctx, events).critical, k) <==> SeesCritical(ctx, events, k)
  {
    hide Counted, SeesCritical;
    if events == [] {
      SeesNothing(ctx, k);
    } else {
      var front, last := events[..|events| - 1], events[|events| - 1];
      FlagsExact(ctx, front, k);
      SeesSnoc(ctx, events, k);
      FlagStep(CountAll(ctx, front), ctx, last, k);
    }
  }

  lemma FlagStep(c: Counters, ctx: Context, ev: Event, k: string)
    requires Shaped(c, ctx.days)
    ensures IsCritical(Counted(c, ctx, ev).critical, k) <==> IsCritical(c.critical, k) || CriticalIn(ctx, k, ev)
  {
    hide Bump, TallyAll, EventMitre, HostOf;
  }

  lemma SeesNothing(ctx: Context, k: string)
    ensures !SeesCritical(ctx, [], k)
  {
  }

  lemma SeesSnoc(ctx: Context, events: seq<Event>, k: string)
    requires events != []
    ensures SeesCritical(ctx, events, k) <==>
      SeesCritical(ctx, events[..|events| - 1], k) || CriticalIn(ctx, k, events[|events| - 1])
  {
    hide CriticalIn;
    var front := events[..|events| - 1];
    if SeesCritical(ctx, front, k) {
      var i :| 0 <= i < |front| && CriticalIn(ctx, k, front[i]);
      assert CriticalIn(ctx, k, events[i]);
    }
    if SeesCritical(ctx, events, k) && !CriticalIn(ctx, k, events[|events| - 1]) {
      var i :| 0 <= i < |events| && CriticalIn(ctx, k, events[i]);
      assert CriticalIn(ctx, k, front[i]);
    }
  }

  lemma GetNothing(k: string)
    ensures Get([], k) == 0 && Total([]) == 0
  {
  }

  // the technique counter on its own
  function TechTally(ctx: Context, events: seq<Event>): Tally {
    if events == [] then []
    else
      var before, last := TechTally(ctx, events[..|events| - 1]), events[|events| - 1];
      if last.path == "" then before else TallyAll(before, EventMitre(ctx, last))
  }

  lemma {:induction false} TechCounter(ctx: Context, events: seq<Event>)
    ensures CountAll(ctx, events).tech == TechTally(ctx, events)
  {
    hide TallyAll, EventMitre, Bump;
    if events != [] { TechCounter(ctx, events[..|events| - 1]); }
  }

  ghost predicate Named(ctx: Context, events: seq<Event>, t: string) {
    exists i :: 0 <= i < |events| && Naming(ctx, t)(events[i])
  }

  lemma NamedSnoc(ctx: Context, events: seq<Event>, t: string)
    requires events != []
    ensures Named(ctx, events, t) <==> Named(ctx, events[..|events| - 1], t) || Naming(ctx, t)(events[|events| - 1])
  {
    var front := events[..|events| - 1];
    if Named(ctx, front, t) {
      var i :| 0 <= i < |front| && Naming(ctx, t)(front[i]);
      assert Naming(ctx, t)(events[i]);
    }
    if Named(ctx, events, t) && !Naming(ctx, t)(events[|events| - 1]) {
      var i :| 0 <= i < |events| && Naming(ctx, t)(events[i]);
      assert Naming(ctx, t)(front[i]);
    }
  }

  // The technique counter counts the events that name the technique.
  lemma {:induction false} TechsExact(ctx: Context, events: seq<Event>, t: string)
    ensures var tally := TechTally(ctx, events);
      && UniqueKeys(tally)
      && (Has(tally, t) <==> Named(ctx, events, t))
      && Get(tally, t) == CountIf(events, Naming(ctx, t))
  {
    hide TallyAll, Get, Has, Named, UniqueKeys;
    if events == [] {
      GetNothing(t);
      HasNothing(t);
      NamedNothing(ctx, t);
    } else {
      var front, last := events[..|events| - 1], events[|events| - 1];
      TechsExact(ctx, front, t);
      NamedSnoc(ctx, events, t);
      TallyAllCounts(TechTally(ctx, front), EventMitre(ctx, last), t);
    }
  }

  lemma NamedNothing(ctx: Context, t: string)
    ensures !Named(ctx, [], t) && UniqueKeys([])
  {
  }

  lemma HasNothing(t: string)
    ensures !Has([], t)
  {
  }

  function Sum4(xs: seq<nat>): nat
    requires |xs| == 4
  {
    xs[0] + xs[1] + xs[2] + xs[3]
  }

  lemma {:induction false} TotalsAddUp(ctx: Context, events: seq<Event>)
    ensures var c, total := CountAll(ctx, events), CountIf(events, HasPath());
      && Sum4(c.severity) == total && Total(c.category) == total
      && Total(c.hostBlocked) + Total(c.hostUnblocked) == total
      && Total(c.hostBlocked) == CountIf(events, (ev: Event) => ev.path != "" && ev.blocked)
  {
    hide Bump, TallyAll, EventMitre, Total, OnDay;
    if events == [] {
      GetNothing("");
    } else {
      var front, last := events[..|events| - 1], events[|events| - 1];
      TotalsAddUp(ctx, front);
      TotalsStep(CountAll(ctx, front), ctx, last);
    }
  }

  lemma TotalsStep(c: Counters, ctx: Context, ev: Event)
    requires Shaped(c, ctx.days)
    ensures var c', one := Counted(c, ctx, ev), if ev.path != "" then 1 else 0;
      && Sum4(c'.severity) == Sum4(c.severity) + one
      && Total(c'.category) == Total(c.category) + one
      && Total(c'.hostBlocked) == Total(c.hostBlocked) + (if ev.blocked then one else 0)
      && Total(c'.hostUnblocked) == Total(c.hostUnblocked) + if ev.blocked then 0 else one
  {
    hide Bump, TallyAll, EventMitre, Total;
    BumpCounts(c.category, ctx.classify(ev.path).category, "");
    BumpCounts(c.hostBlocked, HostOf(ctx, ev), "");
    BumpCounts(c.hostUnblocked, HostOf(ctx, ev), "");
  }

  lemma {:induction false} DaysAddUp(ctx: Context, events: seq<Event>, d: nat)
    requires d < ctx.days
    ensures var c := CountAll(ctx, events);
      && c.blocked[0][d] + c.blocked[1][d] + c.blocked[2][d] + c.blocked[3][d] == c.dailyBlocked[d]
      && c.dailyBlocked[d] + c.dailyUnblocked[d] == c.dailyTotal[d]
      && c.blocked[0][d] <= c.dailyCrit[d] <= c.dailyTotal[d]
  {
    hide Counted;
    if events != [] {
      DaysAddUp(ctx, events[..|events| - 1], d);
      DaysStep(CountAll(ctx, events[..|events| - 1]), ctx, events[|events| - 1], d);
    }
  }

  lemma DaysStep(c: Counters, ctx: Context, ev: Event, d: nat)
    requires Shaped(c, ctx.days) && d < ctx.days
    requires c.blocked[0][d] + c.blocked[1][d] + c.blocked[2][d] + c.blocked[3][d] == c.dailyBlocked[d]
    requires c.dailyBlocked[d] + c.dailyUnblocked[d] == c.dailyTotal[d]
    requires c.blocked[0][d] <= c.dailyCrit[d] <= c.dailyTotal[d]
    ensures var c' := Counted(c, ctx, ev);
      && c'.blocked[0][d] + c'.blocked[1][d] + c'.blocked[2][d] + c'.blocked[3][d] == c'.dailyBlocked[d]
      && c'.dailyBlocked[d] + c'.dailyUnblocked[d] == c'.dailyTotal[d]
      && c'.blocked[0][d] <= c'.dailyCrit[d] <= c'.dailyTotal[d]
  {
    hide Bump, TallyAll, EventMitre, HostOf;
  }

  // Severity, category and host counts each add up to the number of events with
  // a path; each day's severity buckets add up to that day's blocked count, and
  // blocked and unblocked to the day's total. The report's unblocked total,
  // max(0, total - blocked), never has to be cut off at 0.
  lemma CountsAddUp(ctx: Context, events: seq<Event>)
    ensures var c, total := CountAll(ctx, events), CountIf(events, HasPath());
      && Sum4(c.severity) == total && Total(c.category) == total
      && Total(c.hostBlocked) + Total(c.hostUnblocked) == total
      && CountIf(events, (ev: Event) => ev.path != "" && ev.blocked) == Total(c.hostBlocked)
    ensures var c := CountAll(ctx, events);
      forall d :: 0 <= d < ctx.days ==>
        && c.blocked[0][d] + c.blocked[1][d] + c.blocked[2][d] + c.blocked[3][d] == c.dailyBlocked[d]
        && c.dailyBlocked[d] + c.dailyUnblocked[d] == c.dailyTotal[d]
        && c.blocked[0][d] <= c.dailyCrit[d] <= c.dailyTotal[d]
  {
    hide CountAll;
    TotalsAddUp(ctx, events);
    forall d | 0 <= d < ctx.days
      ensures var c := CountAll(ctx, events);
        && c.blocked[0][d] + c.blocked[1][d] + c.blocked[2][d] + c.blocked[3][d] == c.dailyBlocked[d]
        && c.dailyBlocked[d] + c.dailyUnblocked[d] == c.dailyTotal[d]
        && c.blocked[0][d] <= c.dailyCrit[d] <= c.dailyTotal[d]
    {
      DaysAddUp(ctx, events, d);
    }
  }

  // ----- matrix, incidents and glossary -----------------------------------------------------------

  function TacticAt(p: nat): (t: Tactic)
    ensures p < 6 ==> Position(t) == p
  {
    match p
    case 0 => InitialAccess
    case 1 => CredentialAccess
    case 2 => PrivilegeEscalation
    case 3 => Persistence
    case 4 => DefenseEvasion
    case _ => Impact
  }

  // the counted techniques of one tactic, in the counter's order
  function TechsOf(tally: Tally, tactic: Tactic): seq<Tech> {
    if tally == [] then []
    else
      var front, last := TechsOf(tally[..|tally| - 1], tactic), tally[|tally| - 1];
      if TacticOf(last.key).tactic == tactic then front + [Tech(last.key, last.n)] else front
  }

  // a column for each of the first p tactics that has a technique
  function Columns(tally: Tally, p: nat): Matrix
    requires p <= 6
  {
    if p == 0 then []
    else
      var techs := Sort(TechsOf(tally, TacticAt(p - 1)), ByCountDown);
      if techs == [] then Columns(tally, p - 1) else Columns(tally, p - 1) + [Column(TacticAt(p - 1), techs)]
  }

  lemma {:induction false} TechsOfKeeps(tally: Tally, tactic: Tactic, x: Tech)
    requires UniqueKeys(tally)
    ensures x in TechsOf(tally, tactic) <==> Count(x.id, x.n) in tally && TacticOf(x.id).tactic == tactic
    ensures ColumnOk(Column(tactic, TechsOf(tally, tactic)))
  {
    if tally != [] {
      var front, last := tally[..|tally| - 1], tally[|tally| - 1];
      TechsOfKeeps(front, tactic, x);
      assert tally == front + [last];
      var techs := TechsOf(front, tactic);
      forall j | 0 <= j < |techs| ensures techs[j].id != last.key {
        TechsOfKeeps(front, tactic, techs[j]);
        assert techs[j] in techs;
        var i :| 0 <= i < |front| && front[i] == Count(techs[j].id, techs[j].n);
      }
    }
  }

  // every column's tactic comes before the p-th
  ghost predicate Below(m: Matrix, p: nat) {
    forall c :: 0 <= c < |m| ==> Position(m[c].tactic) < p
  }

  // The matrix is well formed, in tactic order and by falling count, and holds
  // exactly the counted techniques, each in the column of its tactic.
  lemma ColumnsKeep(tally: Tally, p: nat, tactic: Tactic, x: Tech)
    requires UniqueKeys(tally) && p <= 6
    ensures var m := Columns(tally, p);
      && MatrixOk(m) && InTacticOrder(m) && ByCount(m)
      && Below(m, p)
      && (Holds(m, tactic, x) <==> Count(x.id, x.n) in tally && TacticOf(x.id).tactic == tactic && Position(tactic) < p)
  {
    hide Columns, MatrixOk, InTacticOrder, ByCount, Holds, UniqueKeys;
    ColumnsOrdered(tally, p);
    ColumnsHold(tally, p, tactic, x);
  }

  // the column of one tactic, and the matrix with it behind the earlier ones
  function ColumnOf(tally: Tally, tactic: Tactic): Column {
    Column(tactic, Sort(TechsOf(tally, tactic), ByCountDown))
  }

  lemma ColumnsNext(tally: Tally, p: nat)
    requires 0 < p <= 6
    ensures var col := ColumnOf(tally, TacticAt(p - 1));
      Columns(tally, p) == if col.techs == [] then Columns(tally, p - 1) else Columns(tally, p - 1) + [col]
  {
    hide Sort, TechsOf;
  }

  lemma ColumnIsOk(tally: Tally, tactic: Tactic)
    requires UniqueKeys(tally)
    ensures ColumnOk(ColumnOf(tally, tactic)) && InOrder(ColumnOf(tally, tactic).techs, ByCountDown)
  {
    hide ColumnOk, InOrder, Sort, TechsOf, UniqueKeys;
    TechsOfKeeps(tally, tactic, Tech("", 0));
    SortedColumn(Column(tactic, TechsOf(tally, tactic)));
  }

  lemma {:induction false} ColumnsOrdered(tally: Tally, p: nat)
    requires UniqueKeys(tally) && p <= 6
    ensures var m := Columns(tally, p);
      && MatrixOk(m) && InTacticOrder(m) && ByCount(m)
      && Below(m, p)
  {
    if p > 0 {
      hide ColumnOk, InOrder, Sort, TechsOf, MatrixOk, InTacticOrder, ByCount, UniqueKeys, Below, Columns;
      ColumnsOrdered(tally, p - 1);
      ColumnsNext(tally, p);
      ColumnIsOk(tally, TacticAt(p - 1));
      ColumnOnTop(Columns(tally, p - 1), ColumnOf(tally, TacticAt(p - 1)));
      BelowMore(Columns(tally, p - 1), p);
    }
  }

  lemma BelowMore(m: Matrix, p: nat)
    requires p > 0 && Below(m, p - 1)
    ensures Below(m, p)
  {
  }

  lemma {:induction false} ColumnsHold(tally: Tally, p: nat, tactic: Tactic, x: Tech)
    requires UniqueKeys(tally) && p <= 6
    ensures Holds(Columns(tally, p), tactic, x) <==>
      Count(x.id, x.n) in tally && TacticOf(x.id).tactic == tactic && Position(tactic) < p
  {
    if p > 0 {
      hide ColumnOk, InOrder, Sort, TechsOf, Holds, UniqueKeys, Columns;
      ColumnsHold(tally, p - 1, tactic, x);
      var here := TacticAt(p - 1);
      ColumnsNext(tally, p);
      TechsOfKeeps(tally, here, x);
      SortedColumn(Column(here, TechsOf(tally, here)));
      ColumnAdded(Columns(tally, p - 1), ColumnOf(tally, here), tactic, x);
      PositionsDiffer(here, tactic);
    } else {
      NothingHeld(tactic, x);
    }
  }

  lemma NothingHeld(tactic: Tactic, x: Tech)
    ensures !Holds([], tactic, x)
  {
  }

  lemma ColumnOnTop(m: Matrix, col: Column)
    requires MatrixOk(m) && InTacticOrder(m) && ByCount(m) && ColumnOk(col) && InOrder(col.techs, ByCountDown)
    requires Below(m, Position(col.tactic))
    ensures MatrixOk(m + [col]) && InTacticOrder(m + [col]) && ByCount(m + [col])
    ensures Below(m + [col], Position(col.tactic) + 1)
  {
    FallingCounts(col.techs);
    hide ColumnOk, InOrder;
  }

  lemma ColumnAdded(m: Matrix, col: Column, tactic: Tactic, x: Tech)
    ensures Holds(m + [col], tactic, x) <==> Holds(m, tactic, x) || (tactic == col.tactic && x in col.techs)
  {
    var m' := m + [col];
    assert m'[|m|] == col;
    if Holds(m, tactic, x) {
      var c :| 0 <= c < |m| && m[c].tactic == tactic && x in m[c].techs;
      assert m'[c] == m[c];
    }
    if Holds(m', tactic, x) && !(tactic == col.tactic && x in col.techs) {
      var c :| 0 <= c < |m'| && m'[c].tactic == tactic && x in m'[c].techs;
      assert m[c] == m'[c];
    }
  }

  // the glossary rows of the techniques seen that have an entry of their own
  function ExactRows(tally: Tally): seq<Row> {
    if tally == [] then []
    else
      var front, last := ExactRows(tally[..|tally| - 1]), tally[|tally| - 1].key;
      if last in Mitre.Glossary() then front + [Row(last, last)] else front
  }

  lemma {:induction false} ExactRowsKeep(tally: Tally, t: string)
    requires UniqueKeys(tally)
    ensures UniqueRows(ExactRows(tally))
    ensures forall row :: row in ExactRows(tally) ==> row.entry == row.id
    ensures Explains(ExactRows(tally), t) <==> Has(tally, t) && t in Mitre.Glossary()
  {
    if tally != [] {
      var front, last := tally[..|tally| - 1], tally[|tally| - 1].key;
      ExactRowsKeep(front, t);
      ExactRowsKeep(front, last);
      NotAgain(tally);
      HasSnoc(tally, t);
      ExplainsSnoc(ExactRows(front), Row(last, last));
      assert forall i :: 0 <= i < |ExactRows(front)| ==> ExactRows(front)[i].id != last;
    }
  }

  const BySeverityThenLatest: (Ranked, Ranked) -> bool :=
    (a: Ranked, b: Ranked) => a.rank < b.rank || (a.rank == b.rank && a.time >= b.time)

  datatype Ranked = Ranked(rank: nat, time: int, event: Event)

  // events with a path and a time, with what they are ranked by
  function Rankable(ctx: Context, events: seq<Event>): (r: seq<Ranked>)
    ensures forall x :: x in r ==> x.event in events && x.event.path != ""
  {
    if events == [] then []
    else
      var front, last := Rankable(ctx, events[..|events| - 1]), events[|events| - 1];
      assert events == events[..|events| - 1] + [last];
      if last.path != "" && last.at.Some?
      then front + [Ranked(Rank(SeverityOf(ctx, last)), last.at.value.time, last)]
      else front
  }

  function IncidentOf(ctx: Context, ev: Event): Incident {
    var mitre := EventMitre(ctx, ev);
    Incident(mitre, KillFor(mitre), SeverityOf(ctx, ev))
  }

  function Incidents(ranked: seq<Ranked>, ctx: Context): (r: seq<Incident>)
    ensures |r| == |ranked| && forall i :: 0 <= i < |r| ==> r[i] == IncidentOf(ctx, ranked[i].event)
  {
    seq(|ranked|, i requires 0 <= i < |ranked| => IncidentOf(ctx, ranked[i].event))
  }

  function TopFour(xs: seq<Ranked>): seq<Ranked> {
    if |xs| <= 4 then xs else xs[..4]
  }

  // matrix, glossary and incidents of build_skeleton
  function Built(ctx: Context, events: seq<Event>): Report {
    var tally := CountAll(ctx, events).tech;
    Report(Incidents(TopFour(Sort(Rankable(ctx, events), BySeverityThenLatest)), ctx),
           Sort(ExactRows(tally), ByRowId), Columns(tally, 6))
  }

  predicate HasMoment(ev: Event) {
    ev.path != "" && ev.at.Some?
  }

  // Event a of the list goes before event b: it is more severe, or as severe and
  // later, or as severe and as late and listed first.
  ghost predicate Ahead(ctx: Context, events: seq<Event>, a: nat, b: nat)
    requires a < |events| && b < |events| && HasMoment(events[a]) && HasMoment(events[b])
  {
    var x, y := events[a], events[b];
    || Rank(SeverityOf(ctx, x)) < Rank(SeverityOf(ctx, y))
    || (SeverityOf(ctx, x) == SeverityOf(ctx, y) &&
        (x.at.value.time > y.at.value.time || (x.at.value.time == y.at.value.time && a < b)))
  }

  // where the ranked events come from: every event with a path and a time, in order
  ghost predicate RankedFrom(ctx: Context, events: seq<Event>, ranked: seq<Ranked>, at: seq<nat>) {
    && |at| == |ranked|
    && (forall k :: 0 <= k < |at| ==> (
          && at[k] < |events| && HasMoment(events[at[k]])
          && ranked[k] == Ranked(Rank(SeverityOf(ctx, events[at[k]])), events[at[k]].at.value.time, events[at[k]])))
    && (forall j, k :: 0 <= j < k < |at| ==> at[j] < at[k])
    && (forall i: nat :: i < |events| && HasMoment(events[i]) ==> i in at)
  }

  lemma {:induction false} RankableAt(ctx: Context, events: seq<Event>) returns (at: seq<nat>)
    ensures RankedFrom(ctx, events, Rankable(ctx, events), at)
  {
    at := [];
    if events != [] {
      var front, last := events[..|events| - 1], events[|events| - 1];
      at := RankableAt(ctx, front);
      assert forall i :: 0 <= i < |front| ==> events[i] == front[i];
      if HasMoment(last) {
        var more := at + [|front|];
        forall i: nat | i < |events| && HasMoment(events[i]) ensures i in more {
          if i < |front| { assert i in at; } else { assert more[|at|] == i; }
        }
        at := more;
      }
    }
  }

  lemma RankingIsOrdering()
    ensures Ordering(BySeverityThenLatest)
  {
  }

  lemma RankedAhead(ctx: Context, events: seq<Event>, ranked: seq<Ranked>, at: seq<nat>, order: seq<nat>, j: nat, k: nat)
    requires RankedFrom(ctx, events, ranked, at)
    requires forall i :: 0 <= i < |order| ==> order[i] < |ranked|
    requires StablyOrdered(ranked, order, BySeverityThenLatest) && j < k < |order|
    ensures Ahead(ctx, events, at[order[j]], at[order[k]])
  {
    hide SeverityOf;
    var x, y := ranked[order[j]], ranked[order[k]];
    assert BySeverityThenLatest(x, y);
    assert BySeverityThenLatest(y, x) ==> order[j] < order[k];
    assert ranked[order[j]].event == events[at[order[j]]] && ranked[order[k]].event == events[at[order[k]]];
  }

  // The incidents are the first four events with a path and a time, the most severe
  // first and among those the latest: `picks` says which. No event left out goes
  // before one taken, and none is left out unless four are taken. Each incident has
  // its event's severity and techniques and the phases of these.
  lemma IncidentsExact(ctx: Context, events: seq<Event>) returns (picks: seq<nat>)
    ensures |picks| <= 4 && forall k :: 0 <= k < |picks| ==> picks[k] < |events| && HasMoment(events[picks[k]])
    ensures forall j, k :: 0 <= j < k < |picks| ==> Ahead(ctx, events, picks[j], picks[k])
    ensures forall i: nat :: i < |events| && HasMoment(events[i]) && i !in picks ==>
      |picks| == 4 && forall k :: 0 <= k < 4 ==> Ahead(ctx, events, picks[k], i)
    ensures var incidents := Built(ctx, events).incidents;
      && |incidents| == |picks|
      && forall k :: 0 <= k < |picks| ==>
           && incidents[k].severity == SeverityOf(ctx, events[picks[k]])
           && incidents[k].mitre == EventMitre(ctx, events[picks[k]])
           && incidents[k].kill == KillFor(incidents[k].mitre)
  {
    hide Ahead, SeverityOf, EventMitre, KillFor, CountAll, Columns, ExactRows, Ordering, Sort, Rankable, StablyOrdered, HasMoment;
    var ranked := Rankable(ctx, events);
    var at := RankableAt(ctx, events);
    RankingIsOrdering();
    var order := SortAt(ranked, BySeverityThenLatest);
    var sorted := Sort(ranked, BySeverityThenLatest);
    picks := Picked(ctx, events, ranked, at, order);
    forall k | 0 <= k < |picks| ensures TopFour(sorted)[k].event == events[picks[k]] {
      assert TopFour(sorted)[k] == sorted[k] == ranked[order[k]];
    }
  }

  // the first four in a stable order of the ranked events
  lemma Picked(ctx: Context, events: seq<Event>, ranked: seq<Ranked>, at: seq<nat>, order: seq<nat>) returns (picks: seq<nat>)
    requires RankedFrom(ctx, events, ranked, at) && |order| == |ranked|
    requires forall i :: 0 <= i < |order| ==> order[i] < |ranked|
    requires StablyOrdered(ranked, order, BySeverityThenLatest) && forall m: nat :: m < |ranked| ==> m in order
    ensures |picks| == if |order| <= 4 then |order| else 4
    ensures forall k :: 0 <= k < |picks| ==> picks[k] == at[order[k]] && picks[k] < |events| && HasMoment(events[picks[k]])
    ensures forall j, k :: 0 <= j < k < |picks| ==> Ahead(ctx, events, picks[j], picks[k])
    ensures forall i: nat :: i < |events| && HasMoment(events[i]) && i !in picks ==>
      |picks| == 4 && forall k :: 0 <= k < 4 ==> Ahead(ctx, events, picks[k], i)
  {
    hide Ahead, StablyOrdered, SeverityOf, HasMoment;
    var n := if |order| <= 4 then |order| else 4;
    picks := seq(n, k requires 0 <= k < n => at[order[k]]);
    forall j, k | 0 <= j < k < n ensures Ahead(ctx, events, picks[j], picks[k]) {
      RankedAhead(ctx, events, ranked, at, order, j, k);
    }
    assert forall k :: 0 <= k < n ==> at[order[k]] == picks[k] && picks[k] in picks;
    forall i: nat | i < |events| && HasMoment(events[i]) && i !in picks
      ensures n == 4 && forall k :: 0 <= k < 4 ==> Ahead(ctx, events, picks[k], i)
    {
      assert i in at;
      var m :| 0 <= m < |at| && at[m] == i;
      assert m in order;
      var q :| 0 <= q < |order| && order[q] == m;
      assert q >= n;
      forall k | 0 <= k < n ensures Ahead(ctx, events, picks[k], i) {
        RankedAhead(ctx, events, ranked, at, order, k, q);
      }
    }
  }

  // the path rules and the process evidence name only the techniques they know
  ghost predicate RulesOnly(ctx: Context, events: seq<Event>) {
    forall i :: 0 <= i < |events| ==>
      && (forall t :: t in ctx.classify(events[i].path).mitre ==> t in RuleTechniques())
      && (forall t :: t in events[i].evidence ==> t in RuleTechniques())
  }

  // the incidents are of events counted, so their techniques were counted
  lemma IncidentsAreNamed(ctx: Context, events: seq<Event>)
    requires RulesOnly(ctx, events)
    ensures IncidentsOk(Built(ctx, events).incidents)
    ensures forall t :: Appears(Built(ctx, events).incidents, t) ==> Named(ctx, events, t) && t in RuleTechniques()
  {
    hide Sort, Columns, ExactRows, CountAll, RuleTechniques, Glossary;
    RulesAreInGlossary();
    var ranked := Rankable(ctx, events);
    var sorted := Sort(ranked, BySeverityThenLatest);
    SortKeeps(ranked, BySeverityThenLatest);
    var top := TopFour(sorted);
    var incidents := Built(ctx, events).incidents;
    forall i | 0 <= i < |incidents|
      ensures IncidentOk(incidents[i])
      ensures forall t :: t in incidents[i].mitre ==> Named(ctx, events, t) && t in RuleTechniques()
    {
      assert top[i] == sorted[i] && sorted[i] in sorted;
      var ev := top[i].event;
      var k :| 0 <= k < |events| && events[k] == ev;
      forall t | t in incidents[i].mitre ensures Named(ctx, events, t) && t in RuleTechniques() {
        assert Naming(ctx, t)(events[k]);
      }
    }
  }

  // What build_skeleton hands to the patches is well built: every technique of an
  // event is in the matrix, in its tactic's column, with the number of events that
  // name it; every incident technique is there once, and explained once.
  lemma BuiltIsWellBuilt(ctx: Context, events: seq<Event>)
    requires RulesOnly(ctx, events)
    ensures WellBuilt(Built(ctx, events))
    ensures forall tactic, x :: Holds(Built(ctx, events).matrix, tactic, x) <==>
      (Named(ctx, events, x.id) && x.n == CountIf(events, Naming(ctx, x.id)) && tactic == TacticOf(x.id).tactic)
    ensures forall t :: Appears(Built(ctx, events).incidents, t) ==>
      OnceInMatrix(Built(ctx, events).matrix, t) && OnceInGlossary(Built(ctx, events).glossary, t)
    ensures forall row :: row in Built(ctx, events).glossary <==>
      Named(ctx, events, row.id) && row.id in Mitre.Glossary() && row.entry == row.id
  {
    hide Sort, ExactRows, CountAll, TechTally, Columns, Holds, Named, RuleTechniques, Glossary, MatrixOk, InTacticOrder, ByCount,
      Appears, OnceInMatrix, OnceInGlossary, Incidents, IncidentsOk, GlossaryOk, Explains, Has, Get;
    var r := Built(ctx, events);
    IncidentsAreNamed(ctx, events);
    TechCounter(ctx, events);
    var tally := TechTally(ctx, events);
    TechsExact(ctx, events, "");
    ExactRowsKeep(tally, "");
    SortedGlossary(ExactRows(tally));
    ColumnsKeep(tally, 6, Impact, Tech("", 0));
    forall tactic, x
      ensures Holds(r.matrix, tactic, x) <==>
        (Named(ctx, events, x.id) && x.n == CountIf(events, Naming(ctx, x.id)) && tactic == TacticOf(x.id).tactic)
    {
      ColumnsKeep(tally, 6, tactic, x);
      TechsExact(ctx, events, x.id);
      TallyHolds(tally, x.id, x.n);
    }
    forall row: Row
      ensures row in r.glossary <==> Named(ctx, events, row.id) && row.id in Mitre.Glossary() && row.entry == row.id
    {
      ExactRowsKeep(tally, row.id);
      TechsExact(ctx, events, row.id);
      RowsAre(ExactRows(tally), row);
    }
    forall t | Appears(r.incidents, t) ensures OnceInMatrix(r.matrix, t) && OnceInGlossary(r.glossary, t) {
      OccursHolds(r.matrix, t);
      assert Holds(r.matrix, TacticOf(t).tactic, Tech(t, CountIf(events, Naming(ctx, t))));
      OccursOnce(r.matrix, t);
      TechsExact(ctx, events, t);
      RulesAreInGlossary();
      ExactRowsKeep(tally, t);
      ExplainedOnce(ExactRows(tally), r.glossary, t);
    }
  }

  lemma RowsAre(rows: seq<Row>, row: Row)
    requires forall r :: r in rows ==> r.entry == r.id
    ensures row in rows <==> Explains(rows, row.id) && row.entry == row.id
  {
    if Explains(rows, row.id) {
      var i :| 0 <= i < |rows| && rows[i].id == row.id;
      assert rows[i] in rows;
    }
  }

  lemma ExplainedOnce(rows: seq<Row>, glossary: seq<Row>, t: string)
    requires Explains(rows, t) && GlossaryOk(glossary) && forall row :: row in rows ==> row in glossary
    ensures OnceInGlossary(glossary, t)
  {
    var i :| 0 <= i < |rows| && rows[i].id == t;
    assert rows[i] in glossary;
  }
}
