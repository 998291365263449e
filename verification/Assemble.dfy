// What a language-model patch does to the report skeleton: incident
// classification, and the reconciliation that keeps incidents, ATT&CK matrix and
// glossary consistent.

module Assemble {
  import opened Prelude
  import opened Ordered
  import opened Mitre

  datatype Severity = Critical | High | Medium | Low

  datatype Incident = Incident(mitre: seq<string>, kill: seq<nat>, severity: Severity)

  datatype Tech = Tech(id: string, n: nat)
  datatype Column = Column(tactic: Tactic, techs: seq<Tech>)

  // a glossary row: the technique, and the glossary entry its texts are taken from
  datatype Row = Row(id: string, entry: string)

  type Matrix = seq<Column>

  // ----- the incident list ---------------------------------------------------------------------

  // One entry of the patch, its index already through _as_int (-1 when that
  // fails), its texts stripped; None stands for what is not a dict, not a list
  // or not a string.
  datatype Patch = Patch(index: int, mitre: Option<seq<string>>, severity: Option<Severity>)

  function ValidMitre(ids: seq<string>): (r: seq<string>)
    ensures forall x :: x in r <==> x in ids && x != "" && Known(x)
  {
    if ids == [] then []
    else
      var front, last := ValidMitre(ids[..|ids| - 1]), ids[|ids| - 1];
      assert ids == ids[..|ids| - 1] + [last];
      if last != "" && Known(last) then front + [last] else front
  }

  // the distinct kill-chain phases, ascending; [0] when there is none
  function KillFor(mitre: seq<string>): (r: seq<nat>)
    ensures r != []
    ensures mitre != [] ==> forall k :: k in r <==> exists t :: t in mitre && TacticOf(t).phase == k
    ensures forall i, j :: 0 <= i < j < |r| ==> r[i] < r[j]
  {
    var phases := set t | t in mitre :: TacticOf(t).phase;
    var kill := Ascending(phases, 5);
    assert mitre != [] ==> TacticOf(mitre[0]).phase in phases;
    if kill == [] then [0] else kill
  }

  // the members below n, in order
  function Ascending(s: set<nat>, n: nat): (r: seq<nat>)
    ensures forall k :: k in r <==> k in s && k < n
    ensures forall i, j :: 0 <= i < j < |r| ==> r[i] < r[j]
  {
    if n == 0 then []
    else
      var below := Ascending(s, n - 1);
      assert forall i :: 0 <= i < |below| ==> below[i] in below;
      if n - 1 in s then below + [n - 1] else below
  }

  function Reclassified(inc: Incident, p: Patch): Incident {
    var mitre := if p.mitre.Some? then ValidMitre(p.mitre.value) else [];
    var merged := Deduped(inc.mitre + mitre);
    var inc1 := if mitre == [] then inc else inc.(mitre := merged, kill := KillFor(merged));
    if p.severity.Some? then inc1.(severity := p.severity.value) else inc1
  }

  function Classified(incidents: seq<Incident>, patch: seq<Option<Patch>>): (r: seq<Incident>)
    ensures |r| == |incidents|
  {
    if patch == [] then incidents
    else
      var before := Classified(incidents, patch[..|patch| - 1]);
      var p := patch[|patch| - 1];
      if p.None? || !(0 <= p.value.index < |before|) then before
      else before[p.value.index := Reclassified(before[p.value.index], p.value)]
  }

  ghost predicate IncidentOk(inc: Incident) {
    Clean(inc.mitre) && forall t :: t in inc.mitre ==> Known(t)
  }

  ghost predicate IncidentsOk(incidents: seq<Incident>) {
    forall i :: 0 <= i < |incidents| ==> IncidentOk(incidents[i])
  }

  lemma ReclassifiedKeeps(inc: Incident, p: Patch)
    requires IncidentOk(inc)
    ensures IncidentOk(Reclassified(inc, p)) && inc.mitre <= Reclassified(inc, p).mitre
  {
    if p.mitre.Some? {
      DedupedClean(inc.mitre);
      DedupedGrows(inc.mitre, ValidMitre(p.mitre.value));
    }
  }

  // A patch may add known techniques to an incident; those the rules found stay,
  // in their order and in front.
  lemma {:induction false} ClassifiedKeeps(incidents: seq<Incident>, patch: seq<Option<Patch>>)
    requires IncidentsOk(incidents)
    ensures IncidentsOk(Classified(incidents, patch))
    ensures forall i :: 0 <= i < |incidents| ==> incidents[i].mitre <= Classified(incidents, patch)[i].mitre
  {
    if patch != [] {
      ClassifiedKeeps(incidents, patch[..|patch| - 1]);
      var before := Classified(incidents, patch[..|patch| - 1]);
      var p := patch[|patch| - 1];
      if p.Some? && 0 <= p.value.index < |before| {
        ReclassifiedKeeps(before[p.value.index], p.value);
      }
    }
  }

  predicate Names(p: Patch, t: string) {
    p.mitre.Some? && t in p.mitre.value && t != "" && Known(t)
  }

  // The phases of an incident's techniques, ascending.
  ghost predicate PhasesOf(kill: seq<nat>, mitre: seq<string>) {
    && (forall k :: k in kill <==> exists t :: t in mitre && TacticOf(t).phase == k)
    && (forall i, j :: 0 <= i < j < |kill| ==> kill[i] < kill[j])
  }

  lemma NamesValid(p: Patch, t: string)
    ensures Names(p, t) <==> p.mitre.Some? && t in ValidMitre(p.mitre.value)
  {
  }

  // One entry of the patch: it adds exactly the techniques it names that are known,
  // and then the phases are those of all techniques; it sets the severity it states.
  lemma ReclassifiedExact(inc: Incident, p: Patch)
    requires IncidentOk(inc)
    ensures var inc' := Reclassified(inc, p);
      && (forall t :: t in inc'.mitre <==> t in inc.mitre || Names(p, t))
      && inc'.severity == (if p.severity.Some? then p.severity.value else inc.severity)
      && (if exists t :: Names(p, t) then PhasesOf(inc'.kill, inc'.mitre) else inc'.kill == inc.kill && inc'.mitre == inc.mitre)
  {
    hide KillFor, Known, Clean;
    ReclassifiedKeeps(inc, p);
    var mitre := if p.mitre.Some? then ValidMitre(p.mitre.value) else [];
    forall t ensures Names(p, t) <==> t in mitre { NamesValid(p, t); }
    if mitre != [] {
      assert Names(p, mitre[0]);
      assert mitre[0] in Reclassified(inc, p).mitre;
    }
  }

  // the severity the patch states last for incident i
  function LastSeverity(patch: seq<Option<Patch>>, i: nat): Option<Severity> {
    if patch == [] then None
    else
      var p := patch[|patch| - 1];
      if p.Some? && p.value.index == i && p.value.severity.Some? then p.value.severity
      else LastSeverity(patch[..|patch| - 1], i)
  }

  ghost predicate Named(patch: seq<Option<Patch>>, i: nat, t: string) {
    exists k :: 0 <= k < |patch| && patch[k].Some? && patch[k].value.index == i && Names(patch[k].value, t)
  }

  lemma NamedSnoc(front: seq<Option<Patch>>, last: Option<Patch>, i: nat, t: string)
    ensures Named(front + [last], i, t) <==> Named(front, i, t) || (last.Some? && last.value.index == i && Names(last.value, t))
  {
    var patch := front + [last];
    assert patch[|front|] == last;
    assert forall k :: 0 <= k < |front| ==> patch[k] == front[k];
  }

  // The whole patch, incident by incident: its techniques are the rules' and those
  // some entry for it names; its severity is the last one stated for it; its phases
  // are those of its techniques as soon as a technique was named.
  lemma {:induction false} ClassifiedExact(incidents: seq<Incident>, patch: seq<Option<Patch>>, i: nat)
    requires IncidentsOk(incidents) && i < |incidents|
    ensures var inc, inc' := incidents[i], Classified(incidents, patch)[i];
      && (forall t :: t in inc'.mitre <==> t in inc.mitre || Named(patch, i, t))
      && inc'.severity == (match LastSeverity(patch, i) case Some(sev) => sev case None => inc.severity)
      && (if exists t :: Named(patch, i, t) then PhasesOf(inc'.kill, inc'.mitre) else inc'.kill == inc.kill && inc'.mitre == inc.mitre)
  {
    hide Reclassified, PhasesOf, Names, Named, IncidentOk;
    if patch == [] {
      NothingNamed(i);
    } else {
      var front, p := patch[..|patch| - 1], patch[|patch| - 1];
      assert patch == front + [p];
      ClassifiedExact(incidents, front, i);
      ClassifiedKeeps(incidents, front);
      var before := Classified(incidents, front);
      forall t ensures Named(patch, i, t) <==> Named(front, i, t) || (p.Some? && p.value.index == i && Names(p.value, t)) {
        NamedSnoc(front, p, i, t);
      }
      if p.Some? && p.value.index == i { ReclassifiedExact(before[i], p.value); }
    }
  }

  lemma NothingNamed(i: nat)
    ensures forall t :: !Named([], i, t)
  {
  }

  // ----- counting the incidents' techniques -------------------------------------------------------

  function TallyAll(t: Tally, techs: seq<string>): Tally {
    if techs == [] then t
    else
      var before := TallyAll(t, techs[..|techs| - 1]);
      if techs[|techs| - 1] == "" then before else Bump(before, techs[|techs| - 1])
  }

  function IncidentTally(incidents: seq<Incident>): Tally {
    if incidents == [] then []
    else TallyAll(IncidentTally(incidents[..|incidents| - 1]), incidents[|incidents| - 1].mitre)
  }

  // in how many incidents the technique appears
  ghost function Appearances(incidents: seq<Incident>, tech: string): nat {
    if incidents == [] then 0
    else Appearances(incidents[..|incidents| - 1], tech) + if tech in incidents[|incidents| - 1].mitre then 1 else 0
  }

  ghost predicate Appears(incidents: seq<Incident>, tech: string) {
    exists i :: 0 <= i < |incidents| && tech in incidents[i].mitre
  }

  lemma {:induction false} TallyAllCounts(t: Tally, techs: seq<string>, k: string)
    requires UniqueKeys(t) && Clean(techs)
    ensures UniqueKeys(TallyAll(t, techs))
    ensures Has(TallyAll(t, techs), k) <==> Has(t, k) || k in techs
    ensures Get(TallyAll(t, techs), k) == Get(t, k) + if k in techs then 1 else 0
  {
    if techs != [] {
      var front, last := techs[..|techs| - 1], techs[|techs| - 1];
      TallyAllCounts(t, front, k);
      var before := TallyAll(t, front);
      BumpUnique(before, last);
      BumpHas(before, last, k);
      BumpCounts(before, last, k);
      assert techs == front + [last] && last !in front;
    }
  }

  lemma {:induction false} IncidentTallyCounts(incidents: seq<Incident>, k: string)
    requires IncidentsOk(incidents)
    ensures UniqueKeys(IncidentTally(incidents))
    ensures Has(IncidentTally(incidents), k) <==> Appears(incidents, k)
    ensures Get(IncidentTally(incidents), k) == Appearances(incidents, k)
  {
    if incidents != [] {
      var front, last := incidents[..|incidents| - 1], incidents[|incidents| - 1];
      IncidentTallyCounts(front, k);
      TallyAllCounts(IncidentTally(front), last.mitre, k);
      if Appears(front, k) {
        var i :| 0 <= i < |front| && k in front[i].mitre;
        assert k in incidents[i].mitre;
      }
      if k in last.mitre { assert k in incidents[|incidents| - 1].mitre; }
      if Appears(incidents, k) && k !in last.mitre {
        var i :| 0 <= i < |incidents| && k in incidents[i].mitre;
        assert k in front[i].mitre;
      }
    }
  }

  // ----- the glossary --------------------------------------------------------------------------------

  ghost predicate Explains(glossary: seq<Row>, tech: string) {
    exists i :: 0 <= i < |glossary| && glossary[i].id == tech
  }

  ghost predicate UniqueRows(glossary: seq<Row>) {
    forall i, j :: 0 <= i < j < |glossary| ==> glossary[i].id != glossary[j].id
  }

  // the entry for the technique itself, else for its base
  function EntryFor(tech: string): string {
    if tech in Mitre.Glossary() then tech else BaseId(tech)
  }

  // A known technique is explained by its own entry, or by its base's.
  lemma EntryForExact(tech: string)
    ensures tech in Mitre.Glossary() ==> EntryFor(tech) == tech
    ensures tech !in Mitre.Glossary() ==> EntryFor(tech) == BaseId(tech)
    ensures Known(tech) <==> EntryFor(tech) in Mitre.Glossary()
  {
    hide Mitre.Glossary, BaseId;
  }

  function HasRow(glossary: seq<Row>, tech: string): (b: bool)
    ensures b <==> Explains(glossary, tech)
  {
    exists i :: 0 <= i < |glossary| && glossary[i].id == tech
  }

  function AddRow(glossary: seq<Row>, tech: string): seq<Row> {
    if HasRow(glossary, tech) || !Known(tech) then glossary else glossary + [Row(tech, EntryFor(tech))]
  }

  function AddRows(glossary: seq<Row>, tally: Tally): seq<Row> {
    if tally == [] then glossary else AddRow(AddRows(glossary, tally[..|tally| - 1]), tally[|tally| - 1].key)
  }

  const ByRowId: (Row, Row) -> bool := (a: Row, b: Row) => AtMost(a.id, b.id)
  const RowId: Row -> string := (r: Row) => r.id

  lemma AddRowKeeps(glossary: seq<Row>, tech: string, row: Row)
    requires UniqueRows(glossary)
    ensures var g := AddRow(glossary, tech);
      && UniqueRows(g)
      && (row in g <==> row in glossary || (row == Row(tech, EntryFor(tech)) && Known(tech) && !Explains(glossary, tech)))
  {
    var g := AddRow(glossary, tech);
    if !HasRow(glossary, tech) && Known(tech) {
      assert g == glossary + [Row(tech, EntryFor(tech))];
      assert forall i :: 0 <= i < |glossary| ==> glossary[i].id != tech;
    }
  }

  // every row that was there, and one for each counted technique that is known
  lemma {:induction false} AddRowsKeeps(glossary: seq<Row>, tally: Tally, row: Row)
    requires UniqueRows(glossary) && UniqueKeys(tally)
    ensures var g := AddRows(glossary, tally);
      && UniqueRows(g)
      && (row in g <==> (row in glossary || (Has(tally, row.id) && Known(row.id) && row.entry == EntryFor(row.id) && !Explains(glossary, row.id))))
  {
    if tally != [] {
      var front, last := tally[..|tally| - 1], tally[|tally| - 1];
      AddRowsKeeps(glossary, front, row);
      var before := AddRows(glossary, front);
      AddRowKeeps(before, last.key, row);
      HasSnoc(tally, row.id);
      // the last key is new to what the keys before it added
      forall r | r in before && r.id == last.key ensures r in glossary {
        AddRowsKeeps(glossary, front, r);
        NotAgain(tally);
      }
      assert Explains(before, last.key) <==> Explains(glossary, last.key) by {
        RowsStay(glossary, front, last.key);
      }
    }
  }

  lemma HasSnoc(tally: Tally, k: string)
    requires tally != []
    ensures Has(tally, k) <==> Has(tally[..|tally| - 1], k) || tally[|tally| - 1].key == k
  {
    var front := tally[..|tally| - 1];
    if Has(front, k) {
      var i :| 0 <= i < |front| && front[i].key == k;
      assert tally[i].key == k;
    }
    if Has(tally, k) && tally[|tally| - 1].key != k {
      var i :| 0 <= i < |tally| && tally[i].key == k;
      assert front[i].key == k;
    }
  }

  lemma NotAgain(tally: Tally)
    requires tally != [] && UniqueKeys(tally)
    ensures !Has(tally[..|tally| - 1], tally[|tally| - 1].key)
  {
  }

  lemma {:induction false} RowsStay(glossary: seq<Row>, tally: Tally, tech: string)
    ensures glossary <= AddRows(glossary, tally)
    ensures Explains(glossary, tech) ==> Explains(AddRows(glossary, tally), tech)
  {
    if tally != [] { RowsStay(glossary, tally[..|tally| - 1], tech); }
    var g := AddRows(glossary, tally);
    if Explains(glossary, tech) {
      var i :| 0 <= i < |glossary| && glossary[i].id == tech;
      assert g[i].id == tech;
    }
  }

  // ----- the matrix -----------------------------------------------------------------------------------

  ghost predicate Holds(matrix: Matrix, tactic: Tactic, tech: Tech) {
    exists c :: 0 <= c < |matrix| && matrix[c].tactic == tactic && tech in matrix[c].techs
  }

  ghost predicate Occurs(matrix: Matrix, id: string) {
    exists c, j :: 0 <= c < |matrix| && 0 <= j < |matrix[c].techs| && matrix[c].techs[j].id == id
  }

  const TechId: Tech -> string := (t: Tech) => t.id

  ghost predicate ColumnOk(col: Column) {
    && Unlike(col.techs, TechId)
    && forall j :: 0 <= j < |col.techs| ==> TacticOf(col.techs[j].id).tactic == col.tactic
  }

  // one column per tactic, every technique in the column of its tactic, once
  ghost predicate MatrixOk(matrix: Matrix) {
    && UniqueTactics(matrix)
    && (forall c :: 0 <= c < |matrix| ==> ColumnOk(matrix[c]))
  }

  function HasTech(matrix: Matrix, id: string): (b: bool)
    ensures b <==> Occurs(matrix, id)
  {
    exists c, j :: 0 <= c < |matrix| && 0 <= j < |matrix[c].techs| && matrix[c].techs[j].id == id
  }

  function ColumnFor(matrix: Matrix, tactic: Tactic): (r: Option<nat>)
    ensures r.Some? ==> r.value < |matrix| && matrix[r.value].tactic == tactic
    ensures r.None? ==> forall c :: 0 <= c < |matrix| ==> matrix[c].tactic != tactic
  {
    if matrix == [] then None
    else if matrix[|matrix| - 1].tactic == tactic then Some(|matrix| - 1)
    else ColumnFor(matrix[..|matrix| - 1], tactic)
  }

  function AddTech(matrix: Matrix, tech: Tech): Matrix {
    if HasTech(matrix, tech.id) then matrix
    else
      match ColumnFor(matrix, TacticOf(tech.id).tactic)
      case Some(c) => matrix[c := matrix[c].(techs := matrix[c].techs + [tech])]
      case None => matrix + [Column(TacticOf(tech.id).tactic, [tech])]
  }

  function AddTechs(matrix: Matrix, tally: Tally): Matrix {
    if tally == [] then matrix
    else AddTech(AddTechs(matrix, tally[..|tally| - 1]), Tech(tally[|tally| - 1].key, tally[|tally| - 1].n))
  }

  lemma AddTechOk(matrix: Matrix, tech: Tech)
    requires MatrixOk(matrix)
    ensures MatrixOk(AddTech(matrix, tech))
  {
    if !HasTech(matrix, tech.id) {
      var tactic := TacticOf(tech.id).tactic;
      match ColumnFor(matrix, tactic)
      case Some(c) =>
        var techs := matrix[c].techs;
        assert forall j :: 0 <= j < |techs| ==> techs[j].id != tech.id;
        assert ColumnOk(Column(tactic, techs + [tech]));
      case None =>
        assert ColumnOk(Column(tactic, [tech]));
    }
  }

  lemma AddTechHolds(matrix: Matrix, tech: Tech, tactic: Tactic, x: Tech)
    ensures Holds(AddTech(matrix, tech), tactic, x) <==>
            (Holds(matrix, tactic, x) || (x == tech && tactic == TacticOf(tech.id).tactic && !Occurs(matrix, tech.id)))
  {
    var m' := AddTech(matrix, tech);
    if !HasTech(matrix, tech.id) {
      var found := ColumnFor(matrix, TacticOf(tech.id).tactic);
      if Holds(matrix, tactic, x) {
        var c :| 0 <= c < |matrix| && matrix[c].tactic == tactic && x in matrix[c].techs;
        assert m'[c].tactic == tactic && x in m'[c].techs;
      }
      if found.Some? {
        assert m'[found.value].tactic == TacticOf(tech.id).tactic && tech in m'[found.value].techs;
      } else {
        assert m'[|matrix|].tactic == TacticOf(tech.id).tactic && tech in m'[|matrix|].techs;
      }
      if Holds(m', tactic, x) {
        var c :| 0 <= c < |m'| && m'[c].tactic == tactic && x in m'[c].techs;
        assert c < |matrix| ==> m'[c].tactic == matrix[c].tactic;
      }
    }
  }

  // In a well-built matrix a technique occurs when some column holds it, in the
  // column of its tactic.
  lemma OccursHolds(matrix: Matrix, id: string)
    requires MatrixOk(matrix)
    ensures Occurs(matrix, id) <==> exists n :: Holds(matrix, TacticOf(id).tactic, Tech(id, n))
  {
    if Occurs(matrix, id) {
      var c, j :| 0 <= c < |matrix| && 0 <= j < |matrix[c].techs| && matrix[c].techs[j].id == id;
      assert ColumnOk(matrix[c]);
      assert matrix[c].techs[j] == Tech(id, matrix[c].techs[j].n) && matrix[c].techs[j] in matrix[c].techs;
      assert Holds(matrix, TacticOf(id).tactic, Tech(id, matrix[c].techs[j].n));
    }
  }

  // every technique that was there with its count, and each counted technique
  // that was missing, in its tactic's column
  lemma {:induction false} AddTechsKeeps(matrix: Matrix, tally: Tally, tactic: Tactic, x: Tech)
    requires MatrixOk(matrix) && UniqueKeys(tally)
    ensures MatrixOk(AddTechs(matrix, tally))
    ensures Holds(AddTechs(matrix, tally), tactic, x) <==>
            (Holds(matrix, tactic, x)
             || (Count(x.id, x.n) in tally && tactic == TacticOf(x.id).tactic && !Occurs(matrix, x.id)))
  {
    if tally != [] {
      var front, last := tally[..|tally| - 1], tally[|tally| - 1];
      AddTechsKeeps(matrix, front, tactic, x);
      var before := AddTechs(matrix, front);
      AddTechOk(before, Tech(last.key, last.n));
      AddTechHolds(before, Tech(last.key, last.n), tactic, x);
      assert tally == front + [last];
      AddTechsOccurs(matrix, front, last.key);
      NotAgain(tally);
    }
  }

  lemma {:induction false} AddTechsOccurs(matrix: Matrix, tally: Tally, id: string)
    requires MatrixOk(matrix) && UniqueKeys(tally)
    ensures MatrixOk(AddTechs(matrix, tally))
    ensures Occurs(AddTechs(matrix, tally), id) <==> Occurs(matrix, id) || Has(tally, id)
  {
    if tally != [] {
      var front, last := tally[..|tally| - 1], tally[|tally| - 1];
      AddTechsOccurs(matrix, front, id);
      HasSnoc(tally, id);
      var before := AddTechs(matrix, front);
      AddTechOk(before, Tech(last.key, last.n));
      AddTechOccurs(before, Tech(last.key, last.n), id);
    }
  }

  lemma AddTechOccurs(matrix: Matrix, tech: Tech, id: string)
    requires MatrixOk(matrix)
    ensures Occurs(AddTech(matrix, tech), id) <==> Occurs(matrix, id) || id == tech.id
  {
    AddTechOk(matrix, tech);
    OccursHolds(matrix, id);
    OccursHolds(AddTech(matrix, tech), id);
    forall n ensures Holds(AddTech(matrix, tech), TacticOf(id).tactic, Tech(id, n)) <==>
      (Holds(matrix, TacticOf(id).tactic, Tech(id, n))
       || (Tech(id, n) == tech && !Occurs(matrix, tech.id)))
    {
      AddTechHolds(matrix, tech, TacticOf(id).tactic, Tech(id, n));
    }
    assert tech == Tech(tech.id, tech.n);
  }

  // ----- sorting the matrix ------------------------------------------------------------------------------

  const ByPosition: (Column, Column) -> bool := (a: Column, b: Column) => Position(a.tactic) <= Position(b.tactic)
  const ByCountDown: (Tech, Tech) -> bool := (a: Tech, b: Tech) => a.n >= b.n

  function SortTechs(matrix: Matrix): (r: Matrix)
    ensures |r| == |matrix|
    ensures forall c :: 0 <= c < |r| ==> r[c] == Column(matrix[c].tactic, Sort(matrix[c].techs, ByCountDown))
  {
    seq(|matrix|, c requires 0 <= c < |matrix| => Column(matrix[c].tactic, Sort(matrix[c].techs, ByCountDown)))
  }

  function Arranged(matrix: Matrix): Matrix {
    SortTechs(Sort(matrix, ByPosition))
  }

  ghost predicate InTacticOrder(matrix: Matrix) {
    forall c, d :: 0 <= c < d < |matrix| ==> Position(matrix[c].tactic) < Position(matrix[d].tactic)
  }

  ghost predicate ByCount(matrix: Matrix) {
    forall c, j, k :: 0 <= c < |matrix| && 0 <= j < k < |matrix[c].techs| ==> matrix[c].techs[j].n >= matrix[c].techs[k].n
  }

  ghost predicate UniqueTactics(matrix: Matrix) {
    forall c, d :: 0 <= c < d < |matrix| ==> matrix[c].tactic != matrix[d].tactic
  }

  lemma {:induction false} SortTactics(matrix: Matrix)
    requires UniqueTactics(matrix)
    ensures UniqueTactics(Sort(matrix, ByPosition))
  {
    if matrix != [] {
      var rest := matrix[1..];
      assert forall c :: 0 <= c < |rest| ==> rest[c] == matrix[c + 1];
      SortTactics(rest);
      SortKeeps(rest, ByPosition);
      var r := Sort(rest, ByPosition);
      forall c | 0 <= c < |r| ensures r[c].tactic != matrix[0].tactic {
        assert r[c] in r;
      }
      InsertTactics(matrix[0], r);
    }
  }

  lemma {:induction false} InsertTactics(col: Column, matrix: Matrix)
    requires UniqueTactics(matrix)
    requires forall c :: 0 <= c < |matrix| ==> matrix[c].tactic != col.tactic
    ensures UniqueTactics(Insert(col, matrix, ByPosition))
  {
    if matrix != [] && !ByPosition(col, matrix[0]) {
      var rest := matrix[1..];
      assert forall c :: 0 <= c < |rest| ==> rest[c] == matrix[c + 1];
      InsertTactics(col, rest);
      InsertKeeps(col, rest, ByPosition);
      var r := Insert(col, rest, ByPosition);
      forall c | 0 <= c < |r| ensures r[c].tactic != matrix[0].tactic {
        assert r[c] in r;
      }
    }
  }

  lemma PositionsDiffer(a: Tactic, b: Tactic)
    ensures Position(a) == Position(b) <==> a == b
  {
  }

  lemma SortedColumn(col: Column)
    requires ColumnOk(col)
    ensures var techs := Sort(col.techs, ByCountDown);
      && ColumnOk(Column(col.tactic, techs)) && InOrder(techs, ByCountDown)
      && forall t :: t in techs <==> t in col.techs
  {
    var techs := Sort(col.techs, ByCountDown);
    SortUnlike(col.techs, ByCountDown, TechId);
    SortKeeps(col.techs, ByCountDown);
    SortInOrder(col.techs, ByCountDown);
    forall j | 0 <= j < |techs| ensures TacticOf(techs[j].id).tactic == col.tactic {
      assert techs[j] in techs;
      var i :| 0 <= i < |col.techs| && col.techs[i] == techs[j];
    }
  }

  lemma FallingCounts(techs: seq<Tech>)
    requires InOrder(techs, ByCountDown)
    ensures forall j, k :: 0 <= j < k < |techs| ==> techs[j].n >= techs[k].n
  {
    assert forall j, k :: 0 <= j < k < |techs| ==> ByCountDown(techs[j], techs[k]);
  }

  lemma ArrangedOk(matrix: Matrix)
    requires MatrixOk(matrix)
    ensures MatrixOk(Arranged(matrix)) && InTacticOrder(Arranged(matrix)) && ByCount(Arranged(matrix))
  {
    hide ColumnOk, InOrder, Sort, SortTechs;
    var sorted, m := Sort(matrix, ByPosition), Arranged(matrix);
    SortKeeps(matrix, ByPosition);
    SortTactics(matrix);
    SortInOrder(matrix, ByPosition);
    forall c | 0 <= c < |m| ensures ColumnOk(m[c]) && InOrder(m[c].techs, ByCountDown) {
      assert sorted[c] in sorted;
      SortedColumn(sorted[c]);
    }
    forall c | 0 <= c < |m| ensures forall j, k :: 0 <= j < k < |m[c].techs| ==> m[c].techs[j].n >= m[c].techs[k].n {
      FallingCounts(m[c].techs);
    }
    forall c, d | 0 <= c < d < |m| ensures Position(m[c].tactic) < Position(m[d].tactic) {
      PositionsDiffer(m[c].tactic, m[d].tactic);
      InOrderAt(sorted, c, d);
    }
  }

  lemma InOrderAt(matrix: Matrix, c: nat, d: nat)
    requires InOrder(matrix, ByPosition) && c < d < |matrix|
    ensures Position(matrix[c].tactic) <= Position(matrix[d].tactic)
  {
    assert ByPosition(matrix[c], matrix[d]);
  }

  // Sorting neither loses nor invents anything: columns come out in tactic
  // order, techniques by falling count.
  lemma ArrangedKeeps(matrix: Matrix, tactic: Tactic, x: Tech)
    requires MatrixOk(matrix)
    ensures MatrixOk(Arranged(matrix)) && InTacticOrder(Arranged(matrix)) && ByCount(Arranged(matrix))
    ensures Holds(Arranged(matrix), tactic, x) <==> Holds(matrix, tactic, x)
  {
    hide ColumnOk, InOrder, Sort, UniqueTactics, InTacticOrder;
    var sorted, m := Sort(matrix, ByPosition), Arranged(matrix);
    SortKeeps(matrix, ByPosition);
    ArrangedOk(matrix);
    forall c | 0 <= c < |m| ensures forall t :: t in m[c].techs <==> t in sorted[c].techs {
      SortKeeps(sorted[c].techs, ByCountDown);
    }
    if Holds(matrix, tactic, x) {
      var c :| 0 <= c < |matrix| && matrix[c].tactic == tactic && x in matrix[c].techs;
      assert matrix[c] in sorted;
      var d :| 0 <= d < |sorted| && sorted[d] == matrix[c];
      assert m[d].tactic == tactic && x in m[d].techs;
    }
    if Holds(m, tactic, x) {
      var d :| 0 <= d < |m| && m[d].tactic == tactic && x in m[d].techs;
      assert sorted[d] in matrix;
      var c :| 0 <= c < |matrix| && matrix[c] == sorted[d];
      assert matrix[c].tactic == tactic && x in matrix[c].techs;
    }
  }

  // ----- the whole patch -----------------------------------------------------------------------------------

  datatype Report = Report(incidents: seq<Incident>, glossary: seq<Row>, matrix: Matrix)

  // what the patch says about incidents; None when that is not a list
  datatype PatchDoc = PatchDoc(incidents: Option<seq<Option<Patch>>>)

  function Reconciled(r: Report): Report {
    var tally := IncidentTally(r.incidents);
    if tally == [] then r
    else r.(glossary := Sort(AddRows(r.glossary, tally), ByRowId), matrix := Arranged(AddTechs(r.matrix, tally)))
  }

  // no patch, or an empty one, leaves the skeleton alone
  function Patched(r: Report, patch: Option<PatchDoc>): Report {
    match patch
    case None => r
    case Some(doc) =>
      Reconciled(if doc.incidents.Some? then r.(incidents := Classified(r.incidents, doc.incidents.value)) else r)
  }

  ghost predicate GlossaryOk(glossary: seq<Row>) {
    UniqueRows(glossary) && InOrder(glossary, ByRowId)
  }

  ghost predicate WellBuilt(r: Report) {
    && IncidentsOk(r.incidents) && GlossaryOk(r.glossary)
    && MatrixOk(r.matrix) && InTacticOrder(r.matrix) && ByCount(r.matrix)
  }

  ghost predicate OnceInMatrix(matrix: Matrix, id: string) {
    && Occurs(matrix, id)
    && forall c, j, d, k :: (0 <= c < |matrix| && 0 <= j < |matrix[c].techs| && matrix[c].techs[j].id == id
                             && 0 <= d < |matrix| && 0 <= k < |matrix[d].techs| && matrix[d].techs[k].id == id)
                            ==> c == d && j == k
  }

  ghost predicate OnceInGlossary(glossary: seq<Row>, id: string) {
    && Explains(glossary, id)
    && forall i, j :: 0 <= i < |glossary| && 0 <= j < |glossary| && glossary[i].id == id && glossary[j].id == id ==> i == j
  }

  lemma OccursOnce(matrix: Matrix, id: string)
    requires MatrixOk(matrix) && Occurs(matrix, id)
    ensures OnceInMatrix(matrix, id)
  {
    forall c, j, d, k | 0 <= c < |matrix| && 0 <= j < |matrix[c].techs| && matrix[c].techs[j].id == id
                        && 0 <= d < |matrix| && 0 <= k < |matrix[d].techs| && matrix[d].techs[k].id == id
      ensures c == d && j == k
    {
      assert ColumnOk(matrix[c]) && ColumnOk(matrix[d]);
      assert matrix[c].tactic == matrix[d].tactic;
      assert TechId(matrix[c].techs[j]) == TechId(matrix[d].techs[k]);
    }
  }

  lemma RowOrdering()
    ensures Ordering(ByRowId)
  {
    forall a: Row, b: Row ensures ByRowId(a, b) || ByRowId(b, a) { AtMostTotal(a.id, b.id); }
    forall a: Row, b: Row, c: Row | ByRowId(a, b) && ByRowId(b, c) ensures ByRowId(a, c) {
      AtMostTransitive(a.id, b.id, c.id);
    }
  }

  lemma SortedGlossary(glossary: seq<Row>)
    requires UniqueRows(glossary)
    ensures GlossaryOk(Sort(glossary, ByRowId))
    ensures forall row :: row in Sort(glossary, ByRowId) <==> row in glossary
  {
    RowOrdering();
    assert Unlike(glossary, RowId);
    SortUnlike(glossary, ByRowId, RowId);
    SortInOrder(glossary, ByRowId);
    SortKeeps(glossary, ByRowId);
    var g := Sort(glossary, ByRowId);
    assert forall i :: 0 <= i < |g| ==> RowId(g[i]) == g[i].id;
  }

  // every old row stays; every counted technique that is known is explained
  lemma ReconciledGlossary(glossary: seq<Row>, tally: Tally)
    requires UniqueRows(glossary) && UniqueKeys(tally)
    ensures var g := Sort(AddRows(glossary, tally), ByRowId);
      && GlossaryOk(g)
      && (forall row :: row in g <==> (row in glossary || (Has(tally, row.id) && Known(row.id) && row.entry == EntryFor(row.id)
                                                            && !Explains(glossary, row.id))))
      && (forall t :: Has(tally, t) && Known(t) ==> OnceInGlossary(g, t))
  {
    hide AddRows, Sort, Known;
    var added := AddRows(glossary, tally);
    var g := Sort(added, ByRowId);
    AddRowsKeeps(glossary, tally, Row("", ""));
    SortedGlossary(added);
    forall row: Row
      ensures row in added <==> (row in glossary || (Has(tally, row.id) && Known(row.id) && row.entry == EntryFor(row.id)
                                                     && !Explains(glossary, row.id)))
    {
      AddRowsKeeps(glossary, tally, row);
    }
    forall t | Has(tally, t) && Known(t) ensures OnceInGlossary(g, t) {
      AddRowsKeeps(glossary, tally, Row(t, EntryFor(t)));
      if Explains(glossary, t) {
        var i :| 0 <= i < |glossary| && glossary[i].id == t;
        AddRowsKeeps(glossary, tally, glossary[i]);
        assert glossary[i] in g;
      } else {
        assert Row(t, EntryFor(t)) in g;
      }
    }
  }

  // what is in the matrix after reconciling: what was there, and every missing
  // technique of the incidents with the number of incidents it appears in
  lemma ReconciledMatrix(r: Report, tactic: Tactic, x: Tech)
    requires IncidentsOk(r.incidents) && MatrixOk(r.matrix)
    ensures var m := Arranged(AddTechs(r.matrix, IncidentTally(r.incidents)));
      && MatrixOk(m) && InTacticOrder(m) && ByCount(m)
      && (Holds(m, tactic, x) <==>
            (Holds(r.matrix, tactic, x)
             || (Appears(r.incidents, x.id) && x.n == Appearances(r.incidents, x.id)
                 && tactic == TacticOf(x.id).tactic && !Occurs(r.matrix, x.id))))
  {
    hide MatrixOk, Arranged, AddTechs, InTacticOrder, ByCount, Appearances, Occurs, Holds;
    var tally := IncidentTally(r.incidents);
    IncidentTallyCounts(r.incidents, x.id);
    AddTechsKeeps(r.matrix, tally, tactic, x);
    ArrangedKeeps(AddTechs(r.matrix, tally), tactic, x);
    TallyHolds(tally, x.id, x.n);
  }

  lemma TallyHolds(tally: Tally, k: string, n: nat)
    requires UniqueKeys(tally)
    ensures Count(k, n) in tally <==> Has(tally, k) && Get(tally, k) == n
  {
    if Count(k, n) in tally {
      var i :| 0 <= i < |tally| && tally[i] == Count(k, n);
      GetAt(tally, i);
    }
    if Has(tally, k) {
      var i :| 0 <= i < |tally| && tally[i].key == k;
      GetAt(tally, i);
    }
  }

  lemma TallyEmpty(incidents: seq<Incident>, k: string)
    requires IncidentsOk(incidents) && IncidentTally(incidents) == []
    ensures !Appears(incidents, k)
  {
    IncidentTallyCounts(incidents, k);
  }

  lemma ReconciledKeeps(r: Report)
    requires WellBuilt(r)
    ensures var r' := Reconciled(r);
      && WellBuilt(r') && r'.incidents == r.incidents
      && (forall t :: Appears(r.incidents, t) ==> OnceInMatrix(r'.matrix, t) && OnceInGlossary(r'.glossary, t))
      && (forall row :: row in r'.glossary <==>
            (row in r.glossary || (Appears(r.incidents, row.id) && row.entry == EntryFor(row.id) && !Explains(r.glossary, row.id))))
      && (forall tactic, x :: Holds(r'.matrix, tactic, x) <==>
            (Holds(r.matrix, tactic, x)
             || (Appears(r.incidents, x.id) && x.n == Appearances(r.incidents, x.id)
                 && tactic == TacticOf(x.id).tactic && !Occurs(r.matrix, x.id))))
  {
    hide MatrixOk, AddRows, Arranged, AddTechs, InTacticOrder, ByCount, GlossaryOk, Sort, Occurs, Holds, OnceInGlossary, Known,
         Explains, Appears, Has;
    var tally := IncidentTally(r.incidents);
    var r' := Reconciled(r);
    if tally == [] {
      forall t ensures !Appears(r.incidents, t) { TallyEmpty(r.incidents, t); }
    } else {
      IncidentTallyCounts(r.incidents, "");
      GlossaryUnique(r.glossary);
      ReconciledGlossary(r.glossary, tally);
      forall id ensures Has(tally, id) <==> Appears(r.incidents, id) { IncidentTallyCounts(r.incidents, id); }
      forall id | Appears(r.incidents, id) ensures Known(id) { AppearsKnown(r.incidents, id); }
      forall tactic, x
        ensures MatrixOk(r'.matrix) && InTacticOrder(r'.matrix) && ByCount(r'.matrix)
        ensures Holds(r'.matrix, tactic, x) <==>
          (Holds(r.matrix, tactic, x)
           || (Appears(r.incidents, x.id) && x.n == Appearances(r.incidents, x.id)
               && tactic == TacticOf(x.id).tactic && !Occurs(r.matrix, x.id)))
      {
        ReconciledMatrix(r, tactic, x);
      }
      ReconciledMatrix(r, Impact, Tech("", 0));
      forall t | Appears(r.incidents, t) ensures OnceInMatrix(r'.matrix, t) && OnceInGlossary(r'.glossary, t) {
        IncidentTallyCounts(r.incidents, t);
        AppearsKnown(r.incidents, t);
        OccursHolds(r.matrix, t);
        OccursHolds(r'.matrix, t);
        assert Holds(r'.matrix, TacticOf(t).tactic, Tech(t, Appearances(r.incidents, t))) || Occurs(r.matrix, t);
        OccursOnce(r'.matrix, t);
      }
    }
  }

  lemma GlossaryUnique(glossary: seq<Row>)
    requires GlossaryOk(glossary)
    ensures UniqueRows(glossary)
  {
  }

  lemma AppearsKnown(incidents: seq<Incident>, t: string)
    requires IncidentsOk(incidents) && Appears(incidents, t)
    ensures Known(t)
  {
  }

  // After any patch: every technique of every incident is exactly once in the
  // matrix and exactly once in the glossary; what the rules put into an incident,
  // into the matrix (with its count) and into the glossary is kept; anything new
  // in the matrix is an incident's technique in the column of its tactic, with
  // the number of incidents that name it; columns stay in tactic order and
  // techniques in order of their counts, so the next patch finds the same.
  lemma AfterAnyPatch(r: Report, doc: PatchDoc)
    requires WellBuilt(r)
    ensures var r' := Patched(r, Some(doc));
      && WellBuilt(r')
      && |r'.incidents| == |r.incidents|
      && (forall i :: 0 <= i < |r.incidents| ==> r.incidents[i].mitre <= r'.incidents[i].mitre)
      && (forall t :: Appears(r'.incidents, t) ==> OnceInMatrix(r'.matrix, t) && OnceInGlossary(r'.glossary, t))
      && (forall row :: row in r'.glossary <==>
            (row in r.glossary || (Appears(r'.incidents, row.id) && row.entry == EntryFor(row.id) && !Explains(r.glossary, row.id))))
      && (forall tactic, x :: Holds(r'.matrix, tactic, x) <==>
            (Holds(r.matrix, tactic, x)
             || (Appears(r'.incidents, x.id) && x.n == Appearances(r'.incidents, x.id)
                 && tactic == TacticOf(x.id).tactic && !Occurs(r.matrix, x.id))))
  {
    hide MatrixOk, InTacticOrder, ByCount, GlossaryOk, Occurs, Holds, OnceInMatrix, OnceInGlossary, Reconciled, Classified;
    if doc.incidents.Some? {
      ClassifiedKeeps(r.incidents, doc.incidents.value);
      ReconciledKeeps(r.(incidents := Classified(r.incidents, doc.incidents.value)));
    } else {
      ReconciledKeeps(r);
    }
  }

  // ----- the skeleton, changed in place ------------------------------------------------------------------------

  class Skeleton {
    var incidents: seq<Incident>
    var glossary: seq<Row>
    var matrix: Matrix

    ghost function Contents(): Report
      reads this
    {
      Report(incidents, glossary, matrix)
    }

    constructor (r: Report)
      ensures Contents() == r
    {
      incidents, glossary, matrix := r.incidents, r.glossary, r.matrix;
    }

    // _apply_incident_classification
    method ApplyIncidentClassification(patch: seq<Option<Patch>>)
      modifies this`incidents
      ensures incidents == Classified(old(incidents), patch)
    {
      for k := 0 to |patch|
        invariant incidents == Classified(old(incidents), patch[..k])
      {
        assert patch[..k + 1][..k] == patch[..k];
        if patch[k].Some? {
          var entry := patch[k].value;
          var i := entry.index;
          if 0 <= i < |incidents| {
            var mitre := if entry.mitre.Some? then ValidMitre(entry.mitre.value) else [];
            if mitre != [] {
              var merged := Dedupe(incidents[i].mitre + mitre);
              incidents := incidents[i := incidents[i].(mitre := merged, kill := KillFor(merged))];
            }
            if entry.severity.Some? {
              incidents := incidents[i := incidents[i].(severity := entry.severity.value)];
            }
          }
        }
      }
      assert patch[..|patch|] == patch;
    }

    method CountTechniques() returns (tally: Tally)
      ensures tally == IncidentTally(incidents)
    {
      tally := [];
      for i := 0 to |incidents|
        invariant tally == IncidentTally(incidents[..i])
      {
        var mitre := incidents[i].mitre;
        assert incidents[..i + 1][..i] == incidents[..i];
        ghost var before := tally;
        for k := 0 to |mitre|
          invariant tally == TallyAll(before, mitre[..k])
        {
          assert mitre[..k + 1][..k] == mitre[..k];
          if mitre[k] != "" { tally := Bump(tally, mitre[k]); }
        }
        assert mitre[..|mitre|] == mitre;
      }
      assert incidents[..|incidents|] == incidents;
    }

    method ExtendGlossary(tally: Tally)
      modifies this`glossary
      ensures glossary == Sort(AddRows(old(glossary), tally), ByRowId)
    {
      var seen := set i | 0 <= i < |glossary| :: glossary[i].id;
      for k := 0 to |tally|
        invariant glossary == AddRows(old(glossary), tally[..k])
        invariant forall id :: id in seen <==> Explains(glossary, id)
      {
        assert tally[..k + 1][..k] == tally[..k];
        var t := tally[k].key;
        if t !in seen && Known(t) {
          ghost var was := glossary;
          glossary := glossary + [Row(t, EntryFor(t))];
          seen := seen + {t};
          ExplainsSnoc(was, Row(t, EntryFor(t)));
        }
      }
      assert tally[..|tally|] == tally;
      glossary := Sort(glossary, ByRowId);
    }

    method ExtendMatrix(tally: Tally)
      modifies this`matrix
      ensures matrix == Arranged(AddTechs(old(matrix), tally))
    {
      var existing := set c, j | 0 <= c < |matrix| && 0 <= j < |matrix[c].techs| :: matrix[c].techs[j].id;
      for k := 0 to |tally|
        invariant matrix == AddTechs(old(matrix), tally[..k])
        invariant forall id :: id in existing <==> Occurs(matrix, id)
      {
        hide Occurs;
        assert tally[..k + 1][..k] == tally[..k];
        var t := tally[k].key;
        if t !in existing {
          var tech := Tech(t, tally[k].n);
          var col := ColumnFor(matrix, TacticOf(t).tactic);
          ghost var was := matrix;
          if col.None? {
            matrix := matrix + [Column(TacticOf(t).tactic, [tech])];
          } else {
            matrix := matrix[col.value := matrix[col.value].(techs := matrix[col.value].techs + [tech])];
          }
          existing := existing + {t};
          OccursAdded(was, tech);
        }
      }
      assert tally[..|tally|] == tally;
      matrix := Arranged(matrix);
    }

    // _reconcile_mitre
    method ReconcileMitre()
      modifies this
      ensures Contents() == Reconciled(old(Contents()))
    {
      var tally := CountTechniques();
      if tally == [] { return; }
      ExtendGlossary(tally);
      ExtendMatrix(tally);
    }
  }

  lemma ExplainsSnoc(glossary: seq<Row>, row: Row)
    ensures forall id :: Explains(glossary + [row], id) <==> Explains(glossary, id) || id == row.id
  {
    var g := glossary + [row];
    assert g[|glossary|] == row;
    assert forall i :: 0 <= i < |glossary| ==> g[i] == glossary[i];
  }

  lemma OccursAdded(matrix: Matrix, tech: Tech)
    requires !Occurs(matrix, tech.id)
    ensures forall id :: Occurs(AddTech(matrix, tech), id) <==> Occurs(matrix, id) || id == tech.id
  {
    var m := AddTech(matrix, tech);
    var found := ColumnFor(matrix, TacticOf(tech.id).tactic);
    if found.Some? {
      var c := found.value;
      assert m[c].techs[|matrix[c].techs|] == tech;
    } else {
      assert m[|matrix|].techs[0] == tech;
    }
    forall id | Occurs(matrix, id) ensures Occurs(m, id) {
      var c, j :| 0 <= c < |matrix| && 0 <= j < |matrix[c].techs| && matrix[c].techs[j].id == id;
      assert m[c].techs[j] == matrix[c].techs[j];
    }
    forall id | Occurs(m, id) && id != tech.id ensures Occurs(matrix, id) {
      var c, j :| 0 <= c < |m| && 0 <= j < |m[c].techs| && m[c].techs[j].id == id;
      assert c < |matrix| && j < |matrix[c].techs| && matrix[c].techs[j] == m[c].techs[j];
    }
  }
}
