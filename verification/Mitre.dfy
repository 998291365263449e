// The MITRE ATT&CK tables of the report builder: which techniques the glossary
// explains, and which tactic and kill-chain phase a technique belongs to.

module Mitre {
  datatype Tactic = InitialAccess | CredentialAccess | PrivilegeEscalation | Persistence | DefenseEvasion | Impact

  // position in TACTIC_ORDER
  function Position(t: Tactic): nat {
    match t
    case InitialAccess => 0
    case CredentialAccess => 1
    case PrivilegeEscalation => 2
    case Persistence => 3
    case DefenseEvasion => 4
    case Impact => 5
  }

  // from the way in to the damage done
  lemma TacticOrder()
    ensures Position(InitialAccess) < Position(CredentialAccess) < Position(PrivilegeEscalation)
    ensures Position(PrivilegeEscalation) < Position(Persistence) < Position(DefenseEvasion) < Position(Impact)
  {
  }

  // T1003.008 -> T1003
  function BaseId(tech: string): (r: string)
    ensures r <= tech && '.' !in r
    ensures |r| < |tech| ==> tech[|r|] == '.'
  {
    if tech == "" || tech[0] == '.' then "" else [tech[0]] + BaseId(tech[1..])
  }

  datatype Placement = Placement(tactic: Tactic, phase: nat)

  function TacticOf(tech: string): Placement {
    match BaseId(tech)
    case "T1078" => Placement(InitialAccess, 0)
    case "T1189" => Placement(InitialAccess, 0)
    case "T1003" => Placement(CredentialAccess, 2)
    case "T1552" => Placement(CredentialAccess, 2)
    case "T1548" => Placement(PrivilegeEscalation, 1)
    case "T1068" => Placement(PrivilegeEscalation, 1)
    case "T1098" => Placement(Persistence, 1)
    case "T1136" => Placement(Persistence, 1)
    case "T1543" => Placement(Persistence, 1)
    case "T1053" => Placement(Persistence, 1)
    case "T1554" => Placement(Persistence, 1)
    case "T1565" => Placement(Impact, 4)
    case "T1485" => Placement(Impact, 4)
    case "T1491" => Placement(Impact, 4)
    case _ => Placement(DefenseEvasion, 3)
  }

  // the keys of MITRE_GLOSSARY
  function Glossary(): set<string> {
    {"T1003", "T1003.008", "T1036", "T1036.005", "T1053", "T1053.003", "T1059", "T1059.004", "T1059.006",
     "T1068", "T1070", "T1070.002", "T1070.004", "T1071", "T1071.001", "T1071.004", "T1074", "T1074.001",
     "T1078", "T1098", "T1098.004", "T1136", "T1136.001", "T1485", "T1491", "T1491.001", "T1189",
     "T1543", "T1543.002", "T1548", "T1548.003", "T1552", "T1552.001", "T1554", "T1556",
     "T1565", "T1565.001", "T1574", "T1574.006"}
  }

  // the glossary explains the technique itself or the technique it is a part of
  predicate Known(tech: string) {
    tech in Glossary() || BaseId(tech) in Glossary()
  }

  // the techniques the path rules and the process evidence can name
  function RuleTechniques(): set<string> {
    {"T1003.008", "T1036.005", "T1053.003", "T1059.004", "T1059.006", "T1070.002", "T1070.004", "T1071.001",
     "T1071.004", "T1074.001", "T1078", "T1098", "T1098.004", "T1136.001", "T1189", "T1485", "T1491.001",
     "T1543.002", "T1548.003", "T1552.001", "T1554", "T1556", "T1565", "T1565.001", "T1574.006"}
  }

  // No rule names a technique that the glossary cannot explain.
  lemma RulesAreInGlossary()
    ensures RuleTechniques() <= Glossary()
  {
  }

  // A part of a technique is placed where the technique is.
  lemma PartOf(tech: string, part: string)
    requires '.' !in tech
    ensures BaseId(tech) == tech && BaseId(tech + "." + part) == tech
    ensures TacticOf(tech + "." + part) == TacticOf(tech)
  {
    hide TacticOf;
    BaseUnique(tech, tech);
    BaseUnique(tech + "." + part, tech);
    SameBase(tech + "." + part, tech);
  }

  lemma SameBase(a: string, b: string)
    requires BaseId(a) == BaseId(b)
    ensures TacticOf(a) == TacticOf(b)
  {
  }

  lemma BaseUnique(tech: string, b: string)
    requires b <= tech && '.' !in b && (|b| < |tech| ==> tech[|b|] == '.')
    ensures BaseId(tech) == b
  {
    var r := BaseId(tech);
    assert forall i :: 0 <= i < |r| ==> r[i] in r && r[i] == tech[i];
    assert forall i :: 0 <= i < |b| ==> b[i] in b && b[i] == tech[i];
    assert |r| <= |b| && |b| <= |r|;
  }

  // Which techniques each tactic has, and the phase each tactic belongs to; whatever
  // the tables do not place is defence evasion.
  lemma PhaseOf(tech: string)
    ensures var p := TacticOf(tech);
      && p.phase <= 4
      && (p.tactic == InitialAccess <==> p.phase == 0)
      && (p.tactic == CredentialAccess <==> p.phase == 2)
      && (p.tactic in {PrivilegeEscalation, Persistence} <==> p.phase == 1)
      && (p.tactic == DefenseEvasion <==> p.phase == 3)
      && (p.tactic == Impact <==> p.phase == 4)
      && (p.tactic == InitialAccess <==> BaseId(tech) in {"T1078", "T1189"})
      && (p.tactic == CredentialAccess <==> BaseId(tech) in {"T1003", "T1552"})
      && (p.tactic == PrivilegeEscalation <==> BaseId(tech) in {"T1548", "T1068"})
      && (p.tactic == Persistence <==> BaseId(tech) in {"T1098", "T1136", "T1543", "T1053", "T1554"})
      && (p.tactic == Impact <==> BaseId(tech) in {"T1565", "T1485", "T1491"})
  {
    hide BaseId;
  }
}
