// A patch as the language model returns it: overlaying its texts on the report,
// what of it reaches the incidents, the matrix and the glossary, and the one thing in
// it that makes apply_patch raise.

module Overlay {
  import opened Prelude
  import opened Assemble
  import Mitre
  import Ordered

  // A JSON value, as far as the code looks at it: a string, a list, an infinite number
  // (Infinity, or one too large for a float), or anything else with what int() makes
  // of it.
  datatype Json = Str(text: string) | List(items: seq<Json>) | Infinite | Other(number: Option<int>)

  // an entry of a patch list; None for what is not a dict
  type Entry = Option<map<string, Json>>

  // what Python's library decides: which characters are space, and int() of a string
  datatype Python = Python(space: char -> bool, toInt: string -> Option<int>)

  datatype Document = Document(findings: Option<seq<Entry>>, recs: Option<seq<Entry>>, incidents: Option<seq<Entry>>,
                               executiveSummary: Option<Json>)

  const FINDING_FIELDS: seq<string> := ["tag", "title", "body"]
  const REC_FIELDS: seq<string> := ["title", "body", "link"]
  const INCIDENT_FIELDS: seq<string> := ["desc", "detail", "finding"]

  function LeftStripped(space: char -> bool, s: string): string {
    if s != "" && space(s[0]) then LeftStripped(space, s[1..]) else s
  }

  function RightStripped(space: char -> bool, s: string): string {
    if s != "" && space(s[|s| - 1]) then RightStripped(space, s[..|s| - 1]) else s
  }

  // str.strip
  function Strip(py: Python, s: string): string {
    RightStripped(py.space, LeftStripped(py.space, s))
  }

  lemma {:induction false} LeftExact(space: char -> bool, s: string) returns (i: nat)
    ensures i <= |s| && LeftStripped(space, s) == s[i..]
    ensures (forall k :: 0 <= k < i ==> space(s[k])) && (i < |s| ==> !space(s[i]))
  {
    i := 0;
    if s != "" && space(s[0]) {
      i := LeftExact(space, s[1..]);
      i := i + 1;
    }
  }

  lemma {:induction false} RightExact(space: char -> bool, s: string) returns (j: nat)
    ensures j <= |s| && RightStripped(space, s) == s[..j]
    ensures (forall k :: j <= k < |s| ==> space(s[k])) && (j > 0 ==> !space(s[j - 1]))
  {
    j := |s|;
    if s != "" && space(s[|s| - 1]) {
      j := RightExact(space, s[..|s| - 1]);
      assert s[..|s| - 1][..j] == s[..j];
    }
  }

  // Stripping takes spaces from both ends, and nothing else.
  lemma StripExact(py: Python, s: string) returns (i: nat, j: nat)
    ensures i <= j <= |s| && Strip(py, s) == s[i..j]
    ensures forall k :: 0 <= k < |s| && !(i <= k < j) ==> py.space(s[k])
    ensures i < j ==> !py.space(s[i]) && !py.space(s[j - 1])
  {
    i := LeftExact(py.space, s);
    var n := RightExact(py.space, s[i..]);
    j := i + n;
    assert s[i..][..n] == s[i..j];
    assert forall k :: i <= k < |s| ==> s[i..][k - i] == s[k];
  }

  function Lookup(entry: map<string, Json>, key: string): Json {
    if key in entry then entry[key] else Other(None)
  }

  // _as_int, with its default; None when it raises, since int() answers an infinite
  // number with OverflowError, which is not caught
  function AsInt(py: Python, v: Json): Option<int> {
    match v
    case Str(s) => Some(OrDefault(py.toInt(s)))
    case List(_) => Some(-1)
    case Infinite => None
    case Other(number) => Some(OrDefault(number))
  }

  function OrDefault(n: Option<int>): int {
    if n.Some? then n.value else -1
  }

  function IndexOf(py: Python, entry: map<string, Json>): Option<int> {
    AsInt(py, Lookup(entry, "index"))
  }

  // The index an entry is about: none (-1) without one, for a list, and for what int()
  // does not take.
  lemma IndexExact(py: Python, entry: map<string, Json>)
    ensures "index" !in entry ==> IndexOf(py, entry) == Some(-1)
    ensures "index" in entry ==>
      match entry["index"]
      case Infinite => IndexOf(py, entry) == None
      case List(_) => IndexOf(py, entry) == Some(-1)
      case Str(s) => IndexOf(py, entry) == (match py.toInt(s) case None => Some(-1) case n => n)
      case Other(number) => IndexOf(py, entry) == (match number case None => Some(-1) case n => n)
  {
  }

  // the text a value amounts to, if it is a string that is not blank
  function Prose(py: Python, v: Json): Option<string> {
    if v.Str? && Strip(py, v.text) != "" then Some(Strip(py, v.text)) else None
  }

  // ----- _overlay --------------------------------------------------------------------------------

  // the text fields of one item
  type Texts = map<string, string>

  function Written(py: Python, item: Texts, entry: map<string, Json>, fields: seq<string>): Texts {
    if fields == [] then item
    else
      var before, f := Written(py, item, entry, fields[..|fields| - 1]), fields[|fields| - 1];
      match Prose(py, Lookup(entry, f))
      case None => before
      case Some(text) => before[f := text]
  }

  datatype Outcome = Outcome(items: seq<Texts>, raised: bool)

  // an exception ends the loop, with what was written before it in place
  function Overlaid(py: Python, items: seq<Texts>, patch: seq<Entry>, fields: seq<string>): (r: Outcome)
    ensures |r.items| == |items|
  {
    if patch == [] then Outcome(items, false)
    else
      var before, entry := Overlaid(py, items, patch[..|patch| - 1], fields), patch[|patch| - 1];
      if before.raised || entry.None? then before
      else
        match IndexOf(py, entry.value)
        case None => before.(raised := true)
        case Some(i) =>
          if !(0 <= i < |before.items|) then before
          else before.(items := before.items[i := Written(py, before.items[i], entry.value, fields)])
  }

  method OverlayItems(py: Python, items: seq<Texts>, patch: seq<Entry>, fields: seq<string>) returns (out: seq<Texts>, raised: bool)
    ensures Outcome(out, raised) == Overlaid(py, items, patch, fields)
  {
    out, raised := items, false;
    for k := 0 to |patch|
      invariant !raised && Outcome(out, false) == Overlaid(py, items, patch[..k], fields)
    {
      assert patch[..k + 1][..k] == patch[..k];
      if patch[k].None? { continue; }
      var entry := patch[k].value;
      var index := AsInt(py, Lookup(entry, "index"));
      if index.None? {
        RaisedStays(py, items, patch, fields, k + 1);
        return out, true;
      }
      var i := index.value;
      if !(0 <= i < |out|) { continue; }
      var item := out[i];
      for j := 0 to |fields|
        invariant item == Written(py, out[i], entry, fields[..j])
      {
        assert fields[..j + 1][..j] == fields[..j];
        var val := Lookup(entry, fields[j]);
        if val.Str? && Strip(py, val.text) != "" {
          item := item[fields[j] := Strip(py, val.text)];
        }
      }
      assert fields[..|fields|] == fields;
      out := out[i := item];
    }
    assert patch[..|patch|] == patch;
  }

  lemma {:induction false} RaisedStays(py: Python, items: seq<Texts>, patch: seq<Entry>, fields: seq<string>, k: nat)
    requires k <= |patch| && Overlaid(py, items, patch[..k], fields).raised
    ensures Overlaid(py, items, patch, fields) == Overlaid(py, items, patch[..k], fields)
  {
    hide IndexOf, Written;
    if k < |patch| {
      assert patch[..|patch| - 1][..k] == patch[..k];
      RaisedStays(py, items, patch[..|patch| - 1], fields, k);
    } else {
      assert patch[..k] == patch;
    }
  }

  // What the patch says in the end of field f of item i: the last of its entries
  // with that index and a text that is not blank.
  function LastSaid(py: Python, patch: seq<Entry>, i: int, f: string): Option<string> {
    if patch == [] then None
    else
      var entry := patch[|patch| - 1];
      if entry.Some? && IndexOf(py, entry.value) == Some(i) && Prose(py, Lookup(entry.value, f)).Some?
      then Prose(py, Lookup(entry.value, f))
      else LastSaid(py, patch[..|patch| - 1], i, f)
  }

  predicate InfiniteIndex(entry: Entry) {
    entry.Some? && Lookup(entry.value, "index").Infinite?
  }

  // the entries before the first infinite index
  function Finite(patch: seq<Entry>): (r: seq<Entry>)
    ensures r <= patch
  {
    if patch == [] || InfiniteIndex(patch[0]) then [] else [patch[0]] + Finite(patch[1..])
  }

  lemma {:induction false} FiniteSnoc(front: seq<Entry>, last: Entry)
    ensures Finite(front + [last]) == if Finite(front) == front && !InfiniteIndex(last) then front + [last] else Finite(front)
  {
    hide InfiniteIndex;
    if front == [] {
      assert [] + [last] == [last] && [last][1..] == [];
    } else {
      assert (front + [last])[1..] == front[1..] + [last];
      FiniteSnoc(front[1..], last);
    }
  }

  ghost predicate SomeInfinite(patch: seq<Entry>) {
    exists k :: 0 <= k < |patch| && InfiniteIndex(patch[k])
  }

  lemma {:induction false} FiniteWhole(patch: seq<Entry>)
    ensures Finite(patch) != patch <==> SomeInfinite(patch)
  {
    hide InfiniteIndex;
    if patch != [] && !InfiniteIndex(patch[0]) {
      var rest := patch[1..];
      FiniteWhole(rest);
      assert patch == [patch[0]] + rest;
      if SomeInfinite(rest) {
        var k :| 0 <= k < |rest| && InfiniteIndex(rest[k]);
        assert InfiniteIndex(patch[k + 1]);
      }
      if SomeInfinite(patch) {
        var k :| 0 <= k < |patch| && InfiniteIndex(patch[k]);
        assert InfiniteIndex(rest[k - 1]);
      }
    }
  }

  // An overlay raises exactly when one of its entries has an infinite index, and then
  // leaves what the entries before the first such wrote.
  lemma RaisesExactly(py: Python, items: seq<Texts>, patch: seq<Entry>, fields: seq<string>)
    ensures var r := Overlaid(py, items, patch, fields);
      && (r.raised <==> SomeInfinite(patch))
      && r.items == Overlaid(py, items, Finite(patch), fields).items
  {
    hide Overlaid, SomeInfinite;
    FiniteWhole(patch);
    StopsAtInfinite(py, items, patch, fields);
  }

  lemma {:induction false} StopsAtInfinite(py: Python, items: seq<Texts>, patch: seq<Entry>, fields: seq<string>)
    ensures var r := Overlaid(py, items, patch, fields);
      (r.raised <==> Finite(patch) != patch) && r.items == Overlaid(py, items, Finite(patch), fields).items
  {
    hide Written, Prose, Finite;
    if patch == [] {
      assert Finite(patch) == [];
    } else {
      var front, last := patch[..|patch| - 1], patch[|patch| - 1];
      assert patch == front + [last];
      StopsAtInfinite(py, items, front, fields);
      FiniteSnoc(front, last);
    }
  }

  lemma {:induction false} WrittenIs(py: Python, item: Texts, entry: map<string, Json>, fields: seq<string>, f: string)
    ensures var w := Written(py, item, entry, fields);
      if f in fields && Prose(py, Lookup(entry, f)).Some? then f in w && w[f] == Prose(py, Lookup(entry, f)).value
      else (f in w <==> f in item) && (f in w ==> w[f] == item[f])
  {
    hide Prose, Lookup;
    if fields != [] {
      var front, last := fields[..|fields| - 1], fields[|fields| - 1];
      WrittenIs(py, item, entry, front, f);
      assert fields == front + [last];
    }
  }

  // A text field ends up as the patch last said, up to an infinite index, and as it was
  // when the patch said nothing usable or the field is not one a patch may write; no
  // item is added or removed.
  lemma LastSaidWins(py: Python, items: seq<Texts>, patch: seq<Entry>, fields: seq<string>, i: nat, f: string)
    requires i < |items|
    ensures var out, said := Overlaid(py, items, patch, fields).items, LastSaid(py, Finite(patch), i, f);
      if f in fields && said.Some? then f in out[i] && out[i][f] == said.value
      else (f in out[i] <==> f in items[i]) && (f in out[i] ==> out[i][f] == items[i][f])
  {
    hide Overlaid, LastSaid, Finite;
    StopsAtInfinite(py, items, patch, fields);
    FiniteTwice(patch);
    StopsAtInfinite(py, items, Finite(patch), fields);
    LastOfFinite(py, items, Finite(patch), fields, i, f);
  }

  lemma {:induction false} FiniteTwice(patch: seq<Entry>)
    ensures Finite(Finite(patch)) == Finite(patch)
  {
    hide InfiniteIndex;
    if patch != [] { FiniteTwice(patch[1..]); }
  }

  lemma {:induction false} LastOfFinite(py: Python, items: seq<Texts>, patch: seq<Entry>, fields: seq<string>, i: nat, f: string)
    requires i < |items| && !Overlaid(py, items, patch, fields).raised
    ensures var out, said := Overlaid(py, items, patch, fields).items, LastSaid(py, patch, i, f);
      if f in fields && said.Some? then f in out[i] && out[i][f] == said.value
      else (f in out[i] <==> f in items[i]) && (f in out[i] ==> out[i][f] == items[i][f])
  {
    hide Prose, Lookup, AsInt, Written;
    if patch != [] {
      LastOfFinite(py, items, patch[..|patch| - 1], fields, i, f);
      var before, entry := Overlaid(py, items, patch[..|patch| - 1], fields).items, patch[|patch| - 1];
      if entry.Some? && IndexOf(py, entry.value) == Some(i) {
        WrittenIs(py, before[i], entry.value, fields, f);
      }
    }
  }

  // ----- the checked fields ---------------------------------------------------------------------------

  function SeverityNamed(v: Json): Option<Severity> {
    if v == Str("Critical") then Some(Critical)
    else if v == Str("High") then Some(High)
    else if v == Str("Medium") then Some(Medium)
    else if v == Str("Low") then Some(Low)
    else None
  }

  function Names(py: Python, items: seq<Json>): seq<string> {
    if items == [] then []
    else
      var front, last := Names(py, items[..|items| - 1]), items[|items| - 1];
      if last.Str? then front + [Strip(py, last.text)] else front
  }

  lemma {:induction false} NamesHas(py: Python, items: seq<Json>, t: string)
    ensures t in Names(py, items) <==> exists j :: 0 <= j < |items| && items[j].Str? && Strip(py, items[j].text) == t
  {
    hide Strip;
    if items != [] {
      var front, last := items[..|items| - 1], items[|items| - 1];
      NamesHas(py, front, t);
      assert items[|items| - 1] == last && forall j :: 0 <= j < |front| ==> items[j] == front[j];
    }
  }

  // The names keep the order of the list.
  lemma {:induction false} NamesAppend(py: Python, a: seq<Json>, b: seq<Json>)
    ensures Names(py, a + b) == Names(py, a) + Names(py, b)
    decreases |b|
  {
    hide Strip;
    if b == [] {
      assert a + b == a;
    } else {
      var front, last := b[..|b| - 1], b[|b| - 1];
      NamesAppend(py, a, front);
      assert (a + b)[..|a + b| - 1] == a + front;
    }
  }

  lemma SeverityExact(v: Json)
    ensures SeverityNamed(v) == Some(Critical) <==> v == Str("Critical")
    ensures SeverityNamed(v) == Some(High) <==> v == Str("High")
    ensures SeverityNamed(v) == Some(Medium) <==> v == Str("Medium")
    ensures SeverityNamed(v) == Some(Low) <==> v == Str("Low")
  {
  }

  // what an entry says about an incident's classification; the overlay before has
  // raised if its index is infinite
  function Classification(py: Python, entry: Entry): Option<Patch> {
    match entry
    case None => None
    case Some(m) =>
      var mitre := Lookup(m, "mitre");
      Some(Patch(OrDefault(IndexOf(py, m)), if mitre.List? then Some(Names(py, mitre.items)) else None,
                 SeverityNamed(Lookup(m, "sev"))))
  }

  function Classifications(py: Python, patch: seq<Entry>): seq<Option<Patch>> {
    seq(|patch|, i requires 0 <= i < |patch| => Classification(py, patch[i]))
  }

  // An entry states a severity exactly by its name under "sev".
  lemma SeverityStated(py: Python, entry: map<string, Json>)
    ensures var stated := Classification(py, Some(entry)).value.severity;
      && (stated == Some(Critical) <==> "sev" in entry && entry["sev"] == Str("Critical"))
      && (stated == Some(High) <==> "sev" in entry && entry["sev"] == Str("High"))
      && (stated == Some(Medium) <==> "sev" in entry && entry["sev"] == Str("Medium"))
      && (stated == Some(Low) <==> "sev" in entry && entry["sev"] == Str("Low"))
  {
    hide IndexOf, Names;
  }

  // an entry for incident i whose list of techniques holds t, up to spaces around it
  ghost predicate Offers(py: Python, entry: Entry, i: nat, t: string) {
    && entry.Some? && IndexOf(py, entry.value) == Some(i)
    && "mitre" in entry.value && entry.value["mitre"].List?
    && exists j :: 0 <= j < |entry.value["mitre"].items|
         && entry.value["mitre"].items[j].Str? && Strip(py, entry.value["mitre"].items[j].text) == t
  }

  lemma OffersNames(py: Python, entry: Entry, i: nat, t: string)
    ensures var p := Classification(py, entry);
      p.Some? && p.value.index == i && Assemble.Names(p.value, t) <==> t != "" && Mitre.Known(t) && Offers(py, entry, i, t)
  {
    hide Names, Strip, Mitre.Known;
    if entry.Some? {
      var mitre := Lookup(entry.value, "mitre");
      if mitre.List? { NamesHas(py, mitre.items, t); }
    }
  }

  // From the patch as it was returned to the incident: a technique is in it exactly
  // when the rules put it there or an entry for this incident offers it and the
  // glossary knows it.
  lemma TechniquesExact(py: Python, incidents: seq<Incident>, entries: seq<Entry>, i: nat, t: string)
    requires IncidentsOk(incidents) && i < |incidents|
    ensures t in Classified(incidents, Classifications(py, entries))[i].mitre <==>
      || t in incidents[i].mitre
      || (t != "" && Mitre.Known(t) && exists k :: 0 <= k < |entries| && Offers(py, entries[k], i, t))
  {
    hide Classification, Offers, Mitre.Known, Assemble.Names, Classified, IncidentsOk;
    var patch := Classifications(py, entries);
    ClassifiedExact(incidents, patch, i);
    forall k | 0 <= k < |entries|
      ensures patch[k].Some? && patch[k].value.index == i && Assemble.Names(patch[k].value, t)
         <==> t != "" && Mitre.Known(t) && Offers(py, entries[k], i, t)
    {
      OffersNames(py, entries[k], i, t);
    }
  }

  function Checked(py: Python, doc: Option<Document>): Option<PatchDoc> {
    match doc
    case None => None
    case Some(d) =>
      Some(PatchDoc(match d.incidents case None => None case Some(entries) => Some(Classifications(py, entries))))
  }

  // What reaches the incidents of a patch: its list of incidents and nothing else; no
  // patch at all changes nothing.
  lemma PatchReaches(py: Python, r: Report, doc: Document)
    ensures Patched(r, Checked(py, None)) == r
    ensures Patched(r, Checked(py, Some(doc))).incidents ==
      match doc.incidents case None => r.incidents case Some(entries) => Classified(r.incidents, Classifications(py, entries))
  {
    hide Classified, Classifications, IncidentTally, AddRows, Arranged, AddTechs, Ordered.Sort;
  }

  // ----- apply_patch -------------------------------------------------------------------------------------

  datatype Wording = Wording(findings: seq<Texts>, recs: seq<Texts>, incidents: seq<Texts>, executiveSummary: string)

  function Retold(py: Python, items: seq<Texts>, patch: Option<seq<Entry>>, fields: seq<string>): Outcome {
    match patch case None => Outcome(items, false) case Some(entries) => Overlaid(py, items, entries, fields)
  }

  datatype Reworded = Reworded(words: Wording, raised: bool)

  // the three overlays in turn, and the summary unless one of them raised
  function Reword(py: Python, w: Wording, doc: Option<Document>): Reworded {
    match doc
    case None => Reworded(w, false)
    case Some(d) =>
      var findings := Retold(py, w.findings, d.findings, FINDING_FIELDS);
      var w1 := w.(findings := findings.items);
      if findings.raised then Reworded(w1, true)
      else
        var recs := Retold(py, w.recs, d.recs, REC_FIELDS);
        var w2 := w1.(recs := recs.items);
        if recs.raised then Reworded(w2, true)
        else
          var incidents := Retold(py, w.incidents, d.incidents, INCIDENT_FIELDS);
          var w3 := w2.(incidents := incidents.items);
          if incidents.raised then Reworded(w3, true)
          else
            var summary := match d.executiveSummary case None => None case Some(v) => Prose(py, v);
            Reworded(if summary.Some? then w3.(executiveSummary := summary.value) else w3, false)
  }

  ghost predicate HasInfiniteIndex(patch: Option<seq<Entry>>) {
    patch.Some? && SomeInfinite(patch.value)
  }

  // Applying a patch raises if and only if an entry of one of its lists has an infinite
  // number as its index. build_report calls it outside its try, so such a patch leaves
  // no report at all, although a failing narrative must never break the response.
  lemma InfiniteIndexBreaks(py: Python, w: Wording, doc: Document)
    ensures Reword(py, w, Some(doc)).raised
       <==> HasInfiniteIndex(doc.findings) || HasInfiniteIndex(doc.recs) || HasInfiniteIndex(doc.incidents)
  {
    hide Overlaid, Prose, HasInfiniteIndex;
    RetoldRaises(py, w.findings, doc.findings, FINDING_FIELDS);
    RetoldRaises(py, w.recs, doc.recs, REC_FIELDS);
    RetoldRaises(py, w.incidents, doc.incidents, INCIDENT_FIELDS);
  }

  // Where a patch that does not raise may write: each list only into its own fields,
  // and a summary only if it is not blank.
  lemma RewordExact(py: Python, w: Wording, doc: Document)
    requires !Reword(py, w, Some(doc)).raised
    ensures var w' := Reword(py, w, Some(doc)).words;
      && w'.findings == (match doc.findings case None => w.findings case Some(p) => Overlaid(py, w.findings, p, ["tag", "title", "body"]).items)
      && w'.recs == (match doc.recs case None => w.recs case Some(p) => Overlaid(py, w.recs, p, ["title", "body", "link"]).items)
      && w'.incidents ==
         (match doc.incidents case None => w.incidents case Some(p) => Overlaid(py, w.incidents, p, ["desc", "detail", "finding"]).items)
      && w'.executiveSummary ==
         (if doc.executiveSummary.Some? && doc.executiveSummary.value.Str? && Strip(py, doc.executiveSummary.value.text) != ""
          then Strip(py, doc.executiveSummary.value.text) else w.executiveSummary)
  {
    hide Overlaid, Strip;
  }

  lemma RetoldRaises(py: Python, items: seq<Texts>, patch: Option<seq<Entry>>, fields: seq<string>)
    ensures Retold(py, items, patch, fields).raised <==> HasInfiniteIndex(patch)
  {
    hide SomeInfinite;
    if patch.Some? { RaisesExactly(py, items, patch.value, fields); }
  }

  // Such a patch: one finding with an infinite index.
  lemma OneInfiniteIndex(py: Python, w: Wording)
    ensures Reword(py, w, Some(Document(Some([Some(map["index" := Infinite])]), None, None, None))).raised
  {
    var findings := Some([Some(map["index" := Infinite])]);
    assert InfiniteIndex(findings.value[0]);
    InfiniteIndexBreaks(py, w, Document(findings, None, None, None));
  }

  // The report under assembly: the part that is counted and reconciled, and the
  // wording around it.
  class Draft {
    const skeleton: Skeleton
    var findings: seq<Texts>
    var recs: seq<Texts>
    var incidents: seq<Texts>
    var executiveSummary: string

    ghost function Words(): Wording
      reads this
    {
      Wording(findings, recs, incidents, executiveSummary)
    }

    constructor (skeleton: Skeleton, w: Wording)
      ensures this.skeleton == skeleton && Words() == w
    {
      this.skeleton := skeleton;
      findings, recs, incidents, executiveSummary := w.findings, w.recs, w.incidents, w.executiveSummary;
    }

    // None also for a patch that is an empty dict. An exception leaves the counted part
    // untouched: every index is looked at before the classification begins.
    method ApplyPatch(py: Python, patch: Option<Document>) returns (raised: bool)
      modifies this, skeleton
      ensures Reworded(Words(), raised) == Reword(py, old(Words()), patch)
      ensures skeleton.Contents() ==
        if raised then old(skeleton.Contents()) else Patched(old(skeleton.Contents()), Checked(py, patch))
    {
      hide Overlaid, Prose, Classified, Reconciled;
      raised := false;
      if patch.None? { return; }
      var doc := patch.value;
      if doc.findings.Some? {
        findings, raised := OverlayItems(py, findings, doc.findings.value, FINDING_FIELDS);
        if raised { return; }
      }
      if doc.recs.Some? {
        recs, raised := OverlayItems(py, recs, doc.recs.value, REC_FIELDS);
        if raised { return; }
      }
      if doc.incidents.Some? {
        incidents, raised := OverlayItems(py, incidents, doc.incidents.value, INCIDENT_FIELDS);
        if raised { return; }
        skeleton.ApplyIncidentClassification(Classifications(py, doc.incidents.value));
      }
      skeleton.ReconcileMitre();
      if doc.executiveSummary.Some? {
        var text := Prose(py, doc.executiveSummary.value);
        if text.Some? { executiveSummary := text.value; }
      }
    }
  }
}
