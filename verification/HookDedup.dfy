// Suppression of audit events that several hooks report for one operation: a
// direct-indexed table remembers, per slot, the last event let through.

module HookDedup {
  import opened Prelude

  const CAPACITY: nat := 4096             // HOOK_DEDUP_CAP
  const WINDOW: nat := 200_000_000        // HOOK_DEDUP_WIN_NS
  const WRAP: int := 0x1_0000_0000_0000_0000

  datatype Key = Key(dev: U64, ino: U64, opMask: nat)

  datatype Event = Event(key: Key, at: U64)

  // hook_dedup_hash, in unsigned 64-bit arithmetic
  function Mix(dev: bv64, ino: bv64, op: bv64): bv64 {
    var h := (dev * 2654435761) ^ (ino * 2246822519) ^ (op * 374761393);
    h ^ (h >> 32)
  }

  function AgentSlot(k: Key): (slot: nat)
    ensures slot < CAPACITY
  {
    (Mix(k.dev as bv64, k.ino as bv64, (k.opMask % 0x1_0000_0000) as bv64) as nat) % CAPACITY
  }

  // Sample values: device, inode and operation have a multiplier each.
  lemma MixSamples()
    ensures Mix(0, 0, 0) == 0 && Mix(1, 0, 0) == 0x9E37_79B1 && Mix(0, 1, 0) == 0x85EB_CA77 && Mix(0, 0, 1) == 0x1656_67B1
    ensures Mix(0, 0x1_0000_0000, 0) == 0x85EB_CA77_85EB_CA77
  {
    assert Mix(0, 0, 1) == 0x1656_67B1;
  }

  // Every event goes to the slot of its own mixed value.
  lemma AgentSlotIs(k: Key)
    requires k.opMask < 0x1_0000_0000
    ensures AgentSlot(k) == Mix(k.dev as bv64, k.ino as bv64, k.opMask as bv64) as nat % 4096
  {
    hide Mix;
    assert k.opMask % 0x1_0000_0000 == k.opMask;
  }

  type SlotOf = Key -> nat

  ghost predicate Bounded(slot: SlotOf) {
    forall k :: slot(k) < CAPACITY
  }

  type Table = seq<Option<Event>>

  predicate Suppresses(entry: Option<Event>, ev: Event) {
    entry.Some? && entry.value.key == ev.key && Minus(ev.at, entry.value.at) < WINDOW
  }

  function After(table: Table, slot: SlotOf, ev: Event): Table
    requires slot(ev.key) < |table|
  {
    if Suppresses(table[slot(ev.key)], ev) then table else table[slot(ev.key) := Some(ev)]
  }

  function Empty(): (t: Table)
    ensures |t| == CAPACITY && forall i :: 0 <= i < |t| ==> t[i] == None
  {
    seq(CAPACITY, _ => None)
  }

  // the table after the first n events of a run
  ghost function TableAfter(slot: SlotOf, run: seq<Event>, n: nat): (t: Table)
    requires Bounded(slot) && n <= |run|
    ensures |t| == CAPACITY
  {
    if n == 0 then Empty() else After(TableAfter(slot, run, n - 1), slot, run[n - 1])
  }

  ghost predicate Passes(slot: SlotOf, run: seq<Event>, i: nat)
    requires Bounded(slot) && i < |run|
  {
    !Suppresses(TableAfter(slot, run, i)[slot(run[i].key)], run[i])
  }

  // event j passed and no event between j and n passed into the same slot
  ghost predicate LastPass(slot: SlotOf, run: seq<Event>, j: nat, n: nat)
    requires Bounded(slot) && j < n <= |run|
  {
    && Passes(slot, run, j)
    && forall k :: j < k < n && slot(run[k].key) == slot(run[j].key) ==> !Passes(slot, run, k)
  }

  // Each slot holds the last event that passed into it.
  lemma {:induction false} SlotHoldsLastPass(slot: SlotOf, run: seq<Event>, n: nat, s: nat)
    requires Bounded(slot) && n <= |run| && s < CAPACITY
    ensures var entry := TableAfter(slot, run, n)[s];
      && (entry.None? ==> forall k :: 0 <= k < n && slot(run[k].key) == s ==> !Passes(slot, run, k))
      && (entry.Some? ==> exists j: nat :: j < n && run[j] == entry.value && slot(run[j].key) == s && LastPass(slot, run, j, n))
  {
    if n > 0 {
      SlotHoldsLastPass(slot, run, n - 1, s);
      var before, last := TableAfter(slot, run, n - 1), run[n - 1];
      if slot(last.key) == s && Passes(slot, run, n - 1) {
        assert LastPass(slot, run, n - 1, n);
      } else if before[s].Some? {
        var j: nat :| j < n - 1 && run[j] == before[s].value && slot(run[j].key) == s && LastPass(slot, run, j, n - 1);
        assert LastPass(slot, run, j, n);
      }
    }
  }

  lemma OneLastPass(slot: SlotOf, run: seq<Event>, j: nat, k: nat, n: nat)
    requires Bounded(slot) && j < n <= |run| && k < n && slot(run[j].key) == slot(run[k].key)
    requires LastPass(slot, run, j, n) && LastPass(slot, run, k, n)
    ensures j == k
  {
  }

  // Over any run, an event is suppressed exactly when the last event that passed
  // into its slot has its key and is less than 200 ms older in 64-bit arithmetic.
  lemma SuppressedExactly(slot: SlotOf, run: seq<Event>, i: nat)
    requires Bounded(slot) && i < |run|
    ensures !Passes(slot, run, i) <==>
      exists j: nat :: j < i && run[j].key == run[i].key && LastPass(slot, run, j, i) && Minus(run[i].at, run[j].at) < 200_000_000
  {
    var s := slot(run[i].key);
    SlotHoldsLastPass(slot, run, i, s);
    var entry := TableAfter(slot, run, i)[s];
    if j: nat :| j < i && run[j].key == run[i].key && LastPass(slot, run, j, i) && Minus(run[i].at, run[j].at) < WINDOW {
      assert entry.Some?;
      var k: nat :| k < i && run[k] == entry.value && slot(run[k].key) == s && LastPass(slot, run, k, i);
      OneLastPass(slot, run, j, k, i);
    }
  }

  // With timestamps that do not go back, two passes of one key are at least
  // 200 ms apart unless another key of the same slot passed between them.
  lemma PassesAreApart(slot: SlotOf, run: seq<Event>, i: nat, k: nat)
    requires Bounded(slot) && i < k < |run| && run[i].key == run[k].key
    requires Passes(slot, run, i) && Passes(slot, run, k)
    requires forall a, b :: 0 <= a <= b < |run| ==> run[a].at <= run[b].at
    ensures run[k].at - run[i].at >= 200_000_000
         || exists m :: i < m < k && slot(run[m].key) == slot(run[i].key) && run[m].key != run[i].key && Passes(slot, run, m)
    decreases k - i
  {
    SuppressedExactly(slot, run, k);
    if !LastPass(slot, run, i, k) {
      var m :| i < m < k && slot(run[m].key) == slot(run[i].key) && Passes(slot, run, m);
      if run[m].key == run[i].key {
        PassesAreApart(slot, run, i, m);
        if run[m].at - run[i].at >= WINDOW {
          assert run[m].at <= run[k].at;
        } else {
          var q :| i < q < m && slot(run[q].key) == slot(run[i].key) && run[q].key != run[i].key && Passes(slot, run, q);
        }
      }
    }
  }

  // A timestamp that goes back is never suppressed, unless by nearly the whole
  // range of 64 bits: the unsigned difference is huge.
  lemma BackwardsPasses(entry: Option<Event>, ev: Event)
    requires entry.Some? && entry.value.key == ev.key && ev.at < entry.value.at
    ensures Suppresses(entry, ev) <==> entry.value.at - ev.at > WRAP - WINDOW
  {
  }

  class Dedup {
    const entries: array<Option<Event>>
    const slot: SlotOf

    constructor (slot: SlotOf)
      requires Bounded(slot)
      ensures fresh(entries) && entries[..] == Empty() && this.slot == slot
    {
      this.slot := slot;
      entries := new Option<Event>[CAPACITY](_ => None);
    }

    // hook_dedup_check
    method Check(key: Key, at: U64) returns (suppress: bool)
      requires Bounded(slot) && entries.Length == CAPACITY
      modifies entries
      ensures suppress == Suppresses(old(entries[..])[slot(key)], Event(key, at))
      ensures entries[..] == After(old(entries[..]), slot, Event(key, at))
    {
      var i := slot(key);
      var e := entries[i];
      suppress := e.Some? && e.value.key.dev == key.dev && e.value.key.ino == key.ino && e.value.key.opMask == key.opMask
                  && Minus(at, e.value.at) < WINDOW;
      if !suppress { entries[i] := Some(Event(key, at)); }
    }
  }
}
