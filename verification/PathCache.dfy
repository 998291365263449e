// The tombstoned open-addressing table that maps (dev, ino) back to a path.
// The table functions below work on the slots as a sequence; the class runs the
// probing loops in place and is proved equal to them. Everything holds for any
// capacity and any hash; the agent instantiates them with 16384 slots.

module PathCache {
  import opened Prelude
  import opened Text

  datatype Key = Key(dev: nat, ino: nat)

  type Path = string

  const MAX_PATH: nat := 4096        // IG_MAX_PATH, terminator included

  datatype Slot =
    | Empty
    | Live(key: Key, path: Path)
    | Tombstone                      // deleted, but does not end a probe chain

  type Hash = Key -> nat

  ghost predicate Bounded(home: Hash, cap: nat) {
    forall k :: home(k) < cap
  }

  const CAPACITY: nat := 16384       // PATH_CACHE_CAP

  // path_cache_hash, in unsigned 64-bit arithmetic
  function Mix(dev: bv64, ino: bv64): bv64 {
    var h := (dev * 2654435761) ^ (ino * 2246822519);
    h ^ (h >> 32)
  }

  function AgentHash(k: Key): (h: nat)
    ensures h < CAPACITY
  {
    (Mix((k.dev % 0x1_0000_0000_0000_0000) as bv64, (k.ino % 0x1_0000_0000_0000_0000) as bv64) as nat) % CAPACITY
  }

  // Sample values: each half of the key is multiplied by its own constant, and
  // the upper half of the result is folded into the lower one.
  lemma MixSamples()
    ensures Mix(0, 0) == 0 && Mix(0, 1) == 0x85EB_CA77 && Mix(1, 0) == 0x9E37_79B1
    ensures Mix(0, 0x1_0000_0000) == 0x85EB_CA77_85EB_CA77
    ensures Mix(0xFFFF_FFFF_FFFF_FFFF, 0xFFFF_FFFF_FFFF_FFFF) == 0x1BDC_B3C6
  {
    assert Mix(0, 1) == 0x85EB_CA77;
  }

  // Every key of 64-bit numbers goes to the slot of its own mixed value.
  lemma AgentHashIs(k: Key)
    requires k.dev < 0x1_0000_0000_0000_0000 && k.ino < 0x1_0000_0000_0000_0000
    ensures AgentHash(k) == Mix(k.dev as bv64, k.ino as bv64) as nat % 16384
  {
    hide Mix;
    assert k.dev % 0x1_0000_0000_0000_0000 == k.dev && k.ino % 0x1_0000_0000_0000_0000 == k.ino;
  }

  // (home + i) & MASK
  function Probe(cap: nat, h: nat, i: nat): (slot: nat)
    requires h < cap && i < cap
    ensures slot < cap
  {
    if h + i < cap then h + i else h + i - cap
  }

  function Distance(cap: nat, h: nat, slot: nat): (i: nat)
    requires h < cap && slot < cap
    ensures i < cap && Probe(cap, h, i) == slot
  {
    if slot >= h then slot - h else slot + cap - h
  }

  lemma ProbeIsModulo(cap: nat, h: nat, i: nat)
    requires h < cap && i < cap
    ensures Probe(cap, h, i) == (h + i) % cap
  {
    if h + i >= cap {
      assert (h + i) / cap == 1;
    } else {
      assert (h + i) / cap == 0;
    }
  }

  // strncpy(dst, path, n - 1) and a terminator
  function Clip(path: Path, n: nat): (r: Path)
    requires n > 0
    ensures r <= path && |r| < n
    ensures |path| < n ==> r == path
    ensures |path| >= n ==> |r| == n - 1
  {
    if |path| < n then path else path[..n - 1]
  }

  // ----- the table operations ----------------------------------------------------

  datatype Found = Hit(slot: nat) | Free(slot: nat) | Full

  // The probe from step i on, remembering the first tombstone passed.
  function Scan(slots: seq<Slot>, h: nat, key: Key, i: nat, tomb: Option<nat>): (r: Found)
    requires h < |slots| && i <= |slots| && (tomb.Some? ==> tomb.value < |slots|)
    ensures !r.Full? ==> r.slot < |slots|
    ensures r.Hit? ==> slots[r.slot].Live? && slots[r.slot].key == key
    decreases |slots| - i
  {
    if i == |slots| then Full
    else
      var slot := Probe(|slots|, h, i);
      match slots[slot]
      case Empty => Free(if tomb.Some? then tomb.value else slot)
      case Tombstone => Scan(slots, h, key, i + 1, if tomb.Some? then tomb else Some(slot))
      case Live(k, _) => if k == key then Hit(slot) else Scan(slots, h, key, i + 1, tomb)
  }

  function Lookup(slots: seq<Slot>, home: Hash, key: Key): Found
    requires home(key) < |slots|
  {
    Scan(slots, home(key), key, 0, None)
  }

  function Put(slots: seq<Slot>, home: Hash, key: Key, path: Path): seq<Slot>
    requires home(key) < |slots|
  {
    match Lookup(slots, home, key)
    case Hit(slot) => slots[slot := Live(key, Clip(path, MAX_PATH))]
    case Free(slot) => slots[slot := Live(key, Clip(path, MAX_PATH))]
    case Full => slots
  }

  function Get(slots: seq<Slot>, home: Hash, key: Key): Option<Path>
    requires home(key) < |slots|
  {
    match Lookup(slots, home, key)
    case Hit(slot) => Some(slots[slot].path)
    case _ => None
  }

  function Remove(slots: seq<Slot>, home: Hash, key: Key): seq<Slot>
    requires home(key) < |slots|
  {
    match Lookup(slots, home, key)
    case Hit(slot) => slots[slot := Tombstone]
    case _ => slots
  }

  // ----- what the table means ------------------------------------------------------

  ghost predicate Holds(slots: seq<Slot>, j: nat, key: Key) {
    j < |slots| && slots[j].Live? && slots[j].key == key
  }

  ghost predicate DistinctKeys(slots: seq<Slot>) {
    forall i, j :: (0 <= i < |slots| && 0 <= j < |slots| && slots[i].Live? && slots[j].Live?
                    && slots[i].key == slots[j].key) ==> i == j
  }

  // no EMPTY slot between a key's home and its slot
  ghost predicate ChainsUnbroken(slots: seq<Slot>, home: Hash)
    requires Bounded(home, |slots|)
  {
    forall j, i :: 0 <= j < |slots| && slots[j].Live? && 0 <= i < Distance(|slots|, home(slots[j].key), j) ==>
      !slots[Probe(|slots|, home(slots[j].key), i)].Empty?
  }

  ghost predicate Valid(slots: seq<Slot>, home: Hash) {
    Bounded(home, |slots|) && DistinctKeys(slots) && ChainsUnbroken(slots, home)
  }

  // the finite map a table stands for
  ghost function Contents(slots: seq<Slot>): map<Key, Path>
    requires DistinctKeys(slots)
  {
    map j | 0 <= j < |slots| && slots[j].Live? :: slots[j].key := slots[j].path
  }

  ghost predicate HasEmpty(slots: seq<Slot>) {
    exists j :: 0 <= j < |slots| && slots[j].Empty?
  }

  // the first i probes met neither an EMPTY slot nor the key
  ghost predicate Passed(slots: seq<Slot>, h: nat, key: Key, i: nat)
    requires h < |slots| && i <= |slots|
  {
    forall d :: 0 <= d < i ==>
      !slots[Probe(|slots|, h, d)].Empty? && !Holds(slots, Probe(|slots|, h, d), key)
  }

  lemma PassedAll(slots: seq<Slot>, h: nat, key: Key)
    requires h < |slots| && Passed(slots, h, key, |slots|)
    ensures !HasEmpty(slots) && forall j :: !Holds(slots, j, key)
  {
    forall j | 0 <= j < |slots| ensures !slots[j].Empty? && !Holds(slots, j, key) {
      assert Probe(|slots|, h, Distance(|slots|, h, j)) == j;
    }
  }

  // A key past the first EMPTY slot of its probe sequence is not stored.
  lemma EmptyEnds(slots: seq<Slot>, home: Hash, key: Key, i: nat)
    requires Valid(slots, home) && i < |slots| && Passed(slots, home(key), key, i)
    requires slots[Probe(|slots|, home(key), i)].Empty?
    ensures key !in Contents(slots) && HasEmpty(slots)
  {
    forall j | 0 <= j < |slots| ensures !Holds(slots, j, key) {
      var d := Distance(|slots|, home(key), j);
      assert Probe(|slots|, home(key), d) == j;
    }
  }

  lemma NotStored(slots: seq<Slot>, key: Key)
    requires DistinctKeys(slots) && forall j :: !Holds(slots, j, key)
    ensures key !in Contents(slots)
  {
    assert forall j :: 0 <= j < |slots| && slots[j].Live? ==> !Holds(slots, j, key);
  }

  lemma HitIsStored(slots: seq<Slot>, j: nat)
    requires DistinctKeys(slots) && j < |slots| && slots[j].Live?
    ensures slots[j].key in Contents(slots) && Contents(slots)[slots[j].key] == slots[j].path
  {
  }

  // The scan is an exact search: it hits exactly when the key is stored, offers
  // a slot exactly when the key is absent and some slot is EMPTY, and gives up
  // exactly when the key is absent and no slot is EMPTY.
  lemma {:induction false} ScanMeaning(slots: seq<Slot>, home: Hash, key: Key, i: nat, tomb: Option<nat>)
    requires Valid(slots, home) && i <= |slots| && Passed(slots, home(key), key, i)
    requires tomb.Some? ==> (tomb.value < |slots| && slots[tomb.value].Tombstone?
                             && Distance(|slots|, home(key), tomb.value) < i)
    ensures var r := Scan(slots, home(key), key, i, tomb);
      && (r.Hit? <==> key in Contents(slots))
      && (r.Free? <==> key !in Contents(slots) && HasEmpty(slots))
      && (r.Free? ==> !slots[r.slot].Live? && Passed(slots, home(key), key, Distance(|slots|, home(key), r.slot)))
    decreases |slots| - i
  {
    hide ChainsUnbroken, DistinctKeys;
    var cap, h := |slots|, home(key);
    if i == cap {
      PassedAll(slots, h, key);
      NotStored(slots, key);
    } else {
      var slot := Probe(cap, h, i);
      assert Distance(cap, h, slot) == i;
      match slots[slot]
      case Empty => EmptyEnds(slots, home, key, i);
      case Tombstone => ScanMeaning(slots, home, key, i + 1, if tomb.Some? then tomb else Some(slot));
      case Live(k, _) =>
        if k == key { HitIsStored(slots, slot); } else { ScanMeaning(slots, home, key, i + 1, tomb); }
    }
  }

  // ----- refinement of the finite map -----------------------------------------------

  lemma UpdateContents(slots: seq<Slot>, slots': seq<Slot>, j: nat, key: Key, path: Path)
    requires DistinctKeys(slots) && DistinctKeys(slots') && j < |slots|
    requires slots' == slots[j := Live(key, path)] && (slots[j].Live? ==> slots[j].key == key)
    ensures Contents(slots') == Contents(slots)[key := path]
  {
    hide DistinctKeys;
    HitIsStored(slots', j);
    forall k | k in Contents(slots) && k != key
      ensures k in Contents(slots') && Contents(slots')[k] == Contents(slots)[k]
    {
      var i :| 0 <= i < |slots| && slots[i].Live? && slots[i].key == k;
      assert slots'[i] == slots[i];
      HitIsStored(slots, i);
      HitIsStored(slots', i);
    }
    forall k | k in Contents(slots') && k != key ensures k in Contents(slots) {
      var i :| 0 <= i < |slots'| && slots'[i].Live? && slots'[i].key == k;
      assert slots'[i] == slots[i];
      HitIsStored(slots, i);
    }
  }

  // put is an exact update when the key is present or some slot is EMPTY;
  // otherwise the table, and so the map, is left as it was.
  lemma PutRefines(slots: seq<Slot>, home: Hash, key: Key, path: Path)
    requires Valid(slots, home)
    ensures var slots' := Put(slots, home, key, path);
      && Valid(slots', home)
      && (if key in Contents(slots) || HasEmpty(slots)
          then Contents(slots') == Contents(slots)[key := Clip(path, MAX_PATH)]
          else slots' == slots)
  {
    ScanMeaning(slots, home, key, 0, None);
    var r := Lookup(slots, home, key);
    if !r.Full? {
      UpdateContents(slots, Put(slots, home, key, path), r.slot, key, Clip(path, MAX_PATH));
    }
  }

  lemma GetRefines(slots: seq<Slot>, home: Hash, key: Key)
    requires Valid(slots, home)
    ensures Get(slots, home, key) == if key in Contents(slots) then Some(Contents(slots)[key]) else None
  {
    ScanMeaning(slots, home, key, 0, None);
  }

  // What was put is what is got, as it was put if it fits; no other key is affected.
  lemma PutThenGet(slots: seq<Slot>, home: Hash, key: Key, path: Path, other: Key)
    requires Valid(slots, home) && (key in Contents(slots) || HasEmpty(slots)) && other != key
    ensures |Put(slots, home, key, path)| == |slots|
    ensures |path| < 4096 ==> Get(Put(slots, home, key, path), home, key) == Some(path)
    ensures |path| >= 4096 ==> Get(Put(slots, home, key, path), home, key) == Some(path[..4095])
    ensures Get(Put(slots, home, key, path), home, other) == Get(slots, home, other)
  {
    hide Get, ChainsUnbroken, DistinctKeys;
    PutRefines(slots, home, key, path);
    GetRefines(Put(slots, home, key, path), home, key);
    GetRefines(Put(slots, home, key, path), home, other);
    GetRefines(slots, home, other);
  }

  // The slot taken for a new key is the first of its probe sequence that holds no
  // path, so a tombstone passed on the way is used again.
  lemma {:induction false} OfferIsFirst(slots: seq<Slot>, h: nat, key: Key, i: nat, tomb: Option<nat>)
    requires h < |slots| && i <= |slots| && (tomb.Some? ==> tomb.value < |slots|)
    requires match tomb
      case None => forall d :: 0 <= d < i ==> slots[Probe(|slots|, h, d)].Live?
      case Some(t) => Distance(|slots|, h, t) < i && !slots[t].Live?
                      && forall d :: 0 <= d < Distance(|slots|, h, t) ==> slots[Probe(|slots|, h, d)].Live?
    ensures var r := Scan(slots, h, key, i, tomb);
      r.Free? ==> !slots[r.slot].Live? && forall d :: 0 <= d < Distance(|slots|, h, r.slot) ==> slots[Probe(|slots|, h, d)].Live?
    decreases |slots| - i
  {
    if i < |slots| {
      var slot := Probe(|slots|, h, i);
      assert Distance(|slots|, h, slot) == i;
      match slots[slot]
      case Empty =>
      case Tombstone => OfferIsFirst(slots, h, key, i + 1, if tomb.Some? then tomb else Some(slot));
      case Live(k, _) => if k != key { OfferIsFirst(slots, h, key, i + 1, tomb); }
    }
  }

  lemma TombstoneKeepsDistinct(slots: seq<Slot>, j: nat)
    requires DistinctKeys(slots) && j < |slots|
    ensures DistinctKeys(slots[j := Tombstone])
  {
  }

  lemma KeysDiffer(slots: seq<Slot>, i: nat, j: nat)
    requires DistinctKeys(slots) && i < |slots| && j < |slots| && i != j && slots[i].Live? && slots[j].Live?
    ensures slots[i].key != slots[j].key
  {
  }

  lemma TombstoneContents(slots: seq<Slot>, j: nat)
    requires j < |slots| && slots[j].Live? && DistinctKeys(slots) && DistinctKeys(slots[j := Tombstone])
    ensures Contents(slots[j := Tombstone]) == Contents(slots) - {slots[j].key}
  {
    hide DistinctKeys;
    var slots' := slots[j := Tombstone];
    forall k | k in Contents(slots) && k != slots[j].key
      ensures k in Contents(slots') && Contents(slots')[k] == Contents(slots)[k]
    {
      var i :| 0 <= i < |slots| && slots[i].Live? && slots[i].key == k;
      assert slots'[i] == slots[i];
      HitIsStored(slots, i);
      HitIsStored(slots', i);
    }
    forall k | k in Contents(slots') ensures k in Contents(slots) && k != slots[j].key {
      var i :| 0 <= i < |slots'| && slots'[i].Live? && slots'[i].key == k;
      assert slots'[i] == slots[i] && i != j;
      KeysDiffer(slots, i, j);
      HitIsStored(slots, i);
    }
  }

  lemma TombstoneKeepsChains(slots: seq<Slot>, home: Hash, j: nat)
    requires Bounded(home, |slots|) && ChainsUnbroken(slots, home) && j < |slots|
    ensures ChainsUnbroken(slots[j := Tombstone], home)
  {
  }

  lemma RemoveRefines(slots: seq<Slot>, home: Hash, key: Key)
    requires Valid(slots, home)
    ensures var slots' := Remove(slots, home, key);
      Valid(slots', home) && Contents(slots') == Contents(slots) - {key}
  {
    hide Scan, ChainsUnbroken, DistinctKeys, Contents;
    ScanMeaning(slots, home, key, 0, None);
    var r := Lookup(slots, home, key);
    if r.Hit? {
      TombstoneKeepsDistinct(slots, r.slot);
      TombstoneContents(slots, r.slot);
      TombstoneKeepsChains(slots, home, r.slot);
    }
  }

  // What was removed is no longer found; every other path is.
  lemma RemoveThenGet(slots: seq<Slot>, home: Hash, key: Key, other: Key)
    requires Valid(slots, home) && other != key
    ensures |Remove(slots, home, key)| == |slots|
    ensures Get(Remove(slots, home, key), home, key) == None
    ensures Get(Remove(slots, home, key), home, other) == Get(slots, home, other)
  {
    hide Get, ChainsUnbroken, DistinctKeys;
    RemoveRefines(slots, home, key);
    GetRefines(Remove(slots, home, key), home, key);
    GetRefines(Remove(slots, home, key), home, other);
    GetRefines(slots, home, other);
  }

  // ----- whole histories ----------------------------------------------------------------

  datatype Op = PutOp(key: Key, path: Path) | RemoveOp(key: Key)

  function Apply(slots: seq<Slot>, home: Hash, op: Op): (r: seq<Slot>)
    requires home(op.key) < |slots|
    ensures |r| == |slots|
  {
    match op
    case PutOp(key, path) => Put(slots, home, key, path)
    case RemoveOp(key) => Remove(slots, home, key)
  }

  ghost function Run(slots: seq<Slot>, home: Hash, ops: seq<Op>): seq<Slot>
    requires Bounded(home, |slots|)
    decreases |ops|
  {
    if ops == [] then slots else Run(Apply(slots, home, ops[0]), home, ops[1..])
  }

  function Ideal(m: map<Key, Path>, ops: seq<Op>): map<Key, Path>
    decreases |ops|
  {
    if ops == [] then m
    else
      match ops[0]
      case PutOp(key, path) => Ideal(m[key := Clip(path, MAX_PATH)], ops[1..])
      case RemoveOp(key) => Ideal(m - {key}, ops[1..])
  }

  // puts of a key that the map does not hold at that moment
  function NewPuts(m: map<Key, Path>, ops: seq<Op>): nat
    decreases |ops|
  {
    if ops == [] then 0
    else
      match ops[0]
      case PutOp(key, path) =>
        (if key in m then 0 else 1) + NewPuts(m[key := Clip(path, MAX_PATH)], ops[1..])
      case RemoveOp(key) => NewPuts(m - {key}, ops[1..])
  }

  function EmptyCount(slots: seq<Slot>): nat {
    if slots == [] then 0 else (if slots[0].Empty? then 1 else 0) + EmptyCount(slots[1..])
  }

  lemma {:induction false} EmptyCountUpdate(slots: seq<Slot>, j: nat, slot: Slot)
    requires j < |slots| && !slot.Empty?
    ensures EmptyCount(slots[j := slot]) == EmptyCount(slots) - if slots[j].Empty? then 1 else 0
  {
    if j > 0 {
      assert slots[j := slot][1..] == slots[1..][j - 1 := slot];
      EmptyCountUpdate(slots[1..], j - 1, slot);
    } else {
      assert slots[j := slot][1..] == slots[1..];
    }
  }

  lemma {:induction false} EmptyCountPositive(slots: seq<Slot>)
    ensures EmptyCount(slots) > 0 <==> HasEmpty(slots)
  {
    if slots != [] {
      EmptyCountPositive(slots[1..]);
      assert HasEmpty(slots[1..]) ==> HasEmpty(slots) by {
        if HasEmpty(slots[1..]) {
          var j :| 0 <= j < |slots[1..]| && slots[1..][j].Empty?;
          assert slots[j + 1].Empty?;
        }
      }
      if HasEmpty(slots) && !slots[0].Empty? {
        var j :| 0 <= j < |slots| && slots[j].Empty?;
        assert slots[1..][j - 1].Empty?;
      }
    }
  }

  // No put is lost until as many new-key puts as slots have occurred: a table
  // with e EMPTY slots follows the ideal map through any history with at most
  // e new-key puts, however many removals leave tombstones behind.
  lemma {:induction false} FollowsIdealMap(slots: seq<Slot>, home: Hash, ops: seq<Op>)
    requires Valid(slots, home) && NewPuts(Contents(slots), ops) <= EmptyCount(slots)
    ensures Valid(Run(slots, home, ops), home)
    ensures Contents(Run(slots, home, ops)) == Ideal(Contents(slots), ops)
    decreases |ops|
  {
    if ops != [] {
      var slots' := Apply(slots, home, ops[0]);
      var key := ops[0].key;
      ScanMeaning(slots, home, key, 0, None);
      EmptyCountPositive(slots);
      match ops[0] {
        case PutOp(_, path) =>
          PutRefines(slots, home, key, path);
          var r := Lookup(slots, home, key);
          if !r.Full? { EmptyCountUpdate(slots, r.slot, Live(key, Clip(path, MAX_PATH))); }
        case RemoveOp(_) =>
          RemoveRefines(slots, home, key);
          var r := Lookup(slots, home, key);
          if r.Hit? { EmptyCountUpdate(slots, r.slot, Tombstone); }
      }
      FollowsIdealMap(slots', home, ops[1..]);
    }
  }

  function Fresh(cap: nat): (slots: seq<Slot>)
    ensures |slots| == cap && forall j :: 0 <= j < cap ==> slots[j] == Empty
  {
    seq(cap, _ => Empty)
  }

  lemma {:induction false} FreshCount(cap: nat)
    ensures EmptyCount(Fresh(cap)) == cap
  {
    if cap > 0 {
      assert Fresh(cap)[1..] == Fresh(cap - 1);
      FreshCount(cap - 1);
    }
  }

  lemma FreshTableFollowsIdealMap(cap: nat, home: Hash, ops: seq<Op>)
    requires cap > 0 && Bounded(home, cap) && NewPuts(map[], ops) <= cap
    ensures Valid(Run(Fresh(cap), home, ops), home)
    ensures Contents(Run(Fresh(cap), home, ops)) == Ideal(map[], ops)
  {
    FreshCount(cap);
    assert Contents(Fresh(cap)) == map[];
    FollowsIdealMap(Fresh(cap), home, ops);
  }

  // The agent's own table: no put is lost in its first 16384 new-key puts.
  lemma AgentTableFollowsIdealMap(ops: seq<Op>)
    requires NewPuts(map[], ops) <= CAPACITY
    ensures Bounded(AgentHash, CAPACITY) && DistinctKeys(Run(Fresh(CAPACITY), AgentHash, ops))
    ensures Contents(Run(Fresh(CAPACITY), AgentHash, ops)) == Ideal(map[], ops)
  {
    FreshTableFollowsIdealMap(CAPACITY, AgentHash, ops);
  }

  // ----- the bound is sharp ---------------------------------------------------------------

  lemma {:induction false} RunAppend(slots: seq<Slot>, home: Hash, xs: seq<Op>, ys: seq<Op>)
    requires Bounded(home, |slots|)
    ensures |Run(slots, home, xs)| == |slots|
    ensures Run(slots, home, xs + ys) == Run(Run(slots, home, xs), home, ys)
    decreases |xs|
  {
    if xs == [] {
      assert xs + ys == ys;
    } else {
      assert (xs + ys)[1..] == xs[1..] + ys;
      RunAppend(Apply(slots, home, xs[0]), home, xs[1..], ys);
    }
  }

  lemma {:induction false} NewPutsAppend(m: map<Key, Path>, xs: seq<Op>, ys: seq<Op>)
    ensures NewPuts(m, xs + ys) == NewPuts(m, xs) + NewPuts(Ideal(m, xs), ys)
    ensures Ideal(m, xs + ys) == Ideal(Ideal(m, xs), ys)
    decreases |xs|
  {
    if xs == [] {
      assert xs + ys == ys;
    } else {
      assert (xs + ys)[1..] == xs[1..] + ys;
      match xs[0]
      case PutOp(key, path) => NewPutsAppend(m[key := Clip(path, MAX_PATH)], xs[1..], ys);
      case RemoveOp(key) => NewPutsAppend(m - {key}, xs[1..], ys);
    }
  }

  lemma RunSnoc(slots: seq<Slot>, home: Hash, xs: seq<Op>, op: Op)
    requires Bounded(home, |slots|)
    ensures |Run(slots, home, xs)| == |slots|
    ensures Run(slots, home, xs + [op]) == Apply(Run(slots, home, xs), home, op)
  {
    RunAppend(slots, home, xs, [op]);
    assert [op][1..] == [];
  }

  function PutAll(keys: seq<Key>): seq<Op> {
    if keys == [] then [] else PutAll(keys[..|keys| - 1]) + [PutOp(keys[|keys| - 1], "p")]
  }

  function RemoveAll(keys: seq<Key>): seq<Op> {
    if keys == [] then [] else RemoveAll(keys[..|keys| - 1]) + [RemoveOp(keys[|keys| - 1])]
  }

  ghost predicate Pairwise(keys: seq<Key>) {
    forall i, j :: 0 <= i < j < |keys| ==> keys[i] != keys[j]
  }

  ghost predicate NoTombstone(slots: seq<Slot>) {
    forall j :: 0 <= j < |slots| ==> !slots[j].Tombstone?
  }

  // what putting and then removing the keys does to the ideal map
  lemma {:induction false} IdealPuts(keys: seq<Key>)
    requires Pairwise(keys)
    ensures NewPuts(map[], PutAll(keys)) == |keys|
    ensures forall k :: k in Ideal(map[], PutAll(keys)) <==> k in keys
  {
    if keys != [] {
      var front, last := keys[..|keys| - 1], keys[|keys| - 1];
      IdealPuts(front);
      NewPutsAppend(map[], PutAll(front), [PutOp(last, "p")]);
      assert [PutOp(last, "p")][1..] == [];
      assert keys == front + [last];
    }
  }

  lemma {:induction false} IdealRemoves(m: map<Key, Path>, keys: seq<Key>)
    ensures NewPuts(m, RemoveAll(keys)) == 0
    ensures forall k :: k in Ideal(m, RemoveAll(keys)) <==> k in m && k !in keys
  {
    if keys != [] {
      var front, last := keys[..|keys| - 1], keys[|keys| - 1];
      IdealRemoves(m, front);
      NewPutsAppend(m, RemoveAll(front), [RemoveOp(last)]);
      assert [RemoveOp(last)][1..] == [];
      assert keys == front + [last];
    }
  }

  // Without tombstones the slot offered for a new key is an EMPTY one.
  lemma {:induction false} OffersEmpty(slots: seq<Slot>, h: nat, key: Key, i: nat)
    requires h < |slots| && i <= |slots| && NoTombstone(slots)
    ensures Scan(slots, h, key, i, None).Free? ==> slots[Scan(slots, h, key, i, None).slot].Empty?
    decreases |slots| - i
  {
    if i < |slots| && slots[Probe(|slots|, h, i)].Live? { OffersEmpty(slots, h, key, i + 1); }
  }

  // Each new key takes one EMPTY slot of a table that has no tombstones.
  lemma {:induction false} PutsUseUpSlots(cap: nat, home: Hash, keys: seq<Key>)
    requires Bounded(home, cap) && cap > 0 && Pairwise(keys) && |keys| <= cap
    ensures var slots := Run(Fresh(cap), home, PutAll(keys));
      |slots| == cap && NoTombstone(slots) && EmptyCount(slots) == cap - |keys|
  {
    if keys == [] {
      FreshCount(cap);
    } else {
      var front, last := keys[..|keys| - 1], keys[|keys| - 1];
      PutsUseUpSlots(cap, home, front);
      IdealPuts(front);
      FreshTableFollowsIdealMap(cap, home, PutAll(front));
      var slots := Run(Fresh(cap), home, PutAll(front));
      RunSnoc(Fresh(cap), home, PutAll(front), PutOp(last, "p"));
      assert last !in front;
      ScanMeaning(slots, home, last, 0, None);
      EmptyCountPositive(slots);
      OffersEmpty(slots, home(last), last, 0);
      EmptyCountUpdate(slots, Lookup(slots, home, last).slot, Live(last, Clip("p", MAX_PATH)));
    }
  }

  lemma {:induction false} RemovesMakeNoRoom(slots: seq<Slot>, home: Hash, keys: seq<Key>)
    requires Bounded(home, |slots|) && !HasEmpty(slots)
    ensures |Run(slots, home, RemoveAll(keys))| == |slots| && !HasEmpty(Run(slots, home, RemoveAll(keys)))
  {
    if keys != [] {
      var front, last := keys[..|keys| - 1], keys[|keys| - 1];
      RemovesMakeNoRoom(slots, home, front);
      RunSnoc(slots, home, RemoveAll(front), RemoveOp(last));
    }
  }

  // In a table of any size, under any hash: putting as many different keys as
  // there are slots and removing them again (that many new-key puts) empties the
  // map but leaves only tombstones, and every put from then on is lost.
  lemma LostPut(cap: nat, home: Hash, keys: seq<Key>, key: Key, path: Path)
    requires Bounded(home, cap) && Pairwise(keys) && |keys| == cap
    ensures NewPuts(map[], PutAll(keys) + RemoveAll(keys)) == cap
    ensures var full := Run(Fresh(cap), home, PutAll(keys) + RemoveAll(keys));
      && Valid(full, home) && Contents(full) == map[]
      && Put(full, home, key, path) == full
  {
    assert home(key) < cap;
    hide Put, ChainsUnbroken, DistinctKeys, PutAll, RemoveAll, Scan;
    IdealPuts(keys);
    var m := Ideal(map[], PutAll(keys));
    IdealRemoves(m, keys);
    NewPutsAppend(map[], PutAll(keys), RemoveAll(keys));
    assert Ideal(m, RemoveAll(keys)) == map[];
    FreshTableFollowsIdealMap(cap, home, PutAll(keys) + RemoveAll(keys));
    PutsUseUpSlots(cap, home, keys);
    var filled := Run(Fresh(cap), home, PutAll(keys));
    EmptyCountPositive(filled);
    RemovesMakeNoRoom(filled, home, keys);
    RunAppend(Fresh(cap), home, PutAll(keys), RemoveAll(keys));
    PutRefines(Run(Fresh(cap), home, PutAll(keys) + RemoveAll(keys)), home, key, path);
  }

  // as many different files as the agent's table has slots
  function SlotManyKeys(): (keys: seq<Key>)
    ensures |keys| == CAPACITY && Pairwise(keys)
  {
    seq(CAPACITY, (n: nat) => Key(0, n))
  }

  // So it happens to the agent's own table: after 16384 files were cached and
  // forgotten, no path is cached any more.
  lemma AgentLostPut(key: Key, path: Path)
    ensures var ops := PutAll(SlotManyKeys()) + RemoveAll(SlotManyKeys());
      && NewPuts(map[], ops) == CAPACITY
      && Bounded(AgentHash, CAPACITY)
      && var full := Run(Fresh(CAPACITY), AgentHash, ops);
         |full| == CAPACITY && DistinctKeys(full) && Contents(full) == map[] && Put(full, AgentHash, key, path) == full
  {
    hide AgentHash, PutAll, RemoveAll, Put, ChainsUnbroken, DistinctKeys, Fresh, Run, SlotManyKeys;
    RunAppend(Fresh(CAPACITY), AgentHash, PutAll(SlotManyKeys()) + RemoveAll(SlotManyKeys()), []);
    LostPut(CAPACITY, AgentHash, SlotManyKeys(), key, path);
  }

  // ----- the table in place -----------------------------------------------------------------

  class Cache {
    const slots: array<Slot>
    const home: Hash

    ghost predicate Intact()
      reads slots
    {
      Valid(slots[..], home)
    }

    constructor (capacity: nat, home: Hash)
      requires capacity > 0 && Bounded(home, capacity)
      ensures Intact() && this.home == home && fresh(slots)
      ensures slots[..] == Fresh(capacity)
    {
      slots := new Slot[capacity](_ => Empty);
      this.home := home;
    }

    method PutPath(key: Key, path: Path)
      requires Intact()
      modifies slots
      ensures Intact() && slots[..] == Put(old(slots[..]), home, key, path)
    {
      PutRefines(slots[..], home, key, path);
      var idx := home(key);
      var firstTomb: Option<nat> := None;
      for i := 0 to slots.Length
        invariant slots[..] == old(slots[..])
        invariant firstTomb.Some? ==> firstTomb.value < slots.Length
        invariant Lookup(slots[..], home, key) == Scan(slots[..], idx, key, i, firstTomb)
      {
        var slot := Probe(slots.Length, idx, i);
        if slots[slot].Empty? {
          var target := if firstTomb.Some? then firstTomb.value else slot;
          slots[target] := Live(key, Clip(path, MAX_PATH));
          return;
        }
        if slots[slot].Tombstone? {
          if firstTomb.None? { firstTomb := Some(slot); }
        } else if slots[slot].key == key {
          slots[slot] := Live(key, Clip(path, MAX_PATH));
          return;
        }
      }
    }

    // what path_cache_get leaves in a buffer of outSize bytes
    method GetPath(key: Key, outSize: nat) returns (out: Path)
      requires Intact() && outSize > 0
      ensures out == Clip(if key in Contents(slots[..]) then Contents(slots[..])[key]
                          else "<ino=" + Decimal(key.ino) + ">", outSize)
    {
      GetRefines(slots[..], home, key);
      var idx := home(key);
      ghost var tomb: Option<nat> := None;
      for i := 0 to slots.Length
        invariant tomb.Some? ==> tomb.value < slots.Length
        invariant Lookup(slots[..], home, key) == Scan(slots[..], idx, key, i, tomb)
      {
        var slot := Probe(slots.Length, idx, i);
        if slots[slot].Empty? { break; }
        if slots[slot].Tombstone? {
          tomb := if tomb.Some? then tomb else Some(slot);
        } else if slots[slot].key == key {
          return Clip(slots[slot].path, outSize);
        }
      }
      assert Get(slots[..], home, key) == None;
      out := Clip("<ino=" + Decimal(key.ino) + ">", outSize);
    }

    method RemovePath(key: Key)
      requires Intact()
      modifies slots
      ensures Intact() && slots[..] == Remove(old(slots[..]), home, key)
    {
      RemoveRefines(slots[..], home, key);
      var idx := home(key);
      ghost var tomb: Option<nat> := None;
      for i := 0 to slots.Length
        invariant slots[..] == old(slots[..])
        invariant tomb.Some? ==> tomb.value < slots.Length
        invariant Lookup(slots[..], home, key) == Scan(slots[..], idx, key, i, tomb)
      {
        var slot := Probe(slots.Length, idx, i);
        if slots[slot].Empty? { break; }
        if slots[slot].Tombstone? {
          tomb := if tomb.Some? then tomb else Some(slot);
        } else if slots[slot].key == key {
          slots[slot] := Tombstone;
          break;
        }
      }
    }
  }
}
