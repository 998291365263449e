// Counters in insertion order, duplicate removal and stable sorting, as the
// report builder uses them.

module Ordered {
  // ----- a counting dictionary, in the order its keys first appeared ------------------------

  datatype Count = Count(key: string, n: nat)
  type Tally = seq<Count>

  function Get(t: Tally, k: string): nat {
    if t == [] then 0 else if t[0].key == k then t[0].n else Get(t[1..], k)
  }

  // d[k] += 1
  function Bump(t: Tally, k: string): Tally {
    if t == [] then [Count(k, 1)]
    else if t[0].key == k then [Count(k, t[0].n + 1)] + t[1..]
    else [t[0]] + Bump(t[1..], k)
  }

  function Total(t: Tally): nat {
    if t == [] then 0 else t[0].n + Total(t[1..])
  }

  ghost predicate UniqueKeys(t: Tally) {
    forall i, j :: 0 <= i < j < |t| ==> t[i].key != t[j].key
  }

  predicate Has(t: Tally, k: string) {
    exists i :: 0 <= i < |t| && t[i].key == k
  }

  lemma {:induction false} BumpCounts(t: Tally, k: string, j: string)
    ensures Get(Bump(t, k), j) == Get(t, j) + if j == k then 1 else 0
    ensures Total(Bump(t, k)) == Total(t) + 1
  {
    if t != [] && t[0].key != k { BumpCounts(t[1..], k, j); }
  }

  lemma HasCons(c: Count, t: Tally, j: string)
    ensures Has([c] + t, j) <==> c.key == j || Has(t, j)
  {
    var b := [c] + t;
    assert b[0] == c;
    if Has(t, j) {
      var i :| 0 <= i < |t| && t[i].key == j;
      assert b[i + 1].key == j;
    }
    if Has(b, j) && c.key != j {
      var i :| 0 <= i < |b| && b[i].key == j;
      assert t[i - 1].key == j;
    }
  }

  lemma {:induction false} BumpHas(t: Tally, k: string, j: string)
    ensures Has(Bump(t, k), j) <==> Has(t, j) || j == k
  {
    if t == [] {
      HasCons(Count(k, 1), [], j);
      assert [Count(k, 1)] + [] == [Count(k, 1)];
    } else {
      assert t == [t[0]] + t[1..];
      HasCons(t[0], t[1..], j);
      if t[0].key == k {
        HasCons(Count(k, t[0].n + 1), t[1..], j);
      } else {
        BumpHas(t[1..], k, j);
        HasCons(t[0], Bump(t[1..], k), j);
      }
    }
  }

  lemma {:induction false} BumpUnique(t: Tally, k: string)
    requires UniqueKeys(t)
    ensures UniqueKeys(Bump(t, k))
  {
    if t != [] && t[0].key != k {
      var tail := t[1..];
      assert forall i :: 0 <= i < |tail| ==> tail[i] == t[i + 1];
      BumpUnique(tail, k);
      BumpHas(tail, k, t[0].key);
      assert !Has(tail, t[0].key);
      var rest := Bump(tail, k);
      forall i | 0 <= i < |rest| ensures rest[i].key != t[0].key {
        assert rest[i].key == t[0].key ==> Has(rest, t[0].key);
      }
    }
  }

  // A new key goes behind the others; a known one is counted where it stands.
  lemma {:induction false} BumpInPlace(t: Tally, k: string)
    ensures !Has(t, k) ==> Bump(t, k) == t + [Count(k, 1)]
    ensures Has(t, k) ==> |Bump(t, k)| == |t| && forall i :: 0 <= i < |t| ==> Bump(t, k)[i].key == t[i].key
  {
    if t != [] {
      assert t == [t[0]] + t[1..];
      HasCons(t[0], t[1..], k);
      if t[0].key != k { BumpInPlace(t[1..], k); }
    }
  }

  // every entry is what the dictionary gives for its key
  lemma {:induction false} GetAt(t: Tally, i: nat)
    requires UniqueKeys(t) && i < |t|
    ensures Get(t, t[i].key) == t[i].n
  {
    if i > 0 {
      assert forall k :: 0 <= k < |t[1..]| ==> t[1..][k] == t[k + 1];
      GetAt(t[1..], i - 1);
    }
  }

  // ----- _dedupe -----------------------------------------------------------------------------

  ghost predicate Clean(xs: seq<string>) {
    && (forall i :: 0 <= i < |xs| ==> xs[i] != "")
    && (forall i, j :: 0 <= i < j < |xs| ==> xs[i] != xs[j])
  }

  function Deduped(xs: seq<string>): (r: seq<string>)
    ensures Clean(r)
    ensures forall x :: x in r <==> x in xs && x != ""
  {
    if xs == [] then []
    else
      var front, last := Deduped(xs[..|xs| - 1]), xs[|xs| - 1];
      assert xs == xs[..|xs| - 1] + [last];
      if last == "" || last in front then front else front + [last]
  }

  method Dedupe(xs: seq<string>) returns (out: seq<string>)
    ensures out == Deduped(xs)
  {
    out := [];
    var seen := {};
    for i := 0 to |xs|
      invariant out == Deduped(xs[..i]) && forall x :: x in seen <==> x in out
    {
      assert xs[..i + 1][..i] == xs[..i];
      if xs[i] != "" && xs[i] !in seen {
        out := out + [xs[i]];
        seen := seen + {xs[i]};
      }
    }
    assert xs[..|xs|] == xs;
  }

  lemma {:induction false} DedupedClean(xs: seq<string>)
    requires Clean(xs)
    ensures Deduped(xs) == xs
  {
    if xs != [] {
      DedupedClean(xs[..|xs| - 1]);
      assert xs == xs[..|xs| - 1] + [xs[|xs| - 1]];
    }
  }

  lemma {:induction false} DedupedGrows(xs: seq<string>, ys: seq<string>)
    ensures Deduped(xs) <= Deduped(xs + ys)
  {
    if ys == [] {
      assert xs + ys == xs;
    } else {
      DedupedGrows(xs, ys[..|ys| - 1]);
      assert (xs + ys)[..|xs + ys| - 1] == xs + ys[..|ys| - 1];
    }
  }

  // ----- stable sorting --------------------------------------------------------------------------

  function Insert<T>(x: T, ys: seq<T>, le: (T, T) -> bool): seq<T> {
    if ys == [] || le(x, ys[0]) then [x] + ys else [ys[0]] + Insert(x, ys[1..], le)
  }

  function Sort<T>(xs: seq<T>, le: (T, T) -> bool): seq<T> {
    if xs == [] then [] else Insert(xs[0], Sort(xs[1..], le), le)
  }

  ghost predicate Ordering<T(!new)>(le: (T, T) -> bool) {
    && (forall a, b :: le(a, b) || le(b, a))
    && (forall a, b, c :: le(a, b) && le(b, c) ==> le(a, c))
  }

  ghost predicate InOrder<T(!new)>(xs: seq<T>, le: (T, T) -> bool) {
    forall i, j :: 0 <= i < j < |xs| ==> le(xs[i], xs[j])
  }

  lemma {:induction false} InsertKeeps<T(!new)>(x: T, ys: seq<T>, le: (T, T) -> bool)
    ensures forall y :: y in Insert(x, ys, le) <==> y == x || y in ys
    ensures |Insert(x, ys, le)| == |ys| + 1
  {
    if ys != [] && !le(x, ys[0]) {
      InsertKeeps(x, ys[1..], le);
      assert ys == [ys[0]] + ys[1..];
    }
  }

  lemma {:induction false} InsertInOrder<T(!new)>(x: T, ys: seq<T>, le: (T, T) -> bool)
    requires Ordering(le) && InOrder(ys, le)
    ensures InOrder(Insert(x, ys, le), le)
  {
    if ys != [] {
      var rest := ys[1..];
      assert forall i :: 0 <= i < |rest| ==> rest[i] == ys[i + 1];
      if le(x, ys[0]) {
        assert forall i :: 0 <= i < |ys| ==> le(x, ys[i]);
      } else {
        InsertInOrder(x, rest, le);
        InsertKeeps(x, rest, le);
        var r := Insert(x, rest, le);
        forall i | 0 <= i < |r| ensures le(ys[0], r[i]) {
          assert r[i] in r;
        }
      }
    }
  }

  lemma {:induction false} SortKeeps<T(!new)>(xs: seq<T>, le: (T, T) -> bool)
    ensures forall x :: x in Sort(xs, le) <==> x in xs
    ensures |Sort(xs, le)| == |xs|
  {
    if xs != [] {
      SortKeeps(xs[1..], le);
      InsertKeeps(xs[0], Sort(xs[1..], le), le);
      assert xs == [xs[0]] + xs[1..];
    }
  }

  lemma {:induction false} SortInOrder<T(!new)>(xs: seq<T>, le: (T, T) -> bool)
    requires Ordering(le)
    ensures InOrder(Sort(xs, le), le)
  {
    if xs != [] {
      SortInOrder(xs[1..], le);
      InsertInOrder(xs[0], Sort(xs[1..], le), le);
    }
  }

  lemma {:induction false} InsertMultiset<T(!new)>(x: T, ys: seq<T>, le: (T, T) -> bool)
    ensures multiset(Insert(x, ys, le)) == multiset(ys) + multiset{x}
  {
    if ys != [] && !le(x, ys[0]) {
      InsertMultiset(x, ys[1..], le);
      assert ys == [ys[0]] + ys[1..];
    }
  }

  // Sorting rearranges, and does nothing else.
  lemma {:induction false} SortMultiset<T(!new)>(xs: seq<T>, le: (T, T) -> bool)
    ensures multiset(Sort(xs, le)) == multiset(xs)
  {
    if xs != [] {
      SortMultiset(xs[1..], le);
      InsertMultiset(xs[0], Sort(xs[1..], le), le);
      assert xs == [xs[0]] + xs[1..];
    }
  }

  // where x goes: in front of the first element it may precede
  lemma {:induction false} InsertAt<T(!new)>(x: T, ys: seq<T>, le: (T, T) -> bool) returns (p: nat)
    ensures p <= |ys| && Insert(x, ys, le) == ys[..p] + [x] + ys[p..]
    ensures (forall i :: 0 <= i < p ==> !le(x, ys[i])) && (p < |ys| ==> le(x, ys[p]))
  {
    p := 0;
    if ys != [] && !le(x, ys[0]) {
      p := InsertAt(x, ys[1..], le);
      assert ys == [ys[0]] + ys[1..];
      p := p + 1;
    }
  }

  // `at` lists the positions in xs that the elements of a sorted sequence come from.
  ghost predicate Rearranges<T(!new)>(sorted: seq<T>, xs: seq<T>, at: seq<nat>) {
    && |sorted| == |at| == |xs|
    && (forall k :: 0 <= k < |at| ==> at[k] < |xs| && sorted[k] == xs[at[k]])
    && (forall j, k :: 0 <= j < k < |at| ==> at[j] != at[k])
    && (forall m: nat :: m < |xs| ==> m in at)
  }

  // Elements are in order, and those that compare equal in the order they came in.
  ghost predicate StablyOrdered<T(!new)>(xs: seq<T>, at: seq<nat>, le: (T, T) -> bool)
    requires forall k :: 0 <= k < |at| ==> at[k] < |xs|
  {
    forall j, k :: 0 <= j < k < |at| ==> le(xs[at[j]], xs[at[k]]) && (le(xs[at[k]], xs[at[j]]) ==> at[j] < at[k])
  }

  lemma {:induction false} SortAt<T(!new)>(xs: seq<T>, le: (T, T) -> bool) returns (at: seq<nat>)
    requires Ordering(le)
    ensures Rearranges(Sort(xs, le), xs, at) && StablyOrdered(xs, at, le)
  {
    at := [];
    if xs != [] {
      var rest := xs[1..];
      var was := SortAt(rest, le);
      var p := InsertAt(xs[0], Sort(rest, le), le);
      at := Placed(was, p);
      PlacedRearranges(xs, Sort(rest, le), was, p);
      PlacedOrdered(xs, Sort(rest, le), was, p, le);
    }
  }

  // position 0 at index p, the others one further on
  function Placed(was: seq<nat>, p: nat): (at: seq<nat>)
    requires p <= |was|
    ensures |at| == |was| + 1 && at[p] == 0
    ensures forall k :: 0 <= k < p ==> at[k] == was[k] + 1
    ensures forall k :: p < k < |at| ==> at[k] == was[k - 1] + 1
  {
    seq(|was| + 1, k requires 0 <= k <= |was| => if k < p then was[k] + 1 else if k == p then 0 else was[k - 1] + 1)
  }

  lemma PlacedRearranges<T(!new)>(xs: seq<T>, sorted: seq<T>, was: seq<nat>, p: nat)
    requires xs != [] && p <= |was| && Rearranges(sorted, xs[1..], was)
    ensures Rearranges(sorted[..p] + [xs[0]] + sorted[p..], xs, Placed(was, p))
  {
    var at, s := Placed(was, p), sorted[..p] + [xs[0]] + sorted[p..];
    forall k | 0 <= k < |at| ensures at[k] < |xs| && s[k] == xs[at[k]] {
      if k < p { assert s[k] == sorted[k]; }
      if k > p { assert s[k] == sorted[k - 1]; }
    }
    PlacedCovers(xs, was, p);
  }

  lemma PlacedCovers<T(!new)>(xs: seq<T>, was: seq<nat>, p: nat)
    requires p <= |was| && forall m: nat :: m < |xs| - 1 ==> m in was
    ensures forall m: nat :: m < |xs| ==> m in Placed(was, p)
  {
    var at := Placed(was, p);
    forall m: nat | m < |xs| ensures m in at {
      if m > 0 {
        assert m - 1 in was;
        var k :| 0 <= k < |was| && was[k] == m - 1;
        assert at[if k < p then k else k + 1] == m;
      } else {
        assert at[p] == 0;
      }
    }
  }

  lemma PlacedOrdered<T(!new)>(xs: seq<T>, sorted: seq<T>, was: seq<nat>, p: nat, le: (T, T) -> bool)
    requires Ordering(le) && xs != [] && p <= |was| && Rearranges(sorted, xs[1..], was) && StablyOrdered(xs[1..], was, le)
    requires (forall i :: 0 <= i < p ==> !le(xs[0], sorted[i])) && (p < |sorted| ==> le(xs[0], sorted[p]))
    ensures forall k :: 0 <= k <= |was| ==> Placed(was, p)[k] < |xs|
    ensures StablyOrdered(xs, Placed(was, p), le)
  {
    var at := Placed(was, p);
    forall k | 0 <= k <= |was| ensures at[k] < |xs| && xs[at[k]] == PlacedValue(xs, was, p, k) {
      if k != p { assert at[k] == was[if k < p then k else k - 1] + 1; }
    }
    forall j, k | 0 <= j < k < |at|
      ensures le(xs[at[j]], xs[at[k]]) && (le(xs[at[k]], xs[at[j]]) ==> at[j] < at[k])
    {
      PlacedPair(xs, sorted, was, p, j, k, le);
    }
  }

  function PlacedValue<T>(xs: seq<T>, was: seq<nat>, p: nat, k: nat): T
    requires p <= |was| && k <= |was| && xs != [] && forall i :: 0 <= i < |was| ==> was[i] < |xs| - 1
  {
    if k == p then xs[0] else xs[1..][was[if k < p then k else k - 1]]
  }

  lemma PlacedPair<T(!new)>(xs: seq<T>, sorted: seq<T>, was: seq<nat>, p: nat, j: nat, k: nat, le: (T, T) -> bool)
    requires Ordering(le) && xs != [] && p <= |was| && Rearranges(sorted, xs[1..], was) && StablyOrdered(xs[1..], was, le)
    requires (forall i :: 0 <= i < p ==> !le(xs[0], sorted[i])) && (p < |sorted| ==> le(xs[0], sorted[p]))
    requires j < k <= |was|
    ensures var a, b := PlacedValue(xs, was, p, j), PlacedValue(xs, was, p, k);
      le(a, b) && (le(b, a) ==> Placed(was, p)[j] < Placed(was, p)[k])
  {
    if j == p {
      FirstPrecedes(xs, sorted, was, p, k - 1, le);
    } else if k == p {
      assert PlacedValue(xs, was, p, j) == sorted[j] && !le(xs[0], sorted[j]);
    } else {
      var a, b := if j < p then j else j - 1, if k < p then k else k - 1;
      assert le(xs[1..][was[a]], xs[1..][was[b]]);
    }
  }

  lemma FirstPrecedes<T(!new)>(xs: seq<T>, sorted: seq<T>, was: seq<nat>, p: nat, k: nat, le: (T, T) -> bool)
    requires Ordering(le) && xs != [] && Rearranges(sorted, xs[1..], was) && StablyOrdered(xs[1..], was, le)
    requires p <= k < |sorted| && le(xs[0], sorted[p])
    ensures le(xs[0], xs[1..][was[k]])
  {
    if k > p { assert le(xs[1..][was[p]], xs[1..][was[k]]); }
  }

  // Distinct ids stay distinct.
  ghost predicate Unlike<T(!new)>(xs: seq<T>, id: T -> string) {
    forall i, j :: 0 <= i < j < |xs| ==> id(xs[i]) != id(xs[j])
  }

  lemma {:induction false} InsertUnlike<T(!new)>(x: T, ys: seq<T>, le: (T, T) -> bool, id: T -> string)
    requires Unlike(ys, id) && forall i :: 0 <= i < |ys| ==> id(ys[i]) != id(x)
    ensures Unlike(Insert(x, ys, le), id)
  {
    if ys != [] && !le(x, ys[0]) {
      var rest := ys[1..];
      assert forall i :: 0 <= i < |rest| ==> rest[i] == ys[i + 1];
      InsertUnlike(x, rest, le, id);
      InsertKeeps(x, rest, le);
      var r := Insert(x, rest, le);
      forall i | 0 <= i < |r| ensures id(r[i]) != id(ys[0]) {
        assert r[i] in r;
      }
    }
  }

  lemma {:induction false} SortUnlike<T(!new)>(xs: seq<T>, le: (T, T) -> bool, id: T -> string)
    requires Unlike(xs, id)
    ensures Unlike(Sort(xs, le), id)
  {
    if xs != [] {
      var rest := xs[1..];
      assert forall i :: 0 <= i < |rest| ==> rest[i] == xs[i + 1];
      SortUnlike(rest, le, id);
      SortKeeps(rest, le);
      var r := Sort(rest, le);
      forall i | 0 <= i < |r| ensures id(r[i]) != id(xs[0]) {
        assert r[i] in r;
      }
      InsertUnlike(xs[0], r, le, id);
    }
  }

  function Select<T>(xs: seq<T>, p: T -> bool): seq<T> {
    if xs == [] then [] else (if p(xs[0]) then [xs[0]] else []) + Select(xs[1..], p)
  }

  // Elements that compare equal keep their order.
  lemma {:induction false} SortStable<T(!new)>(xs: seq<T>, le: (T, T) -> bool, p: T -> bool)
    requires forall a, b :: p(a) && p(b) ==> le(a, b)
    ensures Select(Sort(xs, le), p) == Select(xs, p)
  {
    if xs != [] {
      SortStable(xs[1..], le, p);
      InsertStable(xs[0], Sort(xs[1..], le), le, p);
    }
  }

  lemma SelectCons<T(!new)>(x: T, xs: seq<T>, p: T -> bool)
    ensures Select([x] + xs, p) == if p(x) then [x] + Select(xs, p) else Select(xs, p)
  {
    assert ([x] + xs)[1..] == xs;
    assert [] + Select(xs, p) == Select(xs, p);
  }

  lemma {:induction false} InsertStable<T(!new)>(x: T, ys: seq<T>, le: (T, T) -> bool, p: T -> bool)
    requires forall a, b :: p(a) && p(b) ==> le(a, b)
    ensures Select(Insert(x, ys, le), p) == if p(x) then [x] + Select(ys, p) else Select(ys, p)
  {
    hide Select;
    if ys == [] || le(x, ys[0]) {
      SelectCons(x, ys, p);
    } else {
      InsertStable(x, ys[1..], le, p);
      SelectCons(ys[0], Insert(x, ys[1..], le), p);
      SelectCons(ys[0], ys[1..], p);
      assert ys == [ys[0]] + ys[1..];
      assert !(p(x) && p(ys[0]));
    }
  }

  // ----- the order of strings ----------------------------------------------------------------------

  // code point by code point, a prefix first
  predicate AtMost(a: string, b: string) {
    a == "" || (b != "" && (a[0] < b[0] || (a[0] == b[0] && AtMost(a[1..], b[1..]))))
  }

  lemma {:induction false} AtMostTotal(a: string, b: string)
    ensures AtMost(a, b) || AtMost(b, a)
  {
    if a != "" && b != "" && a[0] == b[0] { AtMostTotal(a[1..], b[1..]); }
  }

  lemma {:induction false} AtMostTransitive(a: string, b: string, c: string)
    requires AtMost(a, b) && AtMost(b, c)
    ensures AtMost(a, c)
  {
    if a != "" && a[0] == b[0] && b[0] == c[0] { AtMostTransitive(a[1..], b[1..], c[1..]); }
  }

  // A string is at most another one if it is a prefix of it or smaller at the first
  // place where they differ.
  lemma {:induction false} AtMostExact(a: string, b: string)
    ensures AtMost(a, b) <==>
      a <= b || exists k :: 0 <= k < |a| && k < |b| && a[..k] == b[..k] && a[k] < b[k]
  {
    if a != "" && b != "" {
      var a', b' := a[1..], b[1..];
      assert a == [a[0]] + a' && b == [b[0]] + b';
      AtMostExact(a', b');
      if k :| 0 <= k < |a'| && k < |b'| && a'[..k] == b'[..k] && a'[k] < b'[k] {
        if a[0] == b[0] { assert a[..k + 1] == [a[0]] + a'[..k] && b[..k + 1] == [b[0]] + b'[..k] && a[k + 1] < b[k + 1]; }
      }
      if a[0] < b[0] { assert a[..0] == b[..0]; }
      if k :| 0 <= k < |a| && k < |b| && a[..k] == b[..k] && a[k] < b[k] {
        if k > 0 {
          assert a[0] == a[..k][0] && b[0] == b[..k][0];
          assert a'[..k - 1] == a[..k][1..] && b'[..k - 1] == b[..k][1..] && a'[k - 1] < b'[k - 1];
        }
      }
    }
  }
}
