// The agent's bounded event queue: a ring that drops its oldest event when a
// push finds it full. First the queue as a value with its history, then the
// ring in its array.

module EventQueue {
  import opened Prelude

  const CAPACITY: nat := 512         // IG_EVENT_QUEUE_SIZE

  datatype Op<T> = Push(event: T) | Pop

  // `items` is what the ring holds, oldest first; the rest is history.
  datatype Queue<T> = Queue(items: seq<T>, pushed: seq<T>, popped: seq<T>, dropped: nat)

  function Next<T>(q: Queue<T>, op: Op<T>): Queue<T> {
    match op
    case Push(event) =>
      if |q.items| >= CAPACITY
      then q.(items := q.items[1..] + [event], pushed := q.pushed + [event], dropped := q.dropped + 1)
      else q.(items := q.items + [event], pushed := q.pushed + [event])
    case Pop =>
      if q.items == [] then q
      else q.(items := q.items[1..], popped := q.popped + [q.items[0]])
  }

  function Run<T>(q: Queue<T>, ops: seq<Op<T>>): Queue<T>
    decreases |ops|
  {
    if ops == [] then q else Run(Next(q, ops[0]), ops[1..])
  }

  function Fresh<T>(): Queue<T> {
    Queue([], [], [], 0)
  }

  // The ring holds the latest events pushed, in order, at most 512; every push
  // is accounted for.
  ghost predicate Inv<T>(q: Queue<T>) {
    && |q.items| <= CAPACITY
    && |q.pushed| == |q.popped| + q.dropped + |q.items|
    && q.items == q.pushed[|q.popped| + q.dropped..]
  }

  lemma NextKeeps<T>(q: Queue<T>, op: Op<T>)
    requires Inv(q)
    ensures Inv(Next(q, op))
  {
    var gone := |q.popped| + q.dropped;
    match op
    case Push(event) =>
      assert (q.pushed + [event])[gone..] == q.items + [event];
      if |q.items| >= CAPACITY {
        assert (q.pushed + [event])[gone + 1..] == (q.items + [event])[1..] == q.items[1..] + [event];
      }
    case Pop =>
      if q.items != [] { assert q.pushed[gone + 1..] == q.items[1..]; }
  }

  lemma {:induction false} EveryRun<T>(q: Queue<T>, ops: seq<Op<T>>)
    requires Inv(q)
    ensures Inv(Run(q, ops))
    decreases |ops|
  {
    if ops != [] {
      NextKeeps(q, ops[0]);
      EveryRun(Next(q, ops[0]), ops[1..]);
    }
  }

  // From the fresh queue on, a pop takes exactly the oldest event that was neither
  // popped nor dropped, and a push drops exactly that event when 512 are held and
  // nothing otherwise.
  lemma OldestGoesFirst<T>(ops: seq<Op<T>>, op: Op<T>)
    ensures var q := Run(Fresh<T>(), ops);
      var q' := Next(q, op);
      var gone := |q.popped| + q.dropped;
      && q'.pushed == (if op.Push? then q.pushed + [op.event] else q.pushed)
      && |q'.popped| + q'.dropped <= |q'.pushed|
      && q'.items == q'.pushed[|q'.popped| + q'.dropped..] && |q'.items| <= 512
      && (q'.dropped > q.dropped <==> op.Push? && |q.items| == 512)
      && q'.dropped <= q.dropped + 1
      && (|q'.popped| + q'.dropped > gone ==>
            gone < |q.pushed| && q'.items == q'.pushed[gone + 1..])
      && (q'.popped != q.popped <==> op.Pop? && q.items != [])
      && (op.Pop? && q.items != [] ==> q'.popped == q.popped + [q.pushed[gone]])
  {
    assert Inv(Fresh<T>());
    EveryRun(Fresh<T>(), ops);
    NextKeeps(Run(Fresh<T>(), ops), op);
  }

  // ----- the ring ------------------------------------------------------------------------

  // the array index i places behind the head
  function Slot(head: nat, i: nat): (s: nat)
    requires head < CAPACITY && i <= CAPACITY
    ensures s < CAPACITY
  {
    if head + i < CAPACITY then head + i else head + i - CAPACITY
  }

  function Window<T>(events: seq<T>, head: nat, count: nat): (r: seq<T>)
    requires |events| == CAPACITY && head < CAPACITY && count <= CAPACITY
    ensures |r| == count && forall i :: 0 <= i < count ==> r[i] == events[Slot(head, i)]
  {
    seq(count, i requires 0 <= i < count => events[Slot(head, i)])
  }

  lemma WindowWithout<T>(events: seq<T>, head: nat, count: nat)
    requires |events| == CAPACITY && head < CAPACITY && 0 < count <= CAPACITY
    ensures Window(events, Slot(head, 1), count - 1) == Window(events, head, count)[1..]
    ensures Slot(Slot(head, 1), count - 1) == Slot(head, count)
  {
    assert forall i :: 0 <= i < count - 1 ==> Slot(Slot(head, 1), i) == Slot(head, i + 1);
  }

  lemma WindowWith<T>(events: seq<T>, head: nat, count: nat, ev: T)
    requires |events| == CAPACITY && head < CAPACITY && count < CAPACITY
    ensures Window(events[Slot(head, count) := ev], head, count + 1) == Window(events, head, count) + [ev]
    ensures Slot(Slot(head, count), 1) == Slot(head, count + 1)
  {
    assert forall i :: 0 <= i < count ==> Slot(head, i) != Slot(head, count);
  }

  lemma SlotIsModulo(head: nat, i: nat)
    requires head < CAPACITY && i <= CAPACITY
    ensures Slot(head, i) == (head + i) % CAPACITY
  {
  }

  class Ring<T(0)> {
    const events: array<T>
    var head: nat
    var tail: nat
    var count: nat
    var dropped: nat
    ghost var pushed: seq<T>
    ghost var popped: seq<T>

    ghost predicate Shape()
      reads this
    {
      && events.Length == CAPACITY && head < CAPACITY && count <= CAPACITY
      && tail == Slot(head, count)
    }

    ghost function Contents(): Queue<T>
      requires Shape()
      reads this, events
    {
      Queue(Window(events[..], head, count), pushed, popped, dropped)
    }

    ghost predicate Valid()
      reads this, events
    {
      Shape() && Inv(Contents())
    }

    constructor ()
      ensures Valid() && fresh(events) && Contents() == Fresh<T>()
    {
      events := new T[CAPACITY];
      head, tail, count, dropped := 0, 0, 0, 0;
      pushed, popped := [], [];
    }

    // ig_queue_push
    method Push(ev: T)
      requires Valid()
      modifies this, events
      ensures Valid() && Contents() == Next(old(Contents()), Op.Push(ev))
    {
      hide Inv, Slot, Window;
      ghost var was := events[..];
      ghost var h, n := head, count;
      NextKeeps(Contents(), Op.Push(ev));
      AtMostFull(Contents());
      if count >= CAPACITY {
        WindowWithout(was, head, count);
        SlotIsModulo(head, 1);
        head := (head + 1) % CAPACITY;
        count := count - 1;
        dropped := dropped + 1;
      }
      WindowWith(was, head, count, ev);
      SlotIsModulo(tail, 1);
      events[tail] := ev;
      assert events[..] == was[tail := ev];
      tail := (tail + 1) % CAPACITY;
      count := count + 1;
      pushed := pushed + [ev];
    }

    // ig_queue_pop without waiting; None is its -1
    method Pop() returns (ev: Option<T>)
      requires Valid()
      modifies this
      ensures Valid() && Contents() == Next(old(Contents()), Op.Pop)
      ensures ev == if old(count) == 0 then None else Some(old(Contents()).items[0])
    {
      hide Inv, Window;
      if count == 0 { return None; }
      NextKeeps(Contents(), Op.Pop);
      WindowWithout(events[..], head, count);
      SlotIsModulo(head, 1);
      ev := Some(events[head]);
      popped := popped + [events[head]];
      head := (head + 1) % CAPACITY;
      count := count - 1;
    }

    // ig_queue_dropped
    method Dropped() returns (n: nat)
      ensures n == dropped
    {
      n := dropped;
    }
  }

  lemma AtMostFull<T>(q: Queue<T>)
    requires Inv(q)
    ensures |q.items| <= CAPACITY
  {
  }
}
