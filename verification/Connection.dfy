// One agent connection: the client numbers and writes frames under its
// connection lock, the collector's session reads them back and checks the
// numbers. A history of lock holders is a sequence of whole operations, so any
// interleaving of sending threads is one such sequence.

module Connection {
  import opened Prelude
  import opened Wire

  const HEADER_SIZE: nat := 9        // IG_FRAME_HEADER_SIZE
  const MAX_FRAME: nat := 65535      // IG_MAX_FRAME_SIZE, here a limit on the payload
  const MAX_FAILURES: nat := 3       // IG_SEND_MAX_RETRIES
  const WRAP: int := 0x1_0000_0000

  datatype Frame = Frame(msgType: Byte, seqNum: Word32, payload: Bytes)

  predicate Sendable(f: Frame) {
    |f.payload| <= MAX_FRAME
  }

  // the length field counts the payload only
  function FrameBytes(f: Frame): (r: Bytes)
    requires Sendable(f)
    ensures |r| == HEADER_SIZE + |f.payload|
  {
    Bytes32(|f.payload|) + [f.msgType] + Bytes32(f.seqNum) + f.payload
  }

  // A frame on the wire, byte by byte: four bytes of payload length, high byte
  // first, the type, four bytes of number, and the payload.
  lemma FrameOnWire(f: Frame)
    requires Sendable(f)
    ensures var b := FrameBytes(f);
      && |b| == 9 + |f.payload| && |f.payload| <= 65535
      && |f.payload| == b[0] as int * 0x100_0000 + b[1] as int * 0x1_0000 + b[2] as int * 0x100 + b[3] as int
      && b[4] == f.msgType
      && f.seqNum == b[5] as int * 0x100_0000 + b[6] as int * 0x1_0000 + b[7] as int * 0x100 + b[8] as int
      && b[9..] == f.payload
  {
    hide Bytes32;
    BigEndian32(|f.payload|);
    BigEndian32(f.seqNum);
    var b, n, s := FrameBytes(f), Bytes32(|f.payload|), Bytes32(f.seqNum);
    assert b[0] == n[0] && b[1] == n[1] && b[2] == n[2] && b[3] == n[3];
    assert b[5] == s[0] && b[6] == s[1] && b[7] == s[2] && b[8] == s[3];
  }

  // ----- the stream ------------------------------------------------------------------------

  datatype Received = Received(frame: Frame, size: nat)

  // what ReadFrame takes from the front of what is left of a stream
  function FrameAt(stream: Bytes): (r: Option<Received>)
    ensures r.Some? ==> 0 < r.value.size <= |stream| && Sendable(r.value.frame)
  {
    if |stream| < HEADER_SIZE then None
    else
      var length := Word32At(stream, 0);
      if length > MAX_FRAME || |stream| - HEADER_SIZE < length then None
      else Some(Received(Frame(stream[4], Word32At(stream, 5), stream[HEADER_SIZE..HEADER_SIZE + length]), HEADER_SIZE + length))
  }

  method ReadFrame(stream: Bytes) returns (r: Option<Received>)
    ensures r == FrameAt(stream)
  {
    if |stream| < HEADER_SIZE { return None; }
    var hdrBuf := stream[..HEADER_SIZE];
    var length, msgType, seqNum := Word32At(hdrBuf, 0), hdrBuf[4], Word32At(hdrBuf, 5);
    if length > MAX_FRAME { return None; }
    var payload := [];
    if length > 0 {
      if |stream| - HEADER_SIZE < length { return None; }
      payload := stream[HEADER_SIZE..HEADER_SIZE + length];
    }
    r := Some(Received(Frame(msgType, seqNum, payload), HEADER_SIZE + length));
  }

  // Whatever follows it, a written frame is read back from the front.
  lemma FrameReadBack(f: Frame, rest: Bytes)
    requires Sendable(f)
    ensures FrameAt(FrameBytes(f) + rest) == Some(Received(f, |FrameBytes(f)|))
    ensures (FrameBytes(f) + rest)[|FrameBytes(f)|..] == rest
  {
    hide Word32At, Bytes32;
    var b, s := FrameBytes(f), FrameBytes(f) + rest;
    assert b[0..4] == Bytes32(|f.payload|) && b[4] == f.msgType && b[5..9] == Bytes32(f.seqNum) && b[9..] == f.payload;
    assert s[0..4] == b[0..4] && s[4] == b[4] && s[5..9] == b[5..9] && s[9..|b|] == b[9..];
    Word32Exact(s, 0, |f.payload|);
    Word32Exact(s, 5, f.seqNum);
  }

  lemma FrameSound(stream: Bytes)
    requires FrameAt(stream).Some?
    ensures var r := FrameAt(stream).value;
      Sendable(r.frame) && FrameBytes(r.frame) <= stream && r.size == |FrameBytes(r.frame)|
  {
    hide Word32At, Bytes32;
    var r := FrameAt(stream).value;
    Word32Exact(stream, 0, |r.frame.payload|);
    Word32Exact(stream, 5, r.frame.seqNum);
    assert stream[..r.size] == stream[0..4] + [stream[4]] + stream[5..9] + stream[9..r.size];
    assert FrameBytes(r.frame) == stream[..r.size];
  }

  // A stream yields this frame exactly when it begins with the frame's bytes.
  lemma FrameExact(stream: Bytes, f: Frame, size: nat)
    ensures FrameAt(stream) == Some(Received(f, size)) <==>
            Sendable(f) && FrameBytes(f) <= stream && size == |FrameBytes(f)|
  {
    hide FrameAt, FrameBytes;
    if FrameAt(stream).Some? { FrameSound(stream); }
    if Sendable(f) && FrameBytes(f) <= stream {
      FrameReadBack(f, stream[|FrameBytes(f)|..]);
      assert FrameBytes(f) + stream[|FrameBytes(f)|..] == stream;
    }
  }

  // What a frame cut off at n bytes is read as, with `more` behind it: nothing until
  // the missing bytes are there, then they are taken from what follows. With a whole
  // header only the payload is completed; otherwise the header is, and the frame is
  // whatever the completed header announces.
  function Made(f: Frame, n: nat, more: Bytes): (r: Option<Received>)
    requires Sendable(f) && n < |FrameBytes(f)|
    ensures r.Some? ==> n < r.value.size <= n + |more|
    ensures r.Some? && n >= 4 ==> r.value.size == |FrameBytes(f)|
  {
    if n >= HEADER_SIZE then
      var missing := |FrameBytes(f)| - n;
      if |more| < missing then None
      else Some(Received(Frame(f.msgType, f.seqNum, f.payload[..n - HEADER_SIZE] + more[..missing]), |FrameBytes(f)|))
    else if |more| < HEADER_SIZE - n then None
    else
      var header, behind := FrameBytes(f)[..n] + more[..HEADER_SIZE - n], more[HEADER_SIZE - n..];
      var length := if n >= 4 then |f.payload| else Word32At(header, 0);
      if length > MAX_FRAME || |behind| < length then None
      else
        Some(Received(Frame(if n > 4 then f.msgType else header[4], Word32At(header, 5), behind[..length]), HEADER_SIZE + length))
  }

  lemma TornFrame(f: Frame, n: nat, more: Bytes)
    requires Sendable(f) && n < |FrameBytes(f)|
    ensures FrameAt(FrameBytes(f)[..n] + more) == Made(f, n, more)
  {
    hide Word32At, Bytes32;
    if n >= HEADER_SIZE {
      TornPayload(f, n, more);
    } else if |more| >= HEADER_SIZE - n {
      TornHeader(f, n, more);
    }
  }

  lemma TornPayload(f: Frame, n: nat, more: Bytes)
    requires Sendable(f) && HEADER_SIZE <= n < |FrameBytes(f)|
    ensures FrameAt(FrameBytes(f)[..n] + more) == Made(f, n, more)
  {
    hide Word32At, Bytes32;
    var b, s := FrameBytes(f), FrameBytes(f)[..n] + more;
    assert b[0..4] == Bytes32(|f.payload|) && b[4] == f.msgType && b[5..9] == Bytes32(f.seqNum);
    assert s[0..4] == b[0..4] && s[4] == b[4] && s[5..9] == b[5..9];
    Word32Exact(s, 0, |f.payload|);
    Word32Exact(s, 5, f.seqNum);
    if |more| >= |b| - n {
      assert s[9..|b|] == f.payload[..n - HEADER_SIZE] + more[..|b| - n];
    }
  }

  lemma TornHeader(f: Frame, n: nat, more: Bytes)
    requires Sendable(f) && n < HEADER_SIZE && |more| >= HEADER_SIZE - n
    ensures FrameAt(FrameBytes(f)[..n] + more) == Made(f, n, more)
  {
    hide Word32At, Bytes32;
    var b, s := FrameBytes(f), FrameBytes(f)[..n] + more;
    var header, behind := b[..n] + more[..HEADER_SIZE - n], more[HEADER_SIZE - n..];
    assert s == header + behind;
    SameWord(s, header, 0);
    SameWord(s, header, 5);
    if n >= 4 {
      assert s[0..4] == b[0..4] == Bytes32(|f.payload|);
      Word32Exact(s, 0, |f.payload|);
    }
    if n > 4 { assert s[4] == b[4] == f.msgType; }
    var length := Word32At(s, 0);
    if length <= |behind| { assert s[HEADER_SIZE..HEADER_SIZE + length] == behind[..length]; }
  }

  lemma SameWord(s: Bytes, front: Bytes, pos: nat)
    requires front <= s && pos + 4 <= |front|
    ensures Word32At(s, pos) == Word32At(front, pos)
  {
  }

  function Stream(frames: seq<Frame>): Bytes
    requires forall i :: 0 <= i < |frames| ==> Sendable(frames[i])
  {
    if frames == [] then [] else FrameBytes(frames[0]) + Stream(frames[1..])
  }

  lemma {:induction false} StreamSnoc(frames: seq<Frame>, f: Frame)
    requires Sendable(f) && forall i :: 0 <= i < |frames| ==> Sendable(frames[i])
    ensures Stream(frames + [f]) == Stream(frames) + FrameBytes(f)
  {
    hide FrameBytes;
    if frames == [] {
      assert [f][1..] == [] && [] + [f] == [f];
      assert Stream([f]) == FrameBytes(f) + [];
    } else {
      StreamSnoc(frames[1..], f);
      assert (frames + [f])[1..] == frames[1..] + [f];
      assert Stream(frames + [f]) == FrameBytes(frames[0]) + (Stream(frames[1..]) + FrameBytes(f));
    }
  }

  // ----- the collector's side: AgentSession.Run -----------------------------------------------

  datatype End = StreamEnded | SequenceBroken

  datatype Served = Served(frames: seq<Frame>, end: End)

  predicate Accepts(lastSeq: Word32, seqNum: Word32) {
    !(lastSeq > 0 && seqNum != (lastSeq + 1) % WRAP)
  }

  // the messages dispatched, and why the loop ended
  function Serve(stream: Bytes, lastSeq: Word32): Served
    decreases |stream|
  {
    match FrameAt(stream)
    case None => Served([], StreamEnded)
    case Some(r) =>
      if !Accepts(lastSeq, r.frame.seqNum) then Served([], SequenceBroken)
      else
        var later := Serve(stream[r.size..], r.frame.seqNum);
        Served([r.frame] + later.frames, later.end)
  }

  // ----- what a stream of whole frames is taken for ---------------------------------------------

  // how many of the frames come one after the other in step
  function InStep(frames: seq<Frame>, lastSeq: Word32): (k: nat)
    ensures k <= |frames|
  {
    if frames == [] || !Accepts(lastSeq, frames[0].seqNum) then 0
    else 1 + InStep(frames[1..], frames[0].seqNum)
  }

  lemma {:induction false} InStepIsFirstStop(frames: seq<Frame>, lastSeq: Word32)
    ensures var k := InStep(frames, lastSeq);
      && (forall i :: 0 < i < k ==> Accepts(frames[i - 1].seqNum, frames[i].seqNum))
      && (k > 0 ==> Accepts(lastSeq, frames[0].seqNum))
      && (k < |frames| ==> !Accepts(if k == 0 then lastSeq else frames[k - 1].seqNum, frames[k].seqNum))
  {
    hide Accepts;
    if frames != [] && Accepts(lastSeq, frames[0].seqNum) {
      var tail := frames[1..];
      InStepIsFirstStop(tail, frames[0].seqNum);
      forall i | 0 < i < InStep(frames, lastSeq)
        ensures Accepts(frames[i - 1].seqNum, frames[i].seqNum)
      {
        assert frames[i] == tail[i - 1];
        if i > 1 { assert frames[i - 1] == tail[i - 2]; }
      }
    }
  }

  function LastNumber(frames: seq<Frame>, lastSeq: Word32): Word32 {
    if frames == [] then lastSeq else frames[|frames| - 1].seqNum
  }

  lemma Regroup<T>(a: seq<T>, b: seq<T>, c: seq<T>)
    ensures (a + b) + c == a + (b + c)
  {
  }

  lemma StreamFront(frames: seq<Frame>, rest: Bytes)
    requires frames != [] && forall i :: 0 <= i < |frames| ==> Sendable(frames[i])
    ensures Stream(frames) + rest == FrameBytes(frames[0]) + (Stream(frames[1..]) + rest)
  {
    hide FrameBytes;
    Regroup(FrameBytes(frames[0]), Stream(frames[1..]), rest);
  }

  // one whole frame at the front of the stream
  lemma ServesOne(f: Frame, rest: Bytes, lastSeq: Word32)
    requires Sendable(f)
    ensures var later := Serve(rest, f.seqNum);
      Serve(FrameBytes(f) + rest, lastSeq) ==
        if Accepts(lastSeq, f.seqNum) then Served([f] + later.frames, later.end) else Served([], SequenceBroken)
  {
    hide FrameAt, FrameBytes, Accepts;
    FrameReadBack(f, rest);
  }

  // Whole frames are taken up to the first one out of step; behind all of them the
  // collector goes on with what follows.
  lemma {:induction false} ServesInStep(frames: seq<Frame>, lastSeq: Word32, rest: Bytes)
    requires forall i :: 0 <= i < |frames| ==> Sendable(frames[i])
    ensures var k, after := InStep(frames, lastSeq), Serve(rest, LastNumber(frames, lastSeq));
      Serve(Stream(frames) + rest, lastSeq) ==
        if k < |frames| then Served(frames[..k], SequenceBroken) else Served(frames + after.frames, after.end)
    decreases |frames|
  {
    hide FrameAt, FrameBytes, Accepts, Serve, Stream;
    StreamNothing();
    if frames == [] {
      assert [] + rest == rest;
      assert frames + Serve(rest, lastSeq).frames == Serve(rest, lastSeq).frames;
    } else {
      var f, tail := frames[0], frames[1..];
      var later := Stream(tail) + rest;
      StreamFront(frames, rest);
      ServesOne(f, later, lastSeq);
      var k := InStep(tail, f.seqNum);
      if Accepts(lastSeq, f.seqNum) {
        assert InStep(frames, lastSeq) == 1 + k;
        ServesInStep(tail, f.seqNum, rest);
        assert LastNumber(tail, f.seqNum) == LastNumber(frames, lastSeq);
        var after := Serve(rest, LastNumber(frames, lastSeq));
        assert [f] + (tail + after.frames) == frames + after.frames;
        assert frames[..1 + k] == [f] + tail[..k];
      } else {
        assert frames[..0] == [];
      }
    }
  }

  // ----- the agent's side -------------------------------------------------------------------------

  // How far ssl_write_all got: everything, or only this many of the bytes.
  datatype Fate = Delivered | Broken(written: nat)

  datatype Op =
    | Connect
    | Disconnect
    | Send(msgType: Byte, payload: Bytes, fate: Fate)

  // `wire` holds the bytes written since the connection was made, `frames` the
  // frames delivered on it, oldest first.
  datatype Client = Client(connected: bool, seqNum: Word32, failures: nat, wire: Bytes, frames: seq<Frame>)

  const START: Client := Client(false, 0, 0, [], [])

  function Next(c: Client, op: Op): Client {
    match op
    case Connect => Client(true, 0, 0, [], [])
    case Disconnect => Client(false, 0, 0, [], [])
    case Send(msgType, payload, fate) =>
      if |payload| > MAX_FRAME || !c.connected then c
      else
        var f := Frame(msgType, (c.seqNum + 1) % WRAP, payload);
        match fate
        case Delivered => Client(true, f.seqNum, 0, c.wire + FrameBytes(f), c.frames + [f])
        case Broken(written) =>
          var sent := if written < |FrameBytes(f)| then FrameBytes(f)[..written] else FrameBytes(f);
          Client(true, f.seqNum, if c.failures + 1 >= MAX_FAILURES then 0 else c.failures + 1, c.wire + sent, c.frames)
  }

  function Run(c: Client, ops: seq<Op>): Client
    decreases |ops|
  {
    if ops == [] then c else Run(Next(c, ops[0]), ops[1..])
  }

  predicate Harmless(op: Op) {
    op.Send? ==> op.fate.Delivered?
  }

  // what a send hands over, when it succeeds
  datatype Message = Message(msgType: Byte, payload: Bytes)

  function Messages(frames: seq<Frame>): (r: seq<Message>)
    ensures |r| == |frames| && forall i :: 0 <= i < |r| ==> r[i] == Message(frames[i].msgType, frames[i].payload)
  {
    seq(|frames|, i requires 0 <= i < |frames| => Message(frames[i].msgType, frames[i].payload))
  }

  // the messages of the sends that succeed, on a connection that is up
  function Succeeded(ops: seq<Op>): seq<Message> {
    if ops == [] then []
    else
      var last := ops[|ops| - 1];
      Succeeded(ops[..|ops| - 1])
      + if last.Send? && |last.payload| <= 65535 && last.fate.Delivered? then [Message(last.msgType, last.payload)] else []
  }

  // how many sends have failed since the last one that succeeded
  function FailedInARow(ops: seq<Op>): nat {
    if ops == [] then 0
    else
      var last, before := ops[|ops| - 1], FailedInARow(ops[..|ops| - 1]);
      if !last.Send? || |last.payload| > 65535 then before else if last.fate.Delivered? then 0 else before + 1
  }

  lemma {:induction false} RunSnoc(c: Client, ops: seq<Op>, op: Op)
    ensures Run(c, ops + [op]) == Next(Run(c, ops), op)
    decreases |ops|
  {
    hide Next;
    if ops == [] {
      assert [op][1..] == [] && [] + [op] == [op];
      assert Run(c, [op]) == Run(Next(c, op), []);
    } else {
      assert (ops + [op])[1..] == ops[1..] + [op];
      RunSnoc(Next(c, ops[0]), ops[1..], op);
    }
  }

  lemma HistorySnoc(front: seq<Op>, last: Op)
    requires last.Send?
    ensures Succeeded(front + [last]) == Succeeded(front)
      + if |last.payload| <= 65535 && last.fate.Delivered? then [Message(last.msgType, last.payload)] else []
    ensures FailedInARow(front + [last]) ==
      if |last.payload| > 65535 then FailedInARow(front) else if last.fate.Delivered? then 0 else FailedInARow(front) + 1
  {
    assert (front + [last])[..|front|] == front;
  }

  // the connection has delivered the successful sends, and counts its failures
  ghost predicate Accounted(c: Client, ops: seq<Op>) {
    c.connected && Messages(c.frames) == Succeeded(ops) && c.failures == FailedInARow(ops) % 3
  }

  lemma NextAccounted(c: Client, front: seq<Op>, last: Op)
    requires Accounted(c, front) && last.Send?
    ensures Accounted(Next(c, last), front + [last])
  {
    hide Next, Succeeded, FailedInARow;
    HistorySnoc(front, last);
    DeliveredStep(c, last);
    OneMoreOfThree(FailedInARow(front));
    assert Succeeded(front) + [] == Succeeded(front);
  }

  // On one connection the frames delivered are the successful sends, in their order
  // and as they were; the failure count starts again after a success and after
  // every third failure.
  lemma {:induction false} DeliveredExactly(ops: seq<Op>)
    requires forall i :: 0 <= i < |ops| ==> ops[i].Send?
    ensures var c := Run(Next(START, Connect), ops);
      c.connected && Messages(c.frames) == Succeeded(ops) && c.failures == FailedInARow(ops) % 3
  {
    if ops == [] {
      assert Messages([]) == [];
    } else {
      hide Next, Run, Succeeded, FailedInARow;
      var front, last := ops[..|ops| - 1], ops[|ops| - 1];
      assert ops == front + [last];
      DeliveredExactly(front);
      RunSnoc(Next(START, Connect), front, last);
      NextAccounted(Run(Next(START, Connect), front), front, last);
    }
  }

  lemma OneMoreOfThree(n: nat)
    ensures (n + 1) % 3 == if n % 3 + 1 >= 3 then 0 else n % 3 + 1
  {
  }

  lemma DeliveredStep(c: Client, op: Op)
    requires op.Send? && c.connected
    ensures var c' := Next(c, op);
      && c'.connected
      && (if |op.payload| > 65535 then c' == c
          else if op.fate.Delivered? then
            Messages(c'.frames) == Messages(c.frames) + [Message(op.msgType, op.payload)] && c'.failures == 0
          else
            c'.frames == c.frames && c'.failures == if c.failures + 1 >= 3 then 0 else c.failures + 1)
  {
    hide FrameBytes;
  }

  // the numbers 1, 2, 3, ... in 32 bits
  ghost predicate Numbered(frames: seq<Frame>) {
    forall i :: 0 <= i < |frames| ==> Sendable(frames[i]) && frames[i].seqNum == (i + 1) % WRAP
  }

  // As long as every send succeeds, the wire is the frames sent, in order and
  // numbered from 1.
  ghost predicate Orderly(c: Client) {
    && Numbered(c.frames)
    && c.wire == Stream(c.frames)
    && c.seqNum == |c.frames| % WRAP
  }

  lemma NextOrderly(c: Client, op: Op)
    requires Orderly(c) && Harmless(op)
    ensures Orderly(Next(c, op))
  {
    hide FrameBytes, Stream;
    StreamNothing();
    if op.Send? && |op.payload| <= MAX_FRAME && c.connected {
      StreamSnoc(c.frames, Frame(op.msgType, (c.seqNum + 1) % WRAP, op.payload));
      NextNumber(|c.frames|);
    }
  }

  lemma StreamNothing()
    ensures Stream([]) == []
  {
  }

  lemma NextNumber(n: nat)
    ensures (n % WRAP + 1) % WRAP == (n + 1) % WRAP
  {
  }

  lemma {:induction false} RunOrderly(c: Client, ops: seq<Op>)
    requires Orderly(c) && forall i :: 0 <= i < |ops| ==> Harmless(ops[i])
    ensures Orderly(Run(c, ops))
    decreases |ops|
  {
    hide Orderly, Next;
    if ops != [] {
      NextOrderly(c, ops[0]);
      RunOrderly(Next(c, ops[0]), ops[1..]);
    }
  }

  // From the right number on, the collector takes a numbered stream to its end.
  lemma {:induction false} ServesAll(frames: seq<Frame>, lastSeq: Word32, first: nat, rest: Bytes)
    requires forall i :: 0 <= i < |frames| ==> Sendable(frames[i]) && frames[i].seqNum == (first + i + 1) % WRAP
    requires lastSeq == first % WRAP
    ensures var after := Serve(rest, (first + |frames|) % WRAP);
      Serve(Stream(frames) + rest, lastSeq) == Served(frames + after.frames, after.end)
    decreases |frames|
  {
    hide FrameAt, FrameBytes, Serve, Stream;
    StreamNothing();
    if frames == [] {
      assert [] + rest == rest;
    } else {
      var f, later := frames[0], Stream(frames[1..]) + rest;
      StreamFront(frames, rest);
      NextNumber(first);
      ServesOne(f, later, lastSeq);
      ServesAll(frames[1..], f.seqNum, first + 1, rest);
      assert [f] + frames[1..] == frames;
      var after := Serve(rest, (first + |frames|) % WRAP);
      assert [f] + (frames[1..] + after.frames) == frames + after.frames;
    }
  }

  // For any threads sending successfully on one connection, the collector reads
  // exactly the frames sent, in order, numbered 1, 2, 3, ... modulo 2^32, and its
  // sequence check never ends the connection, not even across the wrap.
  lemma NeverOutOfStep(ops: seq<Op>)
    requires forall i :: 0 <= i < |ops| ==> Harmless(ops[i])
    ensures var c := Run(START, ops);
      Numbered(c.frames) && Serve(c.wire, 0) == Served(c.frames, StreamEnded)
  {
    hide FrameAt, FrameBytes, Stream, Next;
    StreamNothing();
    NothingLeft();
    assert Orderly(START);
    RunOrderly(START, ops);
    var c := Run(START, ops);
    ServesAll(c.frames, 0, 0, []);
    assert c.wire + [] == c.wire && c.frames + [] == c.frames;
  }

  // ----- sends that fail -----------------------------------------------------------------------------

  // delivered, or failed with nothing written
  predicate Clean(op: Op) {
    op.Send? ==> op.fate.Delivered? || op.fate.written == 0
  }

  ghost predicate Whole(c: Client) {
    (forall i :: 0 <= i < |c.frames| ==> Sendable(c.frames[i])) && c.wire == Stream(c.frames)
  }

  lemma NextWhole(c: Client, op: Op)
    requires Whole(c) && Clean(op)
    ensures Whole(Next(c, op))
  {
    hide FrameBytes, Stream;
    StreamNothing();
    if op.Send? && |op.payload| <= MAX_FRAME && c.connected {
      var f := Frame(op.msgType, (c.seqNum + 1) % WRAP, op.payload);
      StreamSnoc(c.frames, f);
      assert c.wire + [] == c.wire && FrameBytes(f)[..0] == [];
    }
  }

  lemma {:induction false} RunWhole(c: Client, ops: seq<Op>)
    requires Whole(c) && forall i :: 0 <= i < |ops| ==> Clean(ops[i])
    ensures Whole(Run(c, ops))
    decreases |ops|
  {
    hide Whole, Next;
    if ops != [] {
      NextWhole(c, ops[0]);
      RunWhole(Next(c, ops[0]), ops[1..]);
    }
  }

  lemma StartWhole()
    ensures Whole(START) && Orderly(START)
  {
    StreamNothing();
  }

  // a frame is in step with its predecessor: it has the next number, or the
  // predecessor's number is 0, which the collector takes for a fresh session
  ghost predicate AllInStep(frames: seq<Frame>) {
    forall i :: 0 < i < |frames| ==> frames[i].seqNum == (frames[i - 1].seqNum + 1) % WRAP || frames[i - 1].seqNum == 0
  }

  // A send that fails before anything is written still takes its number. Over any
  // run of sends that are delivered or fail so, in any number and order: the
  // collector takes every delivered frame if and only if each is in step with its
  // predecessor, and otherwise exactly those before the first that is not.
  lemma TakenIfInStep(ops: seq<Op>)
    requires forall i :: 0 <= i < |ops| ==> Clean(ops[i])
    ensures var c := Run(START, ops);
      var k := InStep(c.frames, 0);
      && (Serve(c.wire, 0) == Served(c.frames, StreamEnded) <==> AllInStep(c.frames))
      && (!AllInStep(c.frames) ==> k < |c.frames| && Serve(c.wire, 0) == Served(c.frames[..k], SequenceBroken))
  {
    hide FrameAt, FrameBytes, Stream, Next;
    StartWhole();
    NothingLeft();
    RunWhole(START, ops);
    var c := Run(START, ops);
    ServesInStep(c.frames, 0, []);
    assert c.wire + [] == c.wire && c.frames + [] == c.frames;
    var k := InStep(c.frames, 0);
    InStepIsFirstStop(c.frames, 0);
    if k == |c.frames| {
      forall i | 0 < i < |c.frames|
        ensures c.frames[i].seqNum == (c.frames[i - 1].seqNum + 1) % WRAP || c.frames[i - 1].seqNum == 0
      {
        assert Accepts(c.frames[i - 1].seqNum, c.frames[i].seqNum);
      }
    }
  }

  // ----- in terms of the sends ---------------------------------------------------------------------------

  // The sends that took a number on the connection at hand, oldest first: was it
  // delivered?
  function NextFates(c: Client, fates: seq<bool>, op: Op): seq<bool> {
    if !op.Send? then []
    else if |op.payload| > MAX_FRAME || !c.connected then fates
    else fates + [op.fate.Delivered?]
  }

  function Fates(c: Client, fates: seq<bool>, ops: seq<Op>): seq<bool>
    decreases |ops|
  {
    if ops == [] then fates else Fates(Next(c, ops[0]), NextFates(c, fates, ops[0]), ops[1..])
  }

  // the positions of the delivered ones
  function Delivereds(fates: seq<bool>): (d: seq<nat>)
    ensures forall i :: 0 <= i < |d| ==> d[i] < |fates| && fates[d[i]]
    ensures forall i, j :: 0 <= i < j < |d| ==> d[i] < d[j]
  {
    if fates == [] then []
    else
      var front, n := Delivereds(fates[..|fates| - 1]), |fates| - 1;
      if fates[n] then front + [n] else front
  }

  // the k-th send of a connection has number k + 1, modulo 2^32
  ghost predicate NumbersTaken(c: Client, fates: seq<bool>) {
    && c.seqNum == |fates| % WRAP
    && |c.frames| == |Delivereds(fates)|
    && forall i :: 0 <= i < |c.frames| ==> c.frames[i].seqNum == (Delivereds(fates)[i] + 1) % WRAP
  }

  lemma DeliveredsSnoc(fates: seq<bool>, last: bool)
    ensures Delivereds(fates + [last]) == if last then Delivereds(fates) + [|fates|] else Delivereds(fates)
  {
    assert (fates + [last])[..|fates|] == fates;
  }

  // what a send of a connection that is up does to the numbers
  lemma SendStep(c: Client, op: Op)
    requires op.Send? && |op.payload| <= MAX_FRAME && c.connected
    ensures var f := Frame(op.msgType, (c.seqNum + 1) % WRAP, op.payload);
      && Next(c, op).seqNum == f.seqNum
      && Next(c, op).frames == if op.fate.Delivered? then c.frames + [f] else c.frames
  {
    hide FrameBytes;
  }

  lemma NextTakes(c: Client, fates: seq<bool>, op: Op)
    requires NumbersTaken(c, fates)
    ensures NumbersTaken(Next(c, op), NextFates(c, fates, op))
  {
    hide FrameBytes, Delivereds;
    NothingDelivered();
    if op.Send? && |op.payload| <= MAX_FRAME && c.connected {
      hide Next;
      NextNumber(|fates|);
      DeliveredsSnoc(fates, op.fate.Delivered?);
      SendStep(c, op);
    }
  }

  lemma NothingDelivered()
    ensures Delivereds([]) == []
  {
  }

  lemma {:induction false} RunTakes(c: Client, fates: seq<bool>, ops: seq<Op>)
    requires NumbersTaken(c, fates)
    ensures NumbersTaken(Run(c, ops), Fates(c, fates, ops))
    decreases |ops|
  {
    hide NumbersTaken, Next, NextFates;
    if ops != [] {
      NextTakes(c, fates, ops[0]);
      RunTakes(Next(c, ops[0]), NextFates(c, fates, ops[0]), ops[1..]);
    }
  }

  // Between two deliveries in a row a multiple of 2^32 sends is lost, none of them as a
  // rule, or the earlier one is a multiple of 2^32 sends into the connection.
  ghost predicate NoGap(fates: seq<bool>) {
    var d := Delivereds(fates);
    forall i :: 0 < i < |d| ==> (d[i] - d[i - 1] - 1) % WRAP == 0 || (d[i - 1] + 1) % WRAP == 0
  }

  lemma InStepIffNoGap(c: Client, fates: seq<bool>)
    requires NumbersTaken(c, fates)
    ensures AllInStep(c.frames) <==> NoGap(fates)
  {
    hide Delivereds;
    var d := Delivereds(fates);
    forall i | 0 < i < |d|
      ensures (c.frames[i].seqNum == (c.frames[i - 1].seqNum + 1) % WRAP <==> (d[i] - d[i - 1] - 1) % WRAP == 0)
    {
      StepOfOne(d[i - 1], d[i]);
    }
  }

  lemma StepOfOne(a: nat, b: nat)
    ensures (b + 1) % WRAP == ((a + 1) % WRAP + 1) % WRAP <==> (b - a - 1) % WRAP == 0
  {
  }

  // So the sender can tell: over any run of sends that are delivered or fail with
  // nothing written, the collector takes every frame delivered on the connection if and
  // only if its losses leave no such gap.
  lemma TakenIfNoGap(ops: seq<Op>)
    requires forall i :: 0 <= i < |ops| ==> Clean(ops[i])
    ensures var c := Run(START, ops);
      Serve(c.wire, 0) == Served(c.frames, StreamEnded) <==> NoGap(Fates(START, [], ops))
  {
    hide Next, Serve, AllInStep, NoGap;
    NothingDelivered();
    TakenIfInStep(ops);
    RunTakes(START, [], ops);
    InStepIffNoGap(Run(START, ops), Fates(START, [], ops));
  }

  // no send is lost between two delivered ones
  ghost predicate Unbroken(fates: seq<bool>) {
    forall a, b, e :: 0 <= a < b < e < |fates| && fates[a] && fates[e] ==> fates[b]
  }

  // On a connection with fewer than 2^32 sends that is all it means.
  lemma ShortConnection(fates: seq<bool>)
    requires |fates| < WRAP
    ensures NoGap(fates) <==> Unbroken(fates)
  {
    hide NoGap, Unbroken;
    if NoGap(fates) { NoGapIsUnbroken(fates); }
    if Unbroken(fates) { UnbrokenHasNoGap(fates); }
  }

  lemma NoGapIsUnbroken(fates: seq<bool>)
    requires |fates| < WRAP && NoGap(fates)
    ensures Unbroken(fates)
  {
    hide Delivereds, NoGap;
    forall a, b, e | 0 <= a < b < e < |fates| && fates[a] && fates[e] ensures fates[b] {
      var i := PositionOf(fates, a);
      var k := PositionOf(fates, e);
      DenseBetween(fates, i, k);
      assert Delivereds(fates)[i + (b - a)] == b;
    }
  }

  lemma UnbrokenHasNoGap(fates: seq<bool>)
    requires |fates| < WRAP && Unbroken(fates)
    ensures NoGap(fates)
  {
    hide Delivereds, Unbroken;
    var d := Delivereds(fates);
    forall i | 0 < i < |d| ensures d[i] == d[i - 1] + 1 {
      if d[i] > d[i - 1] + 1 {
        Inside(fates, d[i - 1], d[i - 1] + 1, d[i]);
        var k := PositionOf(fates, d[i - 1] + 1);
        InOrder(fates, i - 1, k);
        InOrder(fates, k, i);
        assert false;
      }
    }
  }

  lemma InOrder(fates: seq<bool>, i: nat, k: nat)
    requires i < |Delivereds(fates)| && k < |Delivereds(fates)|
    ensures Delivereds(fates)[i] < Delivereds(fates)[k] <==> i < k
  {
    hide Delivereds;
    if k < i { assert Delivereds(fates)[k] < Delivereds(fates)[i]; }
  }

  lemma Inside(fates: seq<bool>, a: nat, b: nat, e: nat)
    requires Unbroken(fates) && a < b < e < |fates| && fates[a] && fates[e]
    ensures fates[b]
  {
  }

  lemma {:induction false} PositionOf(fates: seq<bool>, p: nat) returns (i: nat)
    requires p < |fates| && fates[p]
    ensures i < |Delivereds(fates)| && Delivereds(fates)[i] == p
  {
    var front := fates[..|fates| - 1];
    if p < |front| {
      i := PositionOf(front, p);
    } else {
      i := |Delivereds(front)|;
    }
  }

  lemma {:induction false} DenseBetween(fates: seq<bool>, i: nat, k: nat)
    requires |fates| < WRAP && NoGap(fates) && i <= k < |Delivereds(fates)|
    ensures forall j :: i <= j <= k ==> Delivereds(fates)[j] == Delivereds(fates)[i] + (j - i)
    decreases k - i
  {
    hide Delivereds;
    var d := Delivereds(fates);
    if i < k {
      DenseBetween(fates, i, k - 1);
      assert d[k - 1] < d[k] < |fates|;
      assert (d[k] - d[k - 1] - 1) % WRAP == 0;
    }
  }

  // One lost number: the next frame is refused, unless the collector's last
  // number is 0, on a fresh connection or after a multiple of 2^32 frames.
  lemma LostNumber(ops: seq<Op>, lost: Op, next: Op)
    requires forall i :: 0 <= i < |ops| ==> Harmless(ops[i])
    requires Run(START, ops).connected
    requires lost.Send? && lost.fate == Broken(0) && |lost.payload| <= MAX_FRAME
    requires next.Send? && next.fate == Delivered && |next.payload| <= MAX_FRAME
    ensures var c := Run(START, ops);
      var c' := Next(Next(c, lost), next);
      Serve(c'.wire, 0) == if |c.frames| % WRAP == 0 then Served(c'.frames, StreamEnded)
                           else Served(c.frames, SequenceBroken)
  {
    hide FrameAt, FrameBytes, Stream;
    StartWhole();
    RunOrderly(START, ops);
    var c := Run(START, ops);
    var c1 := Next(c, lost);
    var c2 := Next(c1, next);
    assert c1.wire == c.wire + [] == c.wire;
    var f := Frame(next.msgType, (c1.seqNum + 1) % WRAP, next.payload);
    ServesAll(c.frames, 0, 0, FrameBytes(f));
    FrameReadBack(f, []);
    assert FrameBytes(f) + [] == FrameBytes(f);
    NothingLeft();
    SkippedNumber(|c.frames|, f.seqNum);
    assert c.frames + [] == c.frames && [f] + [] == [f];
  }

  // does the send fail on this client, after taking a number?
  predicate Fails(c: Client, op: Op) {
    op.Send? && op.fate.Broken? && |op.payload| <= MAX_FRAME && c.connected
  }

  // A frame that is only partly written is not dispatched, nor does it disturb
  // what was taken before it, as long as nothing more is sent on the connection.
  lemma TornFrameWaits(ops: seq<Op>, op: Op)
    requires forall i :: 0 <= i < |ops| ==> Clean(ops[i])
    requires Fails(Run(START, ops), op) && op.fate.written < HEADER_SIZE + |op.payload|
    ensures var c := Run(START, ops);
      && Serve(Next(c, op).wire, 0) == Serve(c.wire, 0)
      && (Serve(Next(c, op).wire, 0) == Served(c.frames, StreamEnded) <==> AllInStep(c.frames))
  {
    hide Next, Serve, AllInStep;
    StartWhole();
    RunWhole(START, ops);
    TornLast(Run(START, ops), op);
    TakenIfInStep(ops);
  }

  lemma TornLast(c: Client, op: Op)
    requires Whole(c) && Fails(c, op) && op.fate.written < HEADER_SIZE + |op.payload|
    ensures Serve(Next(c, op).wire, 0) == Serve(c.wire, 0)
  {
    hide FrameAt, FrameBytes, Stream;
    var f := Frame(op.msgType, (c.seqNum + 1) % WRAP, op.payload);
    var torn := FrameBytes(f)[..op.fate.written];
    TornFrame(f, op.fate.written, []);
    assert Made(f, op.fate.written, []) == None;
    assert torn + [] == torn && c.wire + [] == c.wire;
    NothingLeft();
    ServesInStep(c.frames, 0, torn);
    ServesInStep(c.frames, 0, []);
  }

  // Once more is sent, the collector completes the torn frame from it, wherever it was
  // cut: it dispatches a frame that was never sent, unless its number is out of step,
  // and reads on behind it.
  lemma TornFrameSwallows(c: Client, op: Op, more: Bytes)
    requires Whole(c) && AllInStep(c.frames) && Fails(c, op) && op.fate.written < HEADER_SIZE + |op.payload|
    ensures var n := op.fate.written;
      Serve(Next(c, op).wire + more, 0) ==
        match Made(Frame(op.msgType, (c.seqNum + 1) % WRAP, op.payload), n, more)
        case None => Served(c.frames, StreamEnded)
        case Some(r) =>
          if !Accepts(LastNumber(c.frames, 0), r.frame.seqNum) then Served(c.frames, SequenceBroken)
          else
            var later := Serve(more[r.size - n..], r.frame.seqNum);
            Served(c.frames + [r.frame] + later.frames, later.end)
  {
    hide FrameAt, FrameBytes, Stream, Serve, InStep, AllInStep, Made, Accepts;
    var f, n := Frame(op.msgType, (c.seqNum + 1) % WRAP, op.payload), op.fate.written;
    var torn := FrameBytes(f)[..n];
    AllInStepCounts(c.frames);
    ServesInStep(c.frames, 0, torn + more);
    ServesTorn(f, n, more, LastNumber(c.frames, 0));
    Regroup(c.wire, torn, more);
    var made := Made(f, n, more);
    if made.Some? && Accepts(LastNumber(c.frames, 0), made.value.frame.seqNum) {
      Regroup(c.frames, [made.value.frame], Serve(more[made.value.size - n..], made.value.frame.seqNum).frames);
    } else {
      assert c.frames + [] == c.frames;
    }
  }

  lemma ServesTorn(f: Frame, n: nat, more: Bytes, lastSeq: Word32)
    requires Sendable(f) && n < |FrameBytes(f)|
    ensures Serve(FrameBytes(f)[..n] + more, lastSeq) ==
      match Made(f, n, more)
      case None => Served([], StreamEnded)
      case Some(r) =>
        if !Accepts(lastSeq, r.frame.seqNum) then Served([], SequenceBroken)
        else
          var later := Serve(more[r.size - n..], r.frame.seqNum);
          Served([r.frame] + later.frames, later.end)
  {
    hide FrameAt, FrameBytes, Accepts, Made;
    TornFrame(f, n, more);
    var made := Made(f, n, more);
    if made.Some? {
      assert (FrameBytes(f)[..n] + more)[made.value.size..] == more[made.value.size - n..];
    }
  }

  lemma AllInStepCounts(frames: seq<Frame>)
    requires AllInStep(frames)
    ensures InStep(frames, 0) == |frames|
  {
    InStepIsFirstStop(frames, 0);
  }

  // Such a run: a frame, the header alone of a second one, and a third. Two frames
  // are delivered and two dispatched, but in place of the third the collector gets
  // a second one whose payload is the third's header.
  lemma HalfWrittenFrameCorrupts(msgType: Byte, payload: Bytes)
    requires |payload| == HEADER_SIZE
    ensures var ops := [Connect, Send(msgType, [], Delivered), Send(msgType, payload, Broken(HEADER_SIZE)),
                        Send(msgType, [], Delivered)];
      var c := Run(START, ops);
      && c.frames == [Frame(msgType, 1, []), Frame(msgType, 3, [])]
      && Serve(c.wire, 0) == Served([Frame(msgType, 1, []), Frame(msgType, 2, FrameBytes(Frame(msgType, 3, [])))], StreamEnded)
  {
    hide FrameAt, FrameBytes, Stream, Serve, Made, Next, Run;
    var first, third := Frame(msgType, 1, []), Frame(msgType, 3, []);
    var ok, torn := Send(msgType, [], Delivered), Send(msgType, payload, Broken(HEADER_SIZE));
    var c1 := Client(true, 1, 0, Stream([first]), [first]);
    FourSteps(START, Connect, ok, torn, ok);
    FirstSend(msgType);
    var c3 := Next(Next(c1, torn), ok);
    ThirdSend(c1, torn, ok);
    TornFrameSwallows(c1, torn, FrameBytes(third));
    HeaderSwallowed(msgType, payload, third);
    var made := Frame(msgType, 2, FrameBytes(third));
    NothingServed(2);
    assert FrameBytes(third)[HEADER_SIZE..] == [];
    assert [first] + [made] + [] == [first, made] && [first] + [third] == [first, third];
  }

  lemma FirstSend(msgType: Byte)
    ensures Next(Next(START, Connect), Send(msgType, [], Delivered))
         == Client(true, 1, 0, Stream([Frame(msgType, 1, [])]), [Frame(msgType, 1, [])])
  {
    hide FrameBytes, Stream;
    var first := Frame(msgType, 1, []);
    StreamNothing();
    StreamSnoc([], first);
    assert [] + [first] == [first] && [] + FrameBytes(first) == FrameBytes(first);
  }

  lemma ThirdSend(c: Client, torn: Op, ok: Op)
    requires c.connected && c.seqNum == 1 && torn.Send? && torn.fate.Broken? && |torn.payload| <= MAX_FRAME
    requires ok.Send? && ok.fate.Delivered? && ok.payload == []
    ensures var third := Frame(ok.msgType, 3, []);
      var c' := Next(Next(c, torn), ok);
      c'.wire == Next(c, torn).wire + FrameBytes(third) && c'.frames == c.frames + [third]
  {
    hide FrameBytes;
  }

  lemma HeaderSwallowed(msgType: Byte, payload: Bytes, next: Frame)
    requires |payload| == HEADER_SIZE && Sendable(next) && next.payload == []
    ensures Made(Frame(msgType, 2, payload), HEADER_SIZE, FrameBytes(next))
         == Some(Received(Frame(msgType, 2, FrameBytes(next)), 2 * HEADER_SIZE))
  {
    assert payload[..0] + FrameBytes(next) == FrameBytes(next) && FrameBytes(next)[..HEADER_SIZE] == FrameBytes(next);
  }

  lemma NothingServed(lastSeq: Word32)
    ensures Serve([], lastSeq) == Served([], StreamEnded)
  {
    NothingLeft();
  }

  lemma FourSteps(c: Client, a: Op, b: Op, d: Op, e: Op)
    ensures Run(c, [a, b, d, e]) == Next(Next(Next(Next(c, a), b), d), e)
  {
    hide Next;
    assert [a, b, d, e][1..] == [b, d, e] && [b, d, e][1..] == [d, e] && [d, e][1..] == [e] && [e][1..] == [];
    assert Run(Next(c, a), [b, d, e]) == Run(Next(Next(c, a), b), [d, e]);
    assert Run(Next(Next(c, a), b), [d, e]) == Run(Next(Next(Next(c, a), b), d), [e]);
    assert Run(Next(Next(Next(c, a), b), d), [e]) == Next(Next(Next(Next(c, a), b), d), e);
  }

  // ----- reconnecting after every failure ----------------------------------------------------------------

  // every failed send is followed by a new connection, or by giving this one up;
  // ssl_write_all fails only with some of its bytes unwritten
  ghost predicate Careful(c: Client, ops: seq<Op>)
    decreases |ops|
  {
    ops != [] ==>
      && (Fails(c, ops[0]) ==> ops[0].fate.written < HEADER_SIZE + |ops[0].payload| && (|ops| > 1 ==> !ops[1].Send?))
      && Careful(Next(c, ops[0]), ops[1..])
  }

  // all frames delivered from here on, connection after connection
  function AllDelivered(c: Client, ops: seq<Op>): seq<Frame>
    decreases |ops|
  {
    if ops == [] then c.frames
    else (if ops[0].Send? then [] else c.frames) + AllDelivered(Next(c, ops[0]), ops[1..])
  }

  // all frames the collector dispatches, each connection a session of its own
  function AllDispatched(c: Client, ops: seq<Op>): seq<Frame>
    decreases |ops|
  {
    if ops == [] then Serve(c.wire, 0).frames
    else (if ops[0].Send? then [] else Serve(c.wire, 0).frames) + AllDispatched(Next(c, ops[0]), ops[1..])
  }

  // An agent that reconnects after every failed send, however much of it was
  // written, has exactly the frames dispatched that it delivered.
  lemma CarefulLosesNothing(ops: seq<Op>)
    requires Careful(START, ops)
    ensures AllDispatched(START, ops) == AllDelivered(START, ops)
  {
    StartWhole();
    CarefulFrom(START, ops);
  }

  lemma {:induction false} CarefulFrom(c: Client, ops: seq<Op>)
    requires Orderly(c) && Careful(c, ops)
    ensures AllDispatched(c, ops) == AllDelivered(c, ops)
    decreases |ops|
  {
    hide FrameAt, FrameBytes, Stream, Numbered;
    OrderlyServes(c);
    if ops != [] {
      var c' := Next(c, ops[0]);
      if !Fails(c, ops[0]) {
        StartWhole();
        NotFailingKeeps(c, ops[0]);
        CarefulFrom(c', ops[1..]);
      } else {
        TornLast(c, ops[0]);
        if |ops| > 1 {
          FreshIsOrderly(c', ops[1]);
          assert ops[1..][1..] == ops[2..];
          CarefulFrom(Next(c', ops[1]), ops[2..]);
        }
      }
    }
  }

  lemma OrderlyServes(c: Client)
    requires Orderly(c)
    ensures Whole(c) && Serve(c.wire, 0) == Served(c.frames, StreamEnded)
  {
    hide FrameAt, FrameBytes;
    NothingLeft();
    ServesAll(c.frames, 0, 0, []);
    assert c.wire + [] == c.wire && c.frames + [] == c.frames;
  }

  lemma NotFailingKeeps(c: Client, op: Op)
    requires Orderly(c) && !Fails(c, op)
    ensures Orderly(Next(c, op))
  {
    if Harmless(op) { NextOrderly(c, op); }
  }

  lemma FreshIsOrderly(c: Client, op: Op)
    requires !op.Send?
    ensures Orderly(Next(c, op))
  {
    StreamNothing();
  }

  lemma NothingLeft()
    ensures FrameAt([]).None?
  {
  }

  lemma SkippedNumber(n: nat, seqNum: Word32)
    requires seqNum == ((n % WRAP + 1) % WRAP + 1) % WRAP
    ensures Accepts(n % WRAP, seqNum) <==> n % WRAP == 0
  {
  }

  // ig_tcp_client_t, as far as framing goes
  class TcpClient {
    var connected: bool
    var seqNum: Word32
    var sendFailures: nat
    var wire: Bytes
    ghost var frames: seq<Frame>

    ghost function State(): Client
      reads this
    {
      Client(connected, seqNum, sendFailures, wire, frames)
    }

    constructor ()
      ensures State() == START
    {
      connected, seqNum, sendFailures, wire, frames := false, 0, 0, [], [];
    }

    // next_seq
    method NextSeq() returns (s: Word32)
      modifies this`seqNum
      ensures s == seqNum == (old(seqNum) + 1) % WRAP
    {
      seqNum := (seqNum + 1) % WRAP;
      s := seqNum;
    }

    // a successful ig_tcp_connect_locked
    method Connect()
      modifies this
      ensures State() == Next(old(State()), Op.Connect)
    {
      connected := true;
      seqNum := 0;
      sendFailures := 0;
      wire, frames := [], [];
    }

    // ig_tcp_disconnect_locked
    method Disconnect()
      modifies this
      ensures State() == Next(old(State()), Op.Disconnect)
    {
      connected := false;
      sendFailures := 0;
      seqNum := 0;
      wire, frames := [], [];
    }

    // ssl_write_all: `budget` is how many bytes the connection still takes
    method WriteAll(part: Bytes, budget: nat) returns (ok: bool, left: nat)
      modifies this`wire
      ensures ok <==> |part| <= budget
      ensures wire == old(wire) + if ok then part else part[..budget]
      ensures ok ==> left == budget - |part|
    {
      ok := |part| <= budget;
      left := if ok then budget - |part| else 0;
      wire := wire + if ok then part else part[..budget];
    }

    // ig_tcp_send_frame_locked; -2 asks the caller to reconnect
    method SendFrame(msgType: Byte, payload: Bytes, budget: nat) returns (ret: int)
      modifies this
      ensures var fate := if HEADER_SIZE + |payload| <= budget then Delivered else Broken(budget);
        State() == Next(old(State()), Send(msgType, payload, fate))
      ensures ret == if |payload| > MAX_FRAME || !old(connected) then -1
                     else if HEADER_SIZE + |payload| <= budget then 0
                     else if old(sendFailures) + 1 >= MAX_FAILURES then -2 else -1
    {
      if |payload| > MAX_FRAME { return -1; }
      if !connected { return -1; }
      var s := NextSeq();
      var hdrBuf := Bytes32(|payload|) + [msgType] + Bytes32(s);
      ghost var f := Frame(msgType, s, payload);
      assert FrameBytes(f) == hdrBuf + payload;
      var ok, left := WriteAll(hdrBuf, budget);
      if ok && |payload| > 0 {
        assert HEADER_SIZE + |payload| > budget ==>
            FrameBytes(f)[..budget] == hdrBuf + payload[..budget - HEADER_SIZE];
        ok, left := WriteAll(payload, left);
      }
      if !ok {
        sendFailures := sendFailures + 1;
        ret := -1;
        if sendFailures >= MAX_FAILURES {
          sendFailures := 0;
          ret := -2;
        }
      } else {
        sendFailures := 0;
        frames := frames + [f];
        ret := 0;
      }
    }
  }
}
