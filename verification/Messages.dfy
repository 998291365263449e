// The layout of a FILE_EVENT payload and the collector's Go decoder for it: which
// bytes it accepts, and what it reads from them.

module Messages {
  import opened Prelude
  import opened Wire

  const MAX_DEPTH: nat := 16           // IG_PA_MAX_DEPTH and MaxProcessChainDepth

  // ----- what the collector hands on ----------------------------------------------------

  datatype ProcessInfo = ProcessInfo(
    pid: Word32, ppid: Word32, uid: Word32, euid: Word32, sid: Word32, startTimeNs: Word64,
    comm: Text, tty: Text, exe: Text, cmdline: Text)

  datatype ProcessChain = ProcessChain(depth: Byte, truncated: bool, entries: seq<ProcessInfo>)

  datatype FileEvent = FileEvent(
    agentId: Word64, eventType: Byte, filePath: Text, fileName: Text, filePermission: Word16,
    detectedBy: Byte, pid: Word32, timestamp: Word32, targetDev: Word64, targetIno: Word64,
    blocked: bool, uid: Word32, sid: Word32, comm: Text, chain: ProcessChain)

  // ----- the layout of a FILE_EVENT ----------------------------------------------------------

  function Head(): seq<Kind> {
    [K64, K8, KText, KText, K16, K8, K32, K32, K64, K64, K8, K32, K32, KText, K8, K8]
  }

  function Entry(): seq<Kind> {
    [K32, K32, K32, K32, K32, K64, KText, KText, KText, KText]
  }

  lemma HeadFields()
    ensures |Head()| == 16
    ensures var h := Head();
      && h[0] == K64 && h[1] == K8 && h[2] == KText && h[3] == KText && h[4] == K16 && h[5] == K8
      && h[6] == K32 && h[7] == K32 && h[8] == K64 && h[9] == K64 && h[10] == K8 && h[11] == K32
      && h[12] == K32 && h[13] == KText && h[14] == K8 && h[15] == K8
  {
  }

  lemma EntryFields()
    ensures |Entry()| == 10
    ensures var e := Entry();
      && e[0] == K32 && e[1] == K32 && e[2] == K32 && e[3] == K32 && e[4] == K32
      && e[5] == K64 && e[6] == KText && e[7] == KText && e[8] == KText && e[9] == KText
  {
  }

  function InfoValues(e: ProcessInfo): seq<Value> {
    [U32(e.pid), U32(e.ppid), U32(e.uid), U32(e.euid), U32(e.sid), U64(e.startTimeNs),
     Str(e.comm), Str(e.tty), Str(e.exe), Str(e.cmdline)]
  }

  function InfoOf(vs: seq<Value>): (e: ProcessInfo)
    requires Kinds(vs) == Entry()
    ensures InfoValues(e) == vs
  {
    KindsAt(vs, Entry());
    ProcessInfo(vs[0].w, vs[1].w, vs[2].w, vs[3].w, vs[4].w, vs[5].d, vs[6].s, vs[7].s, vs[8].s, vs[9].s)
  }

  function EntriesBytes(es: seq<ProcessInfo>): Bytes {
    if es == [] then [] else EntriesBytes(es[..|es| - 1]) + Layout(InfoValues(es[|es| - 1]))
  }

  // The blocked and truncated flags are bytes on the wire.
  function HeadValues(m: FileEvent, blocked: Byte, truncated: Byte): seq<Value> {
    [U64(m.agentId), U8(m.eventType), Str(m.filePath), Str(m.fileName), U16(m.filePermission),
     U8(m.detectedBy), U32(m.pid), U32(m.timestamp), U64(m.targetDev), U64(m.targetIno),
     U8(blocked), U32(m.uid), U32(m.sid), Str(m.comm), U8(m.chain.depth), U8(truncated)]
  }

  function FileEventBytes(m: FileEvent, blocked: Byte, truncated: Byte): Bytes {
    Layout(HeadValues(m, blocked, truncated)) + EntriesBytes(m.chain.entries)
  }

  function EventOf(vs: seq<Value>, entries: seq<ProcessInfo>): FileEvent
    requires Kinds(vs) == Head()
  {
    KindsAt(vs, Head());
    FileEvent(vs[0].d, vs[1].b, vs[2].s, vs[3].s, vs[4].h, vs[5].b, vs[6].w, vs[7].w, vs[8].d, vs[9].d,
              vs[10].b != 0, vs[11].w, vs[12].w, vs[13].s, ProcessChain(vs[14].b, vs[15].b != 0, entries))
  }

  lemma EventOfValues(vs: seq<Value>, entries: seq<ProcessInfo>)
    requires Kinds(vs) == Head()
    ensures |vs| == |Head()| && vs[10].U8? && vs[15].U8?
    ensures HeadValues(EventOf(vs, entries), vs[10].b, vs[15].b) == vs
  {
    hide Kinds;
    KindsAt(vs, Head());
  }

  lemma KindsAt(vs: seq<Value>, kinds: seq<Kind>)
    requires Kinds(vs) == kinds
    ensures |vs| == |kinds| && forall i :: 0 <= i < |vs| ==> KindOf(vs[i]) == kinds[i]
  {
  }

  // ----- sizes, as the encoder computes them before it writes ------------------------------------

  function Size(v: Value): nat {
    match v
    case U8(_) => 1
    case U16(_) => 2
    case U32(_) => 4
    case U64(_) => 8
    case Str(s) => 2 + |s|
  }

  lemma LayoutTake(vs: seq<Value>, k: nat)
    requires k < |vs|
    ensures |Layout(vs[..k + 1])| == |Layout(vs[..k])| + Size(vs[k])
  {
    assert vs[..k + 1] == vs[..k] + [vs[k]];
    LayoutSnoc(vs[..k], vs[k]);
  }

  lemma InfoSize(e: ProcessInfo)
    ensures |Layout(InfoValues(e))| == 28 + 8 + |e.comm| + |e.tty| + |e.exe| + |e.cmdline|
  {
    hide Layout;
    var vs := InfoValues(e);
    LayoutNone();
    assert vs[..0] == [];
    LayoutTake(vs, 0); LayoutTake(vs, 1); LayoutTake(vs, 2); LayoutTake(vs, 3); LayoutTake(vs, 4);
    LayoutTake(vs, 5); LayoutTake(vs, 6); LayoutTake(vs, 7); LayoutTake(vs, 8); LayoutTake(vs, 9);
    assert vs[..10] == vs;
  }

  lemma LayoutNone()
    ensures Layout([]) == []
  {
  }

  lemma HeadSize(m: FileEvent, blocked: Byte, truncated: Byte)
    ensures |Layout(HeadValues(m, blocked, truncated))| == 53 + |m.filePath| + |m.fileName| + |m.comm|
  {
    hide Layout;
    var vs := HeadValues(m, blocked, truncated);
    LayoutNone();
    assert vs[..0] == [];
    LayoutTake(vs, 0); LayoutTake(vs, 1); LayoutTake(vs, 2); LayoutTake(vs, 3);
    LayoutTake(vs, 4); LayoutTake(vs, 5); LayoutTake(vs, 6); LayoutTake(vs, 7);
    LayoutTake(vs, 8); LayoutTake(vs, 9); LayoutTake(vs, 10); LayoutTake(vs, 11);
    LayoutTake(vs, 12); LayoutTake(vs, 13); LayoutTake(vs, 14); LayoutTake(vs, 15);
    assert vs[..16] == vs;
  }

  // ----- the bytes themselves ----------------------------------------------------------------

  lemma LayoutFirst(vs: seq<Value>)
    requires vs != []
    ensures Layout(vs[..1]) == Encoded(vs[0])
  {
    hide Encoded, Layout;
    assert vs[..1] == [] + [vs[0]];
    LayoutNone();
    LayoutSnoc([], vs[0]);
    assert [] + Encoded(vs[0]) == Encoded(vs[0]);
  }

  lemma LayoutNext(vs: seq<Value>, k: nat)
    requires k < |vs|
    ensures Layout(vs[..k + 1]) == Layout(vs[..k]) + Encoded(vs[k])
  {
    assert vs[..k + 1] == vs[..k] + [vs[k]];
    LayoutSnoc(vs[..k], vs[k]);
  }

  // A chain entry on the wire.
  lemma EntryLayout(e: ProcessInfo)
    ensures Layout(InfoValues(e)) ==
      Bytes32(e.pid) + Bytes32(e.ppid) + Bytes32(e.uid) + Bytes32(e.euid) + Bytes32(e.sid) + Bytes64(e.startTimeNs)
      + (Bytes16(|e.comm|) + e.comm) + (Bytes16(|e.tty|) + e.tty)
      + (Bytes16(|e.exe|) + e.exe) + (Bytes16(|e.cmdline|) + e.cmdline)
  {
    hide Layout, Bytes16, Bytes32, Bytes64;
    var vs := InfoValues(e);
    LayoutFirst(vs);
    LayoutNext(vs, 1); LayoutNext(vs, 2); LayoutNext(vs, 3); LayoutNext(vs, 4); LayoutNext(vs, 5);
    LayoutNext(vs, 6); LayoutNext(vs, 7); LayoutNext(vs, 8); LayoutNext(vs, 9);
    assert vs[..10] == vs;
  }

  // The fixed part of a FILE_EVENT on the wire.
  lemma HeadLayout(m: FileEvent, blocked: Byte, truncated: Byte)
    ensures Layout(HeadValues(m, blocked, truncated)) ==
      Bytes64(m.agentId) + [m.eventType] + (Bytes16(|m.filePath|) + m.filePath) + (Bytes16(|m.fileName|) + m.fileName)
      + Bytes16(m.filePermission) + [m.detectedBy] + Bytes32(m.pid) + Bytes32(m.timestamp)
      + Bytes64(m.targetDev) + Bytes64(m.targetIno) + [blocked] + Bytes32(m.uid) + Bytes32(m.sid)
      + (Bytes16(|m.comm|) + m.comm) + [m.chain.depth] + [truncated]
  {
    hide Layout, Bytes16, Bytes32, Bytes64;
    var vs := HeadValues(m, blocked, truncated);
    LayoutFirst(vs);
    LayoutNext(vs, 1); LayoutNext(vs, 2); LayoutNext(vs, 3); LayoutNext(vs, 4); LayoutNext(vs, 5);
    LayoutNext(vs, 6); LayoutNext(vs, 7); LayoutNext(vs, 8); LayoutNext(vs, 9); LayoutNext(vs, 10);
    LayoutNext(vs, 11); LayoutNext(vs, 12); LayoutNext(vs, 13); LayoutNext(vs, 14); LayoutNext(vs, 15);
    assert vs[..16] == vs;
  }

  // The entries follow the fixed part, in order.
  lemma {:induction false} EntriesInOrder(es: seq<ProcessInfo>, rest: seq<ProcessInfo>)
    ensures EntriesBytes(es + rest) == EntriesBytes(es) + EntriesBytes(rest)
    ensures |rest| == 1 ==> EntriesBytes(rest) == Layout(InfoValues(rest[0]))
    decreases |rest|
  {
    hide Layout, InfoValues;
    if rest == [] {
      assert es + rest == es;
    } else {
      var front, last := rest[..|rest| - 1], rest[|rest| - 1];
      assert es + rest == (es + front) + [last] && rest == front + [last];
      EntriesInOrder(es, front);
      EntriesSnoc(es + front, last);
      EntriesSnoc(front, last);
    }
  }

  // ----- DecodeFileEvent ------------------------------------------------------------------------

  datatype EntriesAt = EntriesAt(entries: seq<ProcessInfo>, pos: nat)

  function Entries(n: nat, data: Bytes, pos: nat): (r: Option<EntriesAt>)
    requires pos <= |data|
    ensures r.Some? ==> r.value.pos <= |data| && |r.value.entries| == n
  {
    if n == 0 then Some(EntriesAt([], pos))
    else
      match Entries(n - 1, data, pos)
      case None => None
      case Some(before) =>
        match Parse(Entry(), data, before.pos)
        case None => None
        case Some(e) => Some(EntriesAt(before.entries + [InfoOf(e.values)], e.pos))
  }

  function Decoded(data: Bytes): Option<FileEvent> {
    if |data| < 24 then None
    else
      match Parse(Head(), data, 0)
      case None => None
      case Some(head) =>
        KindsAt(head.values, Head());
        var depth := head.values[14].b;
        if depth > MAX_DEPTH then None
        else
          match Entries(depth, data, head.pos)
          case None => None
          case Some(chain) => if chain.pos != |data| then None else Some(EventOf(head.values, chain.entries))
  }

  lemma EntriesSnoc(es: seq<ProcessInfo>, e: ProcessInfo)
    ensures EntriesBytes(es + [e]) == EntriesBytes(es) + Layout(InfoValues(e))
  {
    assert (es + [e])[..|es|] == es;
  }

  lemma {:induction false} EntriesSound(n: nat, data: Bytes, pos: nat)
    requires pos <= |data| && Entries(n, data, pos).Some?
    ensures var r := Entries(n, data, pos).value;
      At(data, pos, EntriesBytes(r.entries)) && r.pos == pos + |EntriesBytes(r.entries)|
  {
    hide Parse, Layout, At, InfoValues, Kinds;
    if n == 0 {
      AtNothing(data, pos);
    } else {
      EntriesSound(n - 1, data, pos);
      var before := Entries(n - 1, data, pos).value;
      ParseSound(Entry(), data, before.pos);
      var e := InfoOf(Parse(Entry(), data, before.pos).value.values);
      EntriesSnoc(before.entries, e);
      AtSplit(data, pos, EntriesBytes(before.entries), Layout(InfoValues(e)));
    }
  }

  lemma InfoRoundTrip(e: ProcessInfo)
    ensures Kinds(InfoValues(e)) == Entry() && InfoOf(InfoValues(e)) == e
  {
    assert Kinds(InfoValues(e)) == Entry();
  }

  lemma {:induction false} EntriesComplete(es: seq<ProcessInfo>, data: Bytes, pos: nat)
    requires pos <= |data| && At(data, pos, EntriesBytes(es))
    ensures Entries(|es|, data, pos) == Some(EntriesAt(es, pos + |EntriesBytes(es)|))
  {
    hide Parse, Layout, InfoValues, Kinds;
    if es != [] {
      var front, last := es[..|es| - 1], es[|es| - 1];
      assert es == front + [last];
      AtSplit(data, pos, EntriesBytes(front), Layout(InfoValues(last)));
      EntriesComplete(front, data, pos);
      InfoRoundTrip(last);
      ParseComplete(InfoValues(last), data, pos + |EntriesBytes(front)|);
    }
  }

  lemma HeadKinds(m: FileEvent, blocked: Byte, truncated: Byte)
    ensures Kinds(HeadValues(m, blocked, truncated)) == Head()
  {
  }

  // How the decoder fares on any bytes that start like an encoding.
  lemma DecodeFrom(m: FileEvent, blocked: Byte, truncated: Byte, data: Bytes)
    requires FileEventBytes(m, blocked, truncated) <= data && |m.chain.entries| <= MAX_DEPTH
    requires m.chain.depth <= MAX_DEPTH ==> m.chain.depth == |m.chain.entries|
    ensures Decoded(data) ==
      if m.chain.depth > MAX_DEPTH || data != FileEventBytes(m, blocked, truncated) then None
      else Some(m.(blocked := blocked != 0, chain := m.chain.(truncated := truncated != 0)))
  {
    hide Parse, Layout, Kinds, EntriesBytes, Head, Entries;
    var vs := HeadValues(m, blocked, truncated);
    var head, rest := Layout(vs), EntriesBytes(m.chain.entries);
    HeadSize(m, blocked, truncated);
    HeadKinds(m, blocked, truncated);
    assert At(data, 0, head + rest);
    AtSplit(data, 0, head, rest);
    ParseComplete(vs, data, 0);
    if m.chain.depth <= MAX_DEPTH {
      EntriesComplete(m.chain.entries, data, |head|);
    }
  }

  // The collector accepts exactly the encodings of events whose chain has the
  // stated depth of at most 16, and returns the event encoded. The two flags may
  // be any byte that is zero for false and non-zero for true.
  lemma DecodedExact(data: Bytes, m: FileEvent)
    ensures Decoded(data) == Some(m) <==>
      && m.chain.depth == |m.chain.entries| <= MAX_DEPTH
      && exists blocked: Byte, truncated: Byte ::
           && (blocked != 0 <==> m.blocked) && (truncated != 0 <==> m.chain.truncated)
           && data == FileEventBytes(m, blocked, truncated)
  {
    if Decoded(data) == Some(m) {
      DecodedSound(data);
    }
    if m.chain.depth == |m.chain.entries| <= MAX_DEPTH {
      forall blocked: Byte, truncated: Byte |
        (blocked != 0 <==> m.blocked) && (truncated != 0 <==> m.chain.truncated) && data == FileEventBytes(m, blocked, truncated)
        ensures Decoded(data) == Some(m)
      {
        DecodeFrom(m, blocked, truncated, data);
      }
    }
  }

  lemma DecodedSound(data: Bytes)
    requires Decoded(data).Some?
    ensures var m, vs := Decoded(data).value, Parse(Head(), data, 0).value.values;
      && |vs| == |Head()| && vs[10].U8? && vs[15].U8?
      && m.chain.depth == |m.chain.entries| <= MAX_DEPTH
      && (vs[10].b != 0 <==> m.blocked) && (vs[15].b != 0 <==> m.chain.truncated)
      && data == FileEventBytes(m, vs[10].b, vs[15].b)
  {
    hide Parse, Layout, EntriesBytes, Kinds, Entries;
    var head := Parse(Head(), data, 0).value;
    ParseSound(Head(), data, 0);
    EventOfValues(head.values, []);
    EntriesSound(head.values[14].b, data, head.pos);
    EventOfValues(head.values, Entries(head.values[14].b, data, head.pos).value.entries);
    assert data == data[..head.pos] + data[head.pos..];
  }

  // No accepted payload is a proper prefix, or an extension, of another one.
  lemma PrefixFree(short: Bytes, long: Bytes)
    requires short <= long && Decoded(short).Some? && Decoded(long).Some?
    ensures short == long
  {
    DecodedSound(short);
    var m, vs := Decoded(short).value, Parse(Head(), short, 0).value.values;
    DecodeFrom(m, vs[10].b, vs[15].b, long);
  }

  lemma InfoRead(got: seq<Value>, e: ProcessInfo)
    requires |got| == 10
    requires got[0] == U32(e.pid) && got[1] == U32(e.ppid) && got[2] == U32(e.uid) && got[3] == U32(e.euid)
    requires got[4] == U32(e.sid) && got[5] == U64(e.startTimeNs) && got[6] == Str(e.comm)
    requires got[7] == Str(e.tty) && got[8] == Str(e.exe) && got[9] == Str(e.cmdline)
    ensures Kinds(got) == Entry() && InfoOf(got) == e
  {
    assert got == InfoValues(e);
    InfoRoundTrip(e);
  }

  lemma HeadRead(got: seq<Value>, m: FileEvent, blocked: Byte, truncated: Byte)
    requires |got| == 16
    requires got[0] == U64(m.agentId) && got[1] == U8(m.eventType) && got[2] == Str(m.filePath) && got[3] == Str(m.fileName)
    requires got[4] == U16(m.filePermission) && got[5] == U8(m.detectedBy) && got[6] == U32(m.pid) && got[7] == U32(m.timestamp)
    requires got[8] == U64(m.targetDev) && got[9] == U64(m.targetIno) && got[10] == U8(blocked) && got[11] == U32(m.uid)
    requires got[12] == U32(m.sid) && got[13] == Str(m.comm) && got[14] == U8(m.chain.depth) && got[15] == U8(truncated)
    requires (blocked != 0 <==> m.blocked) && (truncated != 0 <==> m.chain.truncated)
    ensures Kinds(got) == Head() && EventOf(got, m.chain.entries) == m
  {
    assert got == HeadValues(m, blocked, truncated);
    HeadKinds(m, blocked, truncated);
  }

  // entry by entry, failing at the first one that does not decode
  method DecodeProcessInfo(r: BinReader) returns (e: Option<ProcessInfo>)
    requires r.pos <= |r.data|
    modifies r
    ensures match Parse(Entry(), r.data, old(r.pos))
      case None => e == None
      case Some(parsed) => e == Some(InfoOf(parsed.values)) && r.pos == parsed.pos
    ensures r.pos <= |r.data|
  {
    hide Parse, Kinds, Entry, InfoOf, InfoValues, BinReader.On;
    EntryFields();
    r.Restart();
    var pid := r.ReadU32(Entry());
    if pid.None? { return None; }
    var ppid := r.ReadU32(Entry());
    if ppid.None? { return None; }
    var uid := r.ReadU32(Entry());
    if uid.None? { return None; }
    var euid := r.ReadU32(Entry());
    if euid.None? { return None; }
    var sid := r.ReadU32(Entry());
    if sid.None? { return None; }
    var startTimeNs := r.ReadU64(Entry());
    if startTimeNs.None? { return None; }
    var comm := r.ReadStr(Entry());
    if comm.None? { return None; }
    var tty := r.ReadStr(Entry());
    if tty.None? { return None; }
    var exe := r.ReadStr(Entry());
    if exe.None? { return None; }
    var cmdline := r.ReadStr(Entry());
    if cmdline.None? { return None; }
    e := Some(ProcessInfo(pid.value, ppid.value, uid.value, euid.value, sid.value, startTimeNs.value,
                          comm.value, tty.value, exe.value, cmdline.value));
    r.Finish(Entry());
    InfoRead(r.got, e.value);
  }

  // the loop over the chain entries
  method DecodeChain(r: BinReader, depth: nat) returns (entries: Option<seq<ProcessInfo>>)
    requires r.pos <= |r.data|
    modifies r
    ensures match Entries(depth, r.data, old(r.pos))
      case None => entries == None
      case Some(chain) => entries == Some(chain.entries) && r.pos == chain.pos
    ensures r.pos <= |r.data|
  {
    hide Parse, Kinds, Entries, InfoOf, BinReader.On;
    var es := [];
    ghost var start := r.pos;
    EntriesNone(r.data, start);
    for i := 0 to depth
      invariant r.pos <= |r.data|
      invariant Entries(i, r.data, start) == Some(EntriesAt(es, r.pos))
    {
      EntriesNext(i, r.data, start);
      var e := DecodeProcessInfo(r);
      if e.None? {
        EntriesFailOn(depth, r.data, start, i + 1);
        return None;
      }
      es := es + [e.value];
    }
    entries := Some(es);
  }

  datatype Base = Base(agentId: Word64, eventType: Byte, filePath: Text, fileName: Text,
                       filePermission: Word16, detectedBy: Byte, pid: Word32, timestamp: Word32)

  // the first eight fields of DecodeFileEvent
  method DecodeBase(r: BinReader) returns (base: Option<Base>)
    requires r.On(Head()) && |r.got| == 0
    modifies r
    ensures r.start == old(r.start) && r.pos <= |r.data|
    ensures base.None? ==> Parse(Head(), r.data, r.start) == None
    ensures base.Some? ==>
      && r.On(Head()) && |r.got| == 8
      && r.got[0] == U64(base.value.agentId) && r.got[1] == U8(base.value.eventType)
      && r.got[2] == Str(base.value.filePath) && r.got[3] == Str(base.value.fileName)
      && r.got[4] == U16(base.value.filePermission) && r.got[5] == U8(base.value.detectedBy)
      && r.got[6] == U32(base.value.pid) && r.got[7] == U32(base.value.timestamp)
  {
    hide Parse, Head, BinReader.On;
    HeadFields();
    var agentId := r.ReadU64(Head());
    if agentId.None? { return None; }
    var eventType := r.ReadU8(Head());
    if eventType.None? { return None; }
    var filePath := r.ReadStr(Head());
    if filePath.None? { return None; }
    var fileName := r.ReadStr(Head());
    if fileName.None? { return None; }
    var perm := r.ReadU16(Head());
    if perm.None? { return None; }
    var detectedBy := r.ReadU8(Head());
    if detectedBy.None? { return None; }
    var pid := r.ReadU32(Head());
    if pid.None? { return None; }
    var timestamp := r.ReadU32(Head());
    if timestamp.None? { return None; }
    base := Some(Base(agentId.value, eventType.value, filePath.value, fileName.value,
                      perm.value, detectedBy.value, pid.value, timestamp.value));
  }

  datatype Actor = Actor(targetDev: Word64, targetIno: Word64, blocked: Byte, uid: Word32, sid: Word32,
                         comm: Text, depth: Byte, truncated: Byte)

  // the next eight; the depth is checked before the last of them is read
  method DecodeActor(r: BinReader) returns (actor: Option<Actor>)
    requires r.On(Head()) && |r.got| == 8 && r.start == 0 && |r.data| >= 24
    modifies r
    ensures r.start == old(r.start) && r.pos <= |r.data|
    ensures actor.None? ==> Decoded(r.data) == None
    ensures actor.Some? ==>
      && r.On(Head()) && |r.got| == 16 && (forall i :: 0 <= i < 8 ==> r.got[i] == old(r.got)[i])
      && r.got[8] == U64(actor.value.targetDev) && r.got[9] == U64(actor.value.targetIno)
      && r.got[10] == U8(actor.value.blocked) && r.got[11] == U32(actor.value.uid)
      && r.got[12] == U32(actor.value.sid) && r.got[13] == Str(actor.value.comm)
      && r.got[14] == U8(actor.value.depth) && r.got[15] == U8(actor.value.truncated)
      && actor.value.depth <= MAX_DEPTH
  {
    hide Parse, Head, BinReader.On, Decoded;
    HeadFields();
    HeadFails(r.data);
    var targetDev := r.ReadU64(Head());
    if targetDev.None? { return None; }
    var targetIno := r.ReadU64(Head());
    if targetIno.None? { return None; }
    var blocked := r.ReadU8(Head());
    if blocked.None? { return None; }
    var uid := r.ReadU32(Head());
    if uid.None? { return None; }
    var sid := r.ReadU32(Head());
    if sid.None? { return None; }
    var comm := r.ReadStr(Head());
    if comm.None? { return None; }
    var depth := r.ReadU8(Head());
    if depth.None? { return None; }
    if depth.value > MAX_DEPTH {
      r.SoFar(Head());
      DepthRead(r.data, r.got);
      return None;
    }
    var truncated := r.ReadU8(Head());
    if truncated.None? { return None; }
    actor := Some(Actor(targetDev.value, targetIno.value, blocked.value, uid.value, sid.value,
                        comm.value, depth.value, truncated.value));
  }

  lemma HeadFails(data: Bytes)
    ensures Parse(Head(), data, 0) == None ==> Decoded(data) == None
  {
  }

  method DecodeFileEvent(data: Bytes) returns (m: Option<FileEvent>)
    ensures m == Decoded(data)
  {
    hide Parse, Kinds, Entries, EventOf, Head, BinReader.On;
    HeadFields();
    if |data| < 24 { return None; }
    var r := new BinReader(data);
    r.Restart();
    var base := DecodeBase(r);
    if base.None? { return None; }
    var actor := DecodeActor(r);
    if actor.None? { return None; }
    var b, a := base.value, actor.value;
    r.Finish(Head());
    ghost var vs := r.got;
    var entries := DecodeChain(r, a.depth as int);
    if entries.Some? {
      m := Some(FileEvent(b.agentId, b.eventType, b.filePath, b.fileName, b.filePermission, b.detectedBy, b.pid,
                          b.timestamp, a.targetDev, a.targetIno, a.blocked != 0, a.uid, a.sid, a.comm,
                          ProcessChain(a.depth, a.truncated != 0, entries.value)));
      HeadRead(vs, m.value, a.blocked, a.truncated);
    }
    if entries.None? || |data| - r.pos != 0 { return None; }
  }

  lemma EntriesNone(data: Bytes, pos: nat)
    requires pos <= |data|
    ensures Entries(0, data, pos) == Some(EntriesAt([], pos))
  {
  }

  lemma EntriesNext(n: nat, data: Bytes, pos: nat)
    requires pos <= |data| && Entries(n, data, pos).Some?
    ensures var before := Entries(n, data, pos).value;
      Entries(n + 1, data, pos) == match Parse(Entry(), data, before.pos)
        case None => None
        case Some(e) => Some(EntriesAt(before.entries + [InfoOf(e.values)], e.pos))
  {
  }

  lemma {:induction false} EntriesFailOn(n: nat, data: Bytes, pos: nat, k: nat)
    requires pos <= |data| && k <= n && Entries(k, data, pos).None?
    ensures Entries(n, data, pos).None?
  {
    hide Parse, InfoOf, Entry, Kinds;
    if k < n { EntriesFailOn(n - 1, data, pos, k); }
  }

  // The decoder may reject on the depth before it has seen the rest of the head.
  lemma DepthRead(data: Bytes, got: seq<Value>)
    requires |data| >= 24 && |got| == 15 && got[14].U8? && got[14].b > MAX_DEPTH
    requires Parse(Head()[..15], data, 0).Some? && Parse(Head()[..15], data, 0).value.values == got
    ensures Decoded(data) == None
  {
    hide Kinds, Entries, Read;
    assert Head()[..|Head()| - 1] == Head()[..15];
  }
}
