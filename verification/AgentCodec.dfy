// The agent's C encoders for FILE_EVENT, REGISTER and HEARTBEAT, proved against the layout
// the collector's decoders are proved against, and what follows for the two
// together.

module AgentCodec {
  import opened Prelude
  import opened Wire
  import opened Messages

  const MAX_PAYLOAD: nat := 65526      // IG_MAX_PAYLOAD: 65535 less the 9 header bytes
  const PATH_MAX: nat := 4096
  const COMM_LEN: nat := 16
  const TTY_LEN: nat := 32
  const EXE_LEN: nat := 256
  const CMDLINE_LEN: nat := 512
  const FILENAME_LEN: nat := 256

  type Int32 = x: int | -0x8000_0000 <= x < 0x8000_0000

  // a conversion to uint32_t
  function Unsigned32(x: int): Word32 {
    x % 0x1_0000_0000
  }

  // strnlen over a whole char array, and the string it delimits
  function StrNLen(s: Bytes): (n: nat)
    ensures n <= |s|
    ensures forall k :: 0 <= k < n ==> s[k] != 0
    ensures n < |s| ==> s[n] == 0
  {
    if s == [] || s[0] == 0 then 0 else 1 + StrNLen(s[1..])
  }

  function StrN(s: Bytes): (r: Bytes)
    ensures CText(r, s)
  {
    s[..StrNLen(s)]
  }

  // the text a char array holds: what stands in front of its first NUL
  predicate CText(text: Bytes, chars: Bytes) {
    text <= chars && 0 !in text && (|text| < |chars| ==> chars[|text|] == 0)
  }

  // ig_proc_info_t; the strings are the whole char arrays
  datatype CInfo = CInfo(
    pid: Int32, ppid: Int32, uid: Word32, euid: Word32, sid: Int32,
    tty: Bytes, comm: Bytes, exe: Bytes, cmdline: Bytes, startTimeNs: Word64)

  predicate WellSized(e: CInfo) {
    |e.tty| == TTY_LEN && |e.comm| == COMM_LEN && |e.exe| == EXE_LEN && |e.cmdline| == CMDLINE_LEN
  }

  type Info = e: CInfo | WellSized(e)
    witness CInfo(0, 0, 0, 0, 0, seq(TTY_LEN, _ => 0), seq(COMM_LEN, _ => 0), seq(EXE_LEN, _ => 0), seq(CMDLINE_LEN, _ => 0), 0)

  // ig_pid_chain_t: a depth, which nothing but its type bounds, and 16 entries
  datatype CChain = CChain(depth: Int32, truncated: Int32, chain: seq<Info>)

  type PidChain = c: CChain | |c.chain| == MAX_DEPTH
    witness CChain(0, 0, seq(MAX_DEPTH, _ =>
      CInfo(0, 0, 0, 0, 0, seq(TTY_LEN, _ => 0), seq(COMM_LEN, _ => 0), seq(EXE_LEN, _ => 0), seq(CMDLINE_LEN, _ => 0), 0)))

  // ig_msg_file_event_t
  datatype CMessage = CMessage(
    agentId: Word64, eventType: Byte, filePath: Text, fileName: Text, filePermission: Word16,
    detectedBy: Byte, pid: Word32, timestamp: Word32, targetDev: Word64, targetIno: Word64,
    blocked: Byte, uid: Word32, sid: Word32, comm: Text, chain: Option<PidChain>)

  // ----- what an encoding says -----------------------------------------------------------

  function Sent(e: Info): ProcessInfo {
    ProcessInfo(Unsigned32(e.pid), Unsigned32(e.ppid), e.uid, e.euid, Unsigned32(e.sid), e.startTimeNs,
                StrN(e.comm), StrN(e.tty), StrN(e.exe), StrN(e.cmdline))
  }

  // the depth byte: capped at 16, then converted to uint8_t
  function DepthByte(chain: Option<PidChain>): Byte {
    if chain.None? then 0
    else if chain.value.depth > MAX_DEPTH then MAX_DEPTH
    else chain.value.depth % 0x100
  }

  // a negative depth can make the byte larger than the array, where the loop stops
  function EntryCount(chain: Option<PidChain>): (n: nat)
    ensures n <= MAX_DEPTH && (chain.None? ==> n == 0)
  {
    if DepthByte(chain) < MAX_DEPTH then DepthByte(chain) else MAX_DEPTH
  }

  function SentEntries(chain: Option<PidChain>): seq<ProcessInfo> {
    seq(EntryCount(chain), i requires 0 <= i < EntryCount(chain) => Sent(chain.value.chain[i]))
  }

  // what the message tells the collector
  function SentEvent(msg: CMessage): FileEvent {
    FileEvent(msg.agentId, msg.eventType, msg.filePath, msg.fileName, msg.filePermission, msg.detectedBy,
              msg.pid, msg.timestamp, msg.targetDev, msg.targetIno, msg.blocked != 0, msg.uid, msg.sid, msg.comm,
              ProcessChain(DepthByte(msg.chain), msg.chain.Some? && msg.chain.value.truncated != 0, SentEntries(msg.chain)))
  }

  function TruncByte(msg: CMessage): Byte {
    if msg.chain.Some? && msg.chain.value.truncated != 0 then 1 else 0
  }

  function Encoding(msg: CMessage): Bytes {
    FileEventBytes(SentEvent(msg), msg.blocked, TruncByte(msg))
  }

  // ----- ig_file_event_encode ----------------------------------------------------------------

  // chain_entry_encode: the whole entry or nothing
  method ChainEntryEncode(e: Info, buf: array<Byte>, p: nat, ghost front: Bytes) returns (q: Option<nat>)
    requires p <= buf.Length && buf[..p] == front
    modifies buf
    ensures q.None? <==> p + |Layout(InfoValues(Sent(e)))| > buf.Length
    ensures q.None? ==> buf[..] == old(buf[..])
    ensures q.Some? ==> q.value == p + |Layout(InfoValues(Sent(e)))| <= buf.Length
    ensures q.Some? ==> buf[..q.value] == front + Layout(InfoValues(Sent(e)))
  {
    hide Layout, InfoValues, StrNLen;
    ghost var vs := InfoValues(Sent(e));
    InfoSize(Sent(e));
    InfoFields(Sent(e));
    LayoutNone();
    assert vs[..0] == [] && vs[..10] == vs;
    var commLen, ttyLen, exeLen, cmdLen := StrNLen(e.comm), StrNLen(e.tty), StrNLen(e.exe), StrNLen(e.cmdline);
    var need := 28 + 8 + commLen + ttyLen + exeLen + cmdLen;
    if buf.Length - p < need { return None; }
    var r := WriteU32(buf, p, Unsigned32(e.pid), front, vs, 0);
    r := WriteU32(buf, r, Unsigned32(e.ppid), front, vs, 1);
    r := WriteU32(buf, r, e.uid, front, vs, 2);
    r := WriteU32(buf, r, e.euid, front, vs, 3);
    r := WriteU32(buf, r, Unsigned32(e.sid), front, vs, 4);
    r := WriteU64(buf, r, e.startTimeNs, front, vs, 5);
    r := WriteStr(buf, r, e.comm[..commLen], front, vs, 6);
    r := WriteStr(buf, r, e.tty[..ttyLen], front, vs, 7);
    r := WriteStr(buf, r, e.exe[..exeLen], front, vs, 8);
    r := WriteStr(buf, r, e.cmdline[..cmdLen], front, vs, 9);
    q := Some(r);
  }

  lemma InfoFields(e: ProcessInfo)
    ensures |InfoValues(e)| == 10
    ensures var vs := InfoValues(e);
      && vs[0] == U32(e.pid) && vs[1] == U32(e.ppid) && vs[2] == U32(e.uid) && vs[3] == U32(e.euid)
      && vs[4] == U32(e.sid) && vs[5] == U64(e.startTimeNs) && vs[6] == Str(e.comm) && vs[7] == Str(e.tty)
      && vs[8] == Str(e.exe) && vs[9] == Str(e.cmdline)
  {
  }

  lemma EntriesTake(es: seq<ProcessInfo>, i: nat)
    requires i < |es|
    ensures EntriesBytes(es[..i + 1]) == EntriesBytes(es[..i]) + Layout(InfoValues(es[i]))
  {
    assert es[..i + 1] == es[..i] + [es[i]];
    EntriesSnoc(es[..i], es[i]);
  }

  lemma {:induction false} EntriesGrow(es: seq<ProcessInfo>, i: nat)
    requires i <= |es|
    ensures |EntriesBytes(es[..i])| <= |EntriesBytes(es)|
  {
    if i < |es| {
      assert es[..|es| - 1][..i] == es[..i];
      EntriesGrow(es[..|es| - 1], i);
    } else {
      assert es[..i] == es;
    }
  }

  // the fixed fields, once the check of the needed size has passed
  method EncodeHead(msg: CMessage, buf: array<Byte>) returns (p: nat)
    requires 53 + |msg.filePath| + |msg.fileName| + |msg.comm| <= buf.Length
    modifies buf
    ensures p == 53 + |msg.filePath| + |msg.fileName| + |msg.comm|
    ensures buf[..p] == Layout(HeadValues(SentEvent(msg), msg.blocked, TruncByte(msg)))
  {
    hide Layout, HeadValues, SentEvent, Sent, DepthByte, SentEntries;
    ghost var vs := HeadValues(SentEvent(msg), msg.blocked, TruncByte(msg));
    EventFields(msg);
    LayoutNone();
    assert vs[..0] == [] && vs[..16] == vs;
    assert buf[..0] == [] + [];
    p := WriteU64(buf, 0, msg.agentId, [], vs, 0);
    p := WriteU8(buf, p, msg.eventType, [], vs, 1);
    p := WriteStr(buf, p, msg.filePath, [], vs, 2);
    p := WriteStr(buf, p, msg.fileName, [], vs, 3);
    p := WriteU16(buf, p, msg.filePermission, [], vs, 4);
    p := WriteU8(buf, p, msg.detectedBy, [], vs, 5);
    p := WriteU32(buf, p, msg.pid, [], vs, 6);
    p := WriteU32(buf, p, msg.timestamp, [], vs, 7);
    p := WriteU64(buf, p, msg.targetDev, [], vs, 8);
    p := WriteU64(buf, p, msg.targetIno, [], vs, 9);
    p := WriteU8(buf, p, msg.blocked, [], vs, 10);
    p := WriteU32(buf, p, msg.uid, [], vs, 11);
    p := WriteU32(buf, p, msg.sid, [], vs, 12);
    p := WriteStr(buf, p, msg.comm, [], vs, 13);
    var depth: Byte, trunc: Byte := 0, 0;
    if msg.chain.Some? {
      var d := msg.chain.value.depth;
      depth := (if d > MAX_DEPTH then MAX_DEPTH else d) % 0x100;
      trunc := if msg.chain.value.truncated != 0 then 1 else 0;
    }
    DepthIs(msg, depth);
    p := WriteU8(buf, p, depth, [], vs, 14);
    p := WriteU8(buf, p, trunc, [], vs, 15);
    assert [] + Layout(vs) == Layout(vs);
  }

  lemma DepthIs(msg: CMessage, depth: Byte)
    requires msg.chain.None? ==> depth == 0
    requires msg.chain.Some? ==>
      depth == (if msg.chain.value.depth > MAX_DEPTH then MAX_DEPTH else msg.chain.value.depth) % 0x100
    ensures depth == DepthByte(msg.chain)
  {
  }

  lemma EventFields(msg: CMessage)
    ensures |HeadValues(SentEvent(msg), msg.blocked, TruncByte(msg))| == 16
    ensures var vs := HeadValues(SentEvent(msg), msg.blocked, TruncByte(msg));
      && vs[0] == U64(msg.agentId) && vs[1] == U8(msg.eventType) && vs[2] == Str(msg.filePath)
      && vs[3] == Str(msg.fileName) && vs[4] == U16(msg.filePermission) && vs[5] == U8(msg.detectedBy)
      && vs[6] == U32(msg.pid) && vs[7] == U32(msg.timestamp) && vs[8] == U64(msg.targetDev)
      && vs[9] == U64(msg.targetIno) && vs[10] == U8(msg.blocked) && vs[11] == U32(msg.uid)
      && vs[12] == U32(msg.sid) && vs[13] == Str(msg.comm) && vs[14] == U8(DepthByte(msg.chain))
      && vs[15] == U8(TruncByte(msg))
  {
  }

  // Returns the length of the encoding, or -1 exactly when the buffer is too small.
  method FileEventEncode(msg: CMessage, buf: array<Byte>) returns (n: int)
    modifies buf
    ensures n == if |Encoding(msg)| > buf.Length then -1 else |Encoding(msg)|
    ensures n >= 0 ==> buf[..n] == Encoding(msg)
  {
    hide Layout, HeadValues, InfoValues, Sent, EntriesBytes, DepthByte;
    ghost var es := SentEntries(msg.chain);
    ghost var head := Layout(HeadValues(SentEvent(msg), msg.blocked, TruncByte(msg)));
    HeadSize(SentEvent(msg), msg.blocked, TruncByte(msg));
    var needBase := 8 + 1 + 2 + |msg.filePath| + 2 + |msg.fileName| + 2 + 1 + 4 + 4;
    var needActor := 8 + 8 + 1 + 4 + 4 + 2 + |msg.comm|;
    var needChainMeta := 1 + 1;
    if needBase + needActor + needChainMeta > buf.Length { return -1; }
    var p: nat := EncodeHead(msg, buf);
    EntriesNothing(es);
    assert head + [] == head;
    if msg.chain.Some? {
      var i := 0;
      while i < EntryCount(msg.chain)
        invariant i <= EntryCount(msg.chain) && p <= buf.Length
        invariant buf[..p] == head + EntriesBytes(es[..i])
      {
        EntriesTake(es, i);
        EntriesGrow(es, i + 1);
        var q := ChainEntryEncode(msg.chain.value.chain[i], buf, p, buf[..p]);
        if q.None? { return -1; }
        p := q.value;
        assert buf[..p] == head + (EntriesBytes(es[..i]) + Layout(InfoValues(es[i])));
        i := i + 1;
      }
      assert es[..i] == es;
    } else {
      assert es == [];
    }
    n := p;
  }

  lemma EntriesNothing(es: seq<ProcessInfo>)
    ensures EntriesBytes([]) == [] && es[..0] == [] && EntriesBytes(es[..0]) == []
  {
  }

  // ----- encoder and decoder together -----------------------------------------------------------

  // The collector reads back exactly the message the agent encoded, for all
  // paths, names and chains; the one message it rejects is one whose depth is
  // negative and does not wrap to a depth byte of at most 16.
  lemma GoReadsBack(msg: CMessage)
    ensures Decoded(Encoding(msg)) == if DepthByte(msg.chain) <= MAX_DEPTH then Some(SentEvent(msg)) else None
  {
    hide DepthByte, SentEntries;
    SentDepth(msg);
    DecodeFrom(SentEvent(msg), msg.blocked, TruncByte(msg), Encoding(msg));
  }

  lemma SentDepth(msg: CMessage)
    ensures |SentEntries(msg.chain)| <= MAX_DEPTH
    ensures DepthByte(msg.chain) <= MAX_DEPTH ==> DepthByte(msg.chain) == |SentEntries(msg.chain)|
  {
  }

  lemma NonNegativeDepthIsRead(msg: CMessage)
    requires msg.chain.Some? ==> msg.chain.value.depth >= 0
    ensures Decoded(Encoding(msg)) == Some(SentEvent(msg))
    ensures msg.chain.Some? ==>
      |SentEvent(msg).chain.entries| == if msg.chain.value.depth > MAX_DEPTH then MAX_DEPTH else msg.chain.value.depth
  {
    hide Decoded, Encoding, Sent;
    GoReadsBack(msg);
    SentDepth(msg);
  }

  // A caller that passes the depth -1 has its message rejected. The agent's own
  // producers of chains never do: they count entries from 1 or copy a byte.
  lemma DepthMinusOneIsRejected(msg: CMessage)
    requires msg.chain.Some? && msg.chain.value.depth == -1
    ensures DepthByte(msg.chain) == 255 && Decoded(Encoding(msg)) == None
  {
    hide Decoded, Encoding;
    GoReadsBack(msg);
  }

  // What the collector reads, field by field: the fixed part ...
  lemma EventReadBack(msg: CMessage)
    requires msg.chain.Some? ==> msg.chain.value.depth >= 0
    ensures Decoded(Encoding(msg)).Some?
    ensures var e := Decoded(Encoding(msg)).value;
      && e.agentId == msg.agentId && e.eventType == msg.eventType && e.filePath == msg.filePath
      && e.fileName == msg.fileName && e.filePermission == msg.filePermission && e.detectedBy == msg.detectedBy
      && e.pid == msg.pid && e.timestamp == msg.timestamp && e.targetDev == msg.targetDev && e.targetIno == msg.targetIno
      && e.blocked == (msg.blocked != 0) && e.uid == msg.uid && e.sid == msg.sid && e.comm == msg.comm
      && e.chain.truncated == (msg.chain.Some? && msg.chain.value.truncated != 0)
      && e.chain.depth == |e.chain.entries|
      && |e.chain.entries| == if msg.chain.None? then 0 else if msg.chain.value.depth > 16 then 16 else msg.chain.value.depth
  {
    hide Decoded, Encoding, Sent;
    NonNegativeDepthIsRead(msg);
    SentDepth(msg);
  }

  // ... and every entry of the chain, each text from its own array.
  lemma EntryReadBack(msg: CMessage, i: nat)
    requires msg.chain.Some? && i < msg.chain.value.depth && i < 16
    ensures Decoded(Encoding(msg)).Some? && i < |Decoded(Encoding(msg)).value.chain.entries|
    ensures var e, c := Decoded(Encoding(msg)).value.chain.entries[i], msg.chain.value.chain[i];
      && e.pid == c.pid % 0x1_0000_0000 && e.ppid == c.ppid % 0x1_0000_0000 && e.uid == c.uid && e.euid == c.euid
      && e.sid == c.sid % 0x1_0000_0000 && e.startTimeNs == c.startTimeNs
      && CText(e.comm, c.comm) && CText(e.tty, c.tty) && CText(e.exe, c.exe) && CText(e.cmdline, c.cmdline)
  {
    hide Decoded, Encoding, StrN, CText;
    NonNegativeDepthIsRead(msg);
  }

  // A char array holds one text: all of it if it has no NUL, else what precedes
  // the first one.
  lemma CTextUnique(text: Bytes, chars: Bytes, a: Bytes, behind: Bytes)
    requires CText(text, chars) && 0 !in a && (chars == a || chars == a + [0] + behind)
    ensures text == a && CText(a, chars)
  {
    assert forall i :: 0 <= i < |a| ==> chars[i] == a[i];
    assert forall i :: 0 <= i < |text| ==> chars[i] == text[i];
    assert |a| < |chars| ==> chars[|a|] == 0;
    assert |a| <= |text| && |text| <= |a|;
  }

  // Cutting an encoding short or adding to it makes it unreadable.
  lemma OnlyWholeEncodings(msg: CMessage, data: Bytes)
    requires data != Encoding(msg) && (data <= Encoding(msg) || Encoding(msg) <= data)
    requires DepthByte(msg.chain) <= MAX_DEPTH
    ensures Decoded(data) == None
  {
    GoReadsBack(msg);
    if Decoded(data).Some? {
      if data <= Encoding(msg) { PrefixFree(data, Encoding(msg)); } else { PrefixFree(Encoding(msg), data); }
    }
  }

  // ----- events -----------------------------------------------------------------------------------

  // ig_event_t; the strings are the whole char arrays, path and filename terminated
  datatype Event = Event(
    kind: int, source: int, path: Bytes, filename: Bytes, timestamp: int, dev: Word64, ino: Word64,
    blocked: Int32, pid: Int32, uid: Word32, sid: Int32, comm: Bytes, chain: PidChain)

  predicate WellFormed(ev: Event) {
    && |ev.path| == PATH_MAX && 0 in ev.path
    && |ev.filename| == FILENAME_LEN && 0 in ev.filename
    && |ev.comm| == COMM_LEN
  }

  function MapEventType(kind: int): Byte {
    match kind
    case 0x01 => 1
    case 0x02 => 2
    case 0x04 => 3
    case 0x08 => 4
    case 0x10 => 5
    case _ => 2
  }

  function MapSource(source: int): Byte {
    match source
    case 1 => 3
    case 2 => 2
    case 3 => 4
    case _ => 0
  }

  function ToMessage(agentId: Word64, ev: Event): CMessage
    requires WellFormed(ev)
  {
    CMessage(agentId, MapEventType(ev.kind), StrN(ev.path), StrN(ev.filename), 0, MapSource(ev.source),
             Unsigned32(ev.pid), Unsigned32(ev.timestamp), ev.dev, ev.ino, if ev.blocked != 0 then 1 else 0,
             ev.uid, Unsigned32(ev.sid), StrN(ev.comm), Some(ev.chain))
  }

  lemma {:induction false} EntriesBound(chain: Option<PidChain>, i: nat)
    requires i <= EntryCount(chain)
    ensures |EntriesBytes(SentEntries(chain)[..i])| <= i * (36 + COMM_LEN + TTY_LEN + EXE_LEN + CMDLINE_LEN)
  {
    hide InfoValues, Layout, StrNLen, DepthByte;
    var es := SentEntries(chain);
    if i == 0 {
      EntriesNothing(es);
    } else {
      EntriesBound(chain, i - 1);
      EntriesTake(es, i - 1);
      InfoSize(es[i - 1]);
    }
  }

  // Any event fits the send buffer, so ig_tcp_send_event never fails to encode,
  // and with a non-negative depth the collector reads every event back.
  lemma EventFits(agentId: Word64, ev: Event)
    requires WellFormed(ev)
    ensures |Encoding(ToMessage(agentId, ev))| <= MAX_PAYLOAD
    ensures ev.chain.depth >= 0 ==>
      Decoded(Encoding(ToMessage(agentId, ev))) == Some(SentEvent(ToMessage(agentId, ev)))
  {
    hide EntriesBytes, Layout, HeadValues, InfoValues, Decoded;
    var msg := ToMessage(agentId, ev);
    var es := SentEntries(msg.chain);
    HeadSize(SentEvent(msg), msg.blocked, TruncByte(msg));
    EntriesBound(msg.chain, |es|);
    assert es[..|es|] == es;
    if ev.chain.depth >= 0 { NonNegativeDepthIsRead(msg); }
  }

  // What the collector reads of an event, field by field; its chain is read as
  // EntryReadBack says.
  lemma EventArrives(agentId: Word64, ev: Event)
    requires WellFormed(ev) && ev.chain.depth >= 0
    ensures var d := Decoded(Encoding(ToMessage(agentId, ev)));
      && d.Some?
      && d.value.agentId == agentId
      && CText(d.value.filePath, ev.path) && CText(d.value.fileName, ev.filename) && CText(d.value.comm, ev.comm)
      && d.value.filePermission == 0 && d.value.blocked == (ev.blocked != 0)
      && d.value.pid == ev.pid % 0x1_0000_0000 && d.value.timestamp == ev.timestamp % 0x1_0000_0000
      && d.value.targetDev == ev.dev && d.value.targetIno == ev.ino
      && d.value.uid == ev.uid && d.value.sid == ev.sid % 0x1_0000_0000
    ensures var d := Decoded(Encoding(ToMessage(agentId, ev)));
      && d.value.chain.truncated == (ev.chain.truncated != 0)
      && |d.value.chain.entries| == if ev.chain.depth > 16 then 16 else ev.chain.depth
    ensures var d := Decoded(Encoding(ToMessage(agentId, ev))).value;
      && (d.eventType == 1 <==> ev.kind == 0x01)
      && (d.eventType == 3 <==> ev.kind == 0x04)
      && (d.eventType == 4 <==> ev.kind == 0x08)
      && (d.eventType == 5 <==> ev.kind == 0x10)
      && (d.eventType == 2 <==> ev.kind !in {0x01, 0x04, 0x08, 0x10})
      && (d.detectedBy == 3 <==> ev.source == 1)
      && (d.detectedBy == 2 <==> ev.source == 2)
      && (d.detectedBy == 4 <==> ev.source == 3)
      && (d.detectedBy == 0 <==> ev.source !in {1, 2, 3})
    ensures ToMessage(agentId, ev).chain == Some(ev.chain)
  {
    hide Decoded, Encoding, CText, StrN;
    EventReadBack(ToMessage(agentId, ev));
  }

  // ----- REGISTER --------------------------------------------------------------------------------------

  datatype Register = Register(hostname: Text, ip: Word32, monitorType: Byte, os: Text)

  function RegisterKinds(): seq<Kind> {
    [KText, K32, K8, KText]
  }

  function RegisterValues(m: Register): seq<Value> {
    [Str(m.hostname), U32(m.ip), U8(m.monitorType), Str(m.os)]
  }

  function RegisterEncoding(m: Register): Bytes {
    Layout(RegisterValues(m))
  }

  lemma RegisterSize(m: Register)
    ensures |RegisterEncoding(m)| == 2 + |m.hostname| + 4 + 1 + 2 + |m.os|
  {
    hide Layout;
    var vs := RegisterValues(m);
    LayoutNone();
    assert vs[..0] == [] && vs[..4] == vs;
    LayoutTake(vs, 0); LayoutTake(vs, 1); LayoutTake(vs, 2); LayoutTake(vs, 3);
  }

  // A REGISTER payload on the wire.
  lemma RegisterLayout(m: Register)
    ensures RegisterEncoding(m) ==
      Bytes16(|m.hostname|) + m.hostname + Bytes32(m.ip) + [m.monitorType] + (Bytes16(|m.os|) + m.os)
  {
    hide Layout, Bytes16, Bytes32;
    var vs := RegisterValues(m);
    LayoutFirst(vs);
    LayoutNext(vs, 1); LayoutNext(vs, 2); LayoutNext(vs, 3);
    assert vs[..4] == vs;
  }

  // ig_register_encode
  method RegisterEncode(m: Register, buf: array<Byte>) returns (n: int)
    modifies buf
    ensures n == if |RegisterEncoding(m)| > buf.Length then -1 else |RegisterEncoding(m)|
    ensures n >= 0 ==> buf[..n] == RegisterEncoding(m)
  {
    hide Layout;
    ghost var vs := RegisterValues(m);
    RegisterSize(m);
    LayoutNone();
    assert vs[..0] == [] && vs[..4] == vs;
    var need := 2 + |m.hostname| + 4 + 1 + 2 + |m.os|;
    if need > buf.Length { return -1; }
    assert buf[..0] == [] + [];
    var p := WriteStr(buf, 0, m.hostname, [], vs, 0);
    p := WriteU32(buf, p, m.ip, [], vs, 1);
    p := WriteU8(buf, p, m.monitorType, [], vs, 2);
    p := WriteStr(buf, p, m.os, [], vs, 3);
    assert [] + Layout(vs) == Layout(vs);
    n := p;
  }

  function DecodedRegister(data: Bytes): Option<Register> {
    match Parse(RegisterKinds(), data, 0)
    case None => None
    case Some(p) =>
      KindsAt(p.values, RegisterKinds());
      Some(Register(p.values[0].s, p.values[1].w, p.values[2].b, p.values[3].s))
  }

  // DecodeRegister
  method DecodeRegister(data: Bytes) returns (m: Option<Register>)
    ensures m == DecodedRegister(data)
  {
    hide Parse, BinReader.On;
    var r := new BinReader(data);
    r.Restart();
    var hostname := r.ReadStr(RegisterKinds());
    if hostname.None? { return None; }
    var ip := r.ReadU32(RegisterKinds());
    if ip.None? { return None; }
    var monitorType := r.ReadU8(RegisterKinds());
    if monitorType.None? { return None; }
    var os := r.ReadStr(RegisterKinds());
    if os.None? { return None; }
    r.Finish(RegisterKinds());
    m := Some(Register(hostname.value, ip.value, monitorType.value, os.value));
  }

  // The collector accepts exactly the payloads that start with an encoding, and
  // returns what was encoded; unlike FILE_EVENT it does not mind trailing bytes.
  lemma RegisterExact(data: Bytes, m: Register)
    ensures DecodedRegister(data) == Some(m) <==> RegisterEncoding(m) <= data
  {
    hide Parse, Layout, Kinds;
    var vs := RegisterValues(m);
    assert Kinds(vs) == RegisterKinds();
    ParseExact(RegisterKinds(), data, 0, vs, |Layout(vs)|);
    assert At(data, 0, Layout(vs)) <==> Layout(vs) <= data;
    var p := Parse(RegisterKinds(), data, 0);
    if p.Some? {
      KindsAt(p.value.values, RegisterKinds());
      assert DecodedRegister(data) == Some(m) ==> p.value.values == vs;
      ParseExact(RegisterKinds(), data, 0, p.value.values, p.value.pos);
    }
  }

  // ----- HEARTBEAT ---------------------------------------------------------------------------------------

  const HEARTBEAT_SIZE: nat := 13

  datatype Heartbeat = Heartbeat(agentId: Word64, status: Byte, timestamp: Word32)

  function HeartbeatKinds(): seq<Kind> {
    [K64, K8, K32]
  }

  function HeartbeatValues(m: Heartbeat): seq<Value> {
    [U64(m.agentId), U8(m.status), U32(m.timestamp)]
  }

  function HeartbeatEncoding(m: Heartbeat): Bytes {
    Layout(HeartbeatValues(m))
  }

  lemma HeartbeatSize(m: Heartbeat)
    ensures |HeartbeatEncoding(m)| == HEARTBEAT_SIZE
  {
    hide Layout;
    var vs := HeartbeatValues(m);
    LayoutNone();
    assert vs[..0] == [] && vs[..3] == vs;
    LayoutTake(vs, 0); LayoutTake(vs, 1); LayoutTake(vs, 2);
  }

  // A HEARTBEAT payload on the wire.
  lemma HeartbeatLayout(m: Heartbeat)
    ensures HeartbeatEncoding(m) == Bytes64(m.agentId) + [m.status] + Bytes32(m.timestamp)
  {
    hide Layout, Bytes64, Bytes32;
    var vs := HeartbeatValues(m);
    LayoutFirst(vs);
    LayoutNext(vs, 1); LayoutNext(vs, 2);
    assert vs[..3] == vs;
  }

  // ig_heartbeat_encode
  method HeartbeatEncode(m: Heartbeat, buf: array<Byte>) returns (n: int)
    modifies buf
    ensures n == if buf.Length < HEARTBEAT_SIZE then -1 else HEARTBEAT_SIZE
    ensures n >= 0 ==> buf[..n] == HeartbeatEncoding(m)
  {
    hide Layout;
    if buf.Length < HEARTBEAT_SIZE { return -1; }
    ghost var vs := HeartbeatValues(m);
    LayoutNone();
    assert vs[..0] == [] && vs[..3] == vs && buf[..0] == [] + [];
    var p := WriteU64(buf, 0, m.agentId, [], vs, 0);
    p := WriteU8(buf, p, m.status, [], vs, 1);
    p := WriteU32(buf, p, m.timestamp, [], vs, 2);
    assert [] + Layout(vs) == Layout(vs);
    n := HEARTBEAT_SIZE;
  }

  function DecodedHeartbeat(data: Bytes): Option<Heartbeat> {
    match Parse(HeartbeatKinds(), data, 0)
    case None => None
    case Some(p) =>
      KindsAt(p.values, HeartbeatKinds());
      Some(Heartbeat(p.values[0].d, p.values[1].b, p.values[2].w))
  }

  // DecodeHeartbeat: the length is checked once, in front
  method DecodeHeartbeat(data: Bytes) returns (m: Option<Heartbeat>)
    ensures m == DecodedHeartbeat(data)
    ensures m.None? <==> |data| < HEARTBEAT_SIZE
  {
    hide Parse, BinReader.On;
    HeartbeatLength(data);
    if |data| < HEARTBEAT_SIZE { return None; }
    var r := new BinReader(data);
    r.Restart();
    var agentId := r.ReadU64(HeartbeatKinds());
    var status := r.ReadU8(HeartbeatKinds());
    var timestamp := r.ReadU32(HeartbeatKinds());
    r.Finish(HeartbeatKinds());
    m := Some(Heartbeat(agentId.value, status.value, timestamp.value));
  }

  lemma HeartbeatLength(data: Bytes)
    ensures Parse(HeartbeatKinds(), data, 0).Some? <==> |data| >= HEARTBEAT_SIZE
  {
    hide Word32At, Word64At;
    var kinds := HeartbeatKinds();
    assert kinds[..2] == [K64, K8] && kinds[..2][..1] == [K64] && kinds[..2][..1][..0] == [];
    assert Parse([], data, 0) == Some(Parsed([], 0));
    assert [K64][..0] == [];
    var one := Parse([K64], data, 0);
    assert one.Some? <==> |data| >= 8;
    assert [K64, K8][..1] == [K64];
    var two := Parse([K64, K8], data, 0);
    assert two.Some? <==> |data| >= 9;
  }

  // The collector accepts exactly the payloads that start with an encoding.
  lemma HeartbeatExact(data: Bytes, m: Heartbeat)
    ensures DecodedHeartbeat(data) == Some(m) <==> HeartbeatEncoding(m) <= data
  {
    hide Parse, Layout, Kinds;
    var vs := HeartbeatValues(m);
    assert Kinds(vs) == HeartbeatKinds();
    ParseExact(HeartbeatKinds(), data, 0, vs, |Layout(vs)|);
    assert At(data, 0, Layout(vs)) <==> Layout(vs) <= data;
    var p := Parse(HeartbeatKinds(), data, 0);
    if p.Some? {
      KindsAt(p.value.values, HeartbeatKinds());
      assert DecodedHeartbeat(data) == Some(m) ==> p.value.values == vs;
      ParseExact(HeartbeatKinds(), data, 0, p.value.values, p.value.pos);
    }
  }
}
