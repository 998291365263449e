// Big-endian wire values: what the agent's write helpers append to a buffer and
// what the collector's binReader takes back, field by field. ParseExact is the
// one fact the message codecs rest on: a field list parses to the given values
// exactly when the bytes at that place are their encoding.

module Wire {
  import opened Prelude

  type Byte = x: int | 0 <= x < 0x100
  type Word16 = x: int | 0 <= x < 0x1_0000
  type Word32 = x: int | 0 <= x < 0x1_0000_0000
  type Word64 = x: int | 0 <= x < 0x1_0000_0000_0000_0000
  type Bytes = seq<Byte>
  type Text = s: Bytes | |s| < 0x1_0000           // preceded by a 16-bit length

  datatype Kind = K8 | K16 | K32 | K64 | KText

  datatype Value = U8(b: Byte) | U16(h: Word16) | U32(w: Word32) | U64(d: Word64) | Str(s: Text)

  function KindOf(v: Value): Kind {
    match v
    case U8(_) => K8
    case U16(_) => K16
    case U32(_) => K32
    case U64(_) => K64
    case Str(_) => KText
  }

  function Bytes16(h: Word16): (r: Bytes)
    ensures |r| == 2
  {
    [h / 0x100, h % 0x100]
  }

  function Bytes32(w: Word32): (r: Bytes)
    ensures |r| == 4
  {
    Bytes16(w / 0x1_0000) + Bytes16(w % 0x1_0000)
  }

  // the two halves, high one first
  function Bytes64(d: Word64): (r: Bytes)
    ensures |r| == 8
  {
    Bytes32(d / 0x1_0000_0000) + Bytes32(d % 0x1_0000_0000)
  }

  // The high byte goes first.
  lemma BigEndian16(h: Word16)
    ensures h == Bytes16(h)[0] as int * 0x100 + Bytes16(h)[1] as int
  {
  }

  lemma BigEndian32(w: Word32)
    ensures var b := Bytes32(w); w == b[0] as int * 0x100_0000 + b[1] as int * 0x1_0000 + b[2] as int * 0x100 + b[3] as int
  {
    BigEndian16(w / 0x1_0000);
    BigEndian16(w % 0x1_0000);
  }

  lemma BigEndian64(d: Word64)
    ensures var b := Bytes64(d);
      d == b[0] as int * 0x100_0000_0000_0000 + b[1] as int * 0x1_0000_0000_0000 + b[2] as int * 0x100_0000_0000 + b[3] as int * 0x1_0000_0000
         + b[4] as int * 0x100_0000 + b[5] as int * 0x1_0000 + b[6] as int * 0x100 + b[7] as int
  {
    hide Bytes32;
    BigEndian32(d / 0x1_0000_0000);
    BigEndian32(d % 0x1_0000_0000);
  }

  function Encoded(v: Value): Bytes {
    match v
    case U8(b) => [b]
    case U16(h) => Bytes16(h)
    case U32(w) => Bytes32(w)
    case U64(d) => Bytes64(d)
    case Str(s) => Bytes16(|s|) + s
  }

  function Layout(vs: seq<Value>): Bytes {
    if vs == [] then [] else Layout(vs[..|vs| - 1]) + Encoded(vs[|vs| - 1])
  }

  function Kinds(vs: seq<Value>): (r: seq<Kind>)
    ensures |r| == |vs|
    ensures forall i :: 0 <= i < |vs| ==> r[i] == KindOf(vs[i])
  {
    seq(|vs|, i requires 0 <= i < |vs| => KindOf(vs[i]))
  }

  // ----- reading back ---------------------------------------------------------------

  function Word16At(data: Bytes, pos: nat): Word16
    requires pos + 2 <= |data|
  {
    (data[pos] as int) * 0x100 + data[pos + 1]
  }

  function Word32At(data: Bytes, pos: nat): Word32
    requires pos + 4 <= |data|
  {
    (Word16At(data, pos) as int) * 0x1_0000 + Word16At(data, pos + 2)
  }

  function Word64At(data: Bytes, pos: nat): Word64
    requires pos + 8 <= |data|
  {
    (Word32At(data, pos) as int) * 0x1_0000_0000 + Word32At(data, pos + 4)
  }

  datatype Item = Item(value: Value, pos: nat)

  function Read(kind: Kind, data: Bytes, pos: nat): (r: Option<Item>)
    requires pos <= |data|
    ensures r.Some? ==> KindOf(r.value.value) == kind && r.value.pos <= |data|
  {
    match kind
    case K8 => if |data| - pos < 1 then None else Some(Item(U8(data[pos]), pos + 1))
    case K16 => if |data| - pos < 2 then None else Some(Item(U16(Word16At(data, pos)), pos + 2))
    case K32 => if |data| - pos < 4 then None else Some(Item(U32(Word32At(data, pos)), pos + 4))
    case K64 => if |data| - pos < 8 then None else Some(Item(U64(Word64At(data, pos)), pos + 8))
    case KText =>
      if |data| - pos < 2 then None
      else
        var n := Word16At(data, pos);
        if |data| - (pos + 2) < n then None
        else Some(Item(Str(data[pos + 2..pos + 2 + n]), pos + 2 + n))
  }

  datatype Parsed = Parsed(values: seq<Value>, pos: nat)

  function Parse(kinds: seq<Kind>, data: Bytes, pos: nat): (r: Option<Parsed>)
    requires pos <= |data|
    ensures r.Some? ==> r.value.pos <= |data| && Kinds(r.value.values) == kinds
  {
    if kinds == [] then Some(Parsed([], pos))
    else
      match Parse(kinds[..|kinds| - 1], data, pos)
      case None => None
      case Some(before) =>
        match Read(kinds[|kinds| - 1], data, before.pos)
        case None => None
        case Some(item) => Some(Parsed(before.values + [item.value], item.pos))
  }

  // ----- parsing is the exact inverse of writing ----------------------------------------

  predicate At(data: Bytes, pos: nat, part: Bytes) {
    pos + |part| <= |data| && data[pos..pos + |part|] == part
  }

  lemma AtSplit(data: Bytes, pos: nat, a: Bytes, b: Bytes)
    ensures At(data, pos, a + b) <==> At(data, pos, a) && At(data, pos + |a|, b)
  {
    if pos + |a + b| <= |data| {
      var whole := data[pos..pos + |a + b|];
      assert whole[..|a|] == data[pos..pos + |a|];
      assert whole[|a|..] == data[pos + |a|..pos + |a| + |b|];
      assert (a + b)[..|a|] == a && (a + b)[|a|..] == b;
      assert whole == whole[..|a|] + whole[|a|..];
    }
  }

  lemma Word16Exact(data: Bytes, pos: nat, h: Word16)
    requires pos + 2 <= |data|
    ensures Word16At(data, pos) == h <==> At(data, pos, Bytes16(h))
  {
    assert data[pos..pos + 2] == [data[pos], data[pos + 1]];
  }

  lemma Word32Exact(data: Bytes, pos: nat, w: Word32)
    requires pos + 4 <= |data|
    ensures Word32At(data, pos) == w <==> At(data, pos, Bytes32(w))
  {
    hide At, Bytes16;
    Word16Exact(data, pos, w / 0x1_0000);
    Word16Exact(data, pos + 2, w % 0x1_0000);
    AtSplit(data, pos, Bytes16(w / 0x1_0000), Bytes16(w % 0x1_0000));
  }

  lemma Word64Exact(data: Bytes, pos: nat, d: Word64)
    requires pos + 8 <= |data|
    ensures Word64At(data, pos) == d <==> At(data, pos, Bytes64(d))
  {
    hide At, Bytes32, Word32At;
    Word32Exact(data, pos, d / 0x1_0000_0000);
    Word32Exact(data, pos + 4, d % 0x1_0000_0000);
    AtSplit(data, pos, Bytes32(d / 0x1_0000_0000), Bytes32(d % 0x1_0000_0000));
  }

  lemma TextExact(data: Bytes, pos: nat, s: Text)
    requires pos <= |data|
    ensures Read(KText, data, pos) == Some(Item(Str(s), pos + |Encoded(Str(s))|)) <==> At(data, pos, Encoded(Str(s)))
  {
    hide Bytes16, Word16At;
    AtSplit(data, pos, Bytes16(|s|), s);
    if pos + 2 <= |data| { Word16Exact(data, pos, |s|); }
  }

  lemma ReadExact(kind: Kind, data: Bytes, pos: nat, v: Value, q: nat)
    requires pos <= |data|
    ensures Read(kind, data, pos) == Some(Item(v, q)) <==>
            KindOf(v) == kind && At(data, pos, Encoded(v)) && q == pos + |Encoded(v)|
  {
    hide Bytes16, Bytes32, Bytes64, Word16At, Word32At, Word64At;
    match v
    case U8(b) => if pos < |data| { assert data[pos..pos + 1] == [data[pos]]; }
    case U16(h) => if pos + 2 <= |data| { Word16Exact(data, pos, h); }
    case U32(w) => if pos + 4 <= |data| { Word32Exact(data, pos, w); }
    case U64(d) => if pos + 8 <= |data| { Word64Exact(data, pos, d); }
    case Str(s) => TextExact(data, pos, s);
  }

  lemma LayoutSnoc(vs: seq<Value>, v: Value)
    ensures Layout(vs + [v]) == Layout(vs) + Encoded(v)
  {
    assert (vs + [v])[..|vs|] == vs;
  }

  lemma LayoutNothing()
    ensures Layout([]) == []
  {
  }

  // Values follow one another in the order of the list.
  lemma {:induction false} LayoutAppend(xs: seq<Value>, ys: seq<Value>)
    ensures Layout(xs + ys) == Layout(xs) + Layout(ys)
    decreases |ys|
  {
    hide Encoded;
    if ys == [] {
      assert xs + ys == xs;
    } else {
      var front, last := ys[..|ys| - 1], ys[|ys| - 1];
      assert xs + ys == (xs + front) + [last];
      assert ys == front + [last];
      LayoutAppend(xs, front);
      LayoutSnoc(xs + front, last);
      LayoutSnoc(front, last);
    }
  }

  lemma {:induction false} ParseSound(kinds: seq<Kind>, data: Bytes, pos: nat)
    requires pos <= |data| && Parse(kinds, data, pos).Some?
    ensures var r := Parse(kinds, data, pos).value;
      At(data, pos, Layout(r.values)) && r.pos == pos + |Layout(r.values)|
  {
    hide Read, Encoded, At;
    if kinds == [] {
      AtNothing(data, pos);
    } else {
      ParseSound(kinds[..|kinds| - 1], data, pos);
      var before := Parse(kinds[..|kinds| - 1], data, pos).value;
      var item := Read(kinds[|kinds| - 1], data, before.pos).value;
      ReadExact(kinds[|kinds| - 1], data, before.pos, item.value, item.pos);
      LayoutSnoc(before.values, item.value);
      AtSplit(data, pos, Layout(before.values), Encoded(item.value));
    }
  }

  lemma AtNothing(data: Bytes, pos: nat)
    requires pos <= |data|
    ensures At(data, pos, [])
  {
  }

  lemma AtEnds(data: Bytes, pos: nat, part: Bytes)
    requires At(data, pos, part)
    ensures pos + |part| <= |data|
  {
  }

  lemma KindsSnoc(front: seq<Value>, last: Value)
    ensures Kinds(front + [last])[..|front|] == Kinds(front) && Kinds(front + [last])[|front|] == KindOf(last)
  {
  }

  lemma {:induction false} ParseComplete(vs: seq<Value>, data: Bytes, pos: nat)
    requires pos <= |data| && At(data, pos, Layout(vs))
    ensures Parse(Kinds(vs), data, pos) == Some(Parsed(vs, pos + |Layout(vs)|))
  {
    hide Read, Encoded, At, Kinds, Layout;
    if vs == [] {
      assert Kinds(vs) == [];
      LayoutNothing();
    } else {
      var front, last := vs[..|vs| - 1], vs[|vs| - 1];
      assert vs == front + [last];
      LayoutSnoc(front, last);
      AtSplit(data, pos, Layout(front), Encoded(last));
      ParseComplete(front, data, pos);
      KindsSnoc(front, last);
      AtEnds(data, pos, Layout(front));
      ReadExact(KindOf(last), data, pos + |Layout(front)|, last, pos + |Layout(vs)|);
    }
  }

  // A field list parses to these values exactly when the bytes at that place are
  // what writing the values appends.
  lemma ParseExact(kinds: seq<Kind>, data: Bytes, pos: nat, vs: seq<Value>, q: nat)
    requires pos <= |data|
    ensures Parse(kinds, data, pos) == Some(Parsed(vs, q)) <==>
            Kinds(vs) == kinds && At(data, pos, Layout(vs)) && q == pos + |Layout(vs)|
  {
    hide Parse, Layout, At, Kinds;
    if Parse(kinds, data, pos).Some? { ParseSound(kinds, data, pos); }
    if At(data, pos, Layout(vs)) { ParseComplete(vs, data, pos); }
  }

  lemma ParseStep(kinds: seq<Kind>, data: Bytes, start: nat, got: seq<Value>, pos: nat)
    requires start <= |data| && |got| < |kinds|
    requires Parse(kinds[..|got|], data, start) == Some(Parsed(got, pos))
    ensures match Read(kinds[|got|], data, pos)
      case Some(item) => Parse(kinds[..|got| + 1], data, start) == Some(Parsed(got + [item.value], item.pos))
      case None => Parse(kinds, data, start) == None
  {
    hide Read;
    assert kinds[..|got| + 1][..|got|] == kinds[..|got|];
    if Read(kinds[|got|], data, pos).None? {
      ParseFailsOn(kinds, data, start, |got| + 1);
    }
  }

  lemma {:induction false} ParseFailsOn(kinds: seq<Kind>, data: Bytes, start: nat, k: nat)
    requires start <= |data| && k <= |kinds| && Parse(kinds[..k], data, start).None?
    ensures Parse(kinds, data, start).None?
  {
    if k < |kinds| {
      assert kinds[..|kinds| - 1][..k] == kinds[..k];
      ParseFailsOn(kinds[..|kinds| - 1], data, start, k);
    } else {
      assert kinds[..k] == kinds;
    }
  }

  // ----- the collector's reader ---------------------------------------------------------

  // b is a with v behind it
  ghost predicate Grown(a: seq<Value>, b: seq<Value>, v: Value) {
    |b| == |a| + 1 && b[|a|] == v && forall i :: 0 <= i < |a| ==> b[i] == a[i]
  }

  // binReader. `start` and `got` are history: where the current field list began
  // and what has been read of it.
  class BinReader {
    const data: Bytes
    var pos: nat
    ghost var start: nat
    ghost var got: seq<Value>

    constructor (data: Bytes)
      ensures this.data == data && pos == 0 && start == 0 && got == []
    {
      this.data := data;
      pos, start, got := 0, 0, [];
    }

    // what has been read so far is what Parse gives for that many fields
    ghost predicate On(kinds: seq<Kind>)
      reads this
    {
      pos <= |data| && start <= |data| && |got| <= |kinds| && Parse(kinds[..|got|], data, start) == Some(Parsed(got, pos))
    }

    // forget the fields read, to go on with another list
    ghost method Restart()
      requires pos <= |data|
      modifies this`start, this`got
      ensures start == pos && got == [] && forall kinds :: On(kinds)
    {
      start, got := pos, [];
      forall kinds: seq<Kind> ensures On(kinds) { assert kinds[..0] == []; }
    }

    lemma SoFar(kinds: seq<Kind>)
      requires On(kinds)
      ensures start <= |data| && |got| <= |kinds| && Parse(kinds[..|got|], data, start) == Some(Parsed(got, pos))
    {
    }

    lemma Finish(kinds: seq<Kind>)
      requires On(kinds) && |got| == |kinds|
      ensures start <= |data| && Parse(kinds, data, start) == Some(Parsed(got, pos))
    {
      assert kinds[..|got|] == kinds;
    }

    method ReadU8(ghost kinds: seq<Kind>) returns (r: Option<Byte>)
      requires On(kinds) && |got| < |kinds| && kinds[|got|] == K8
      modifies this`pos, this`got
      ensures r.Some? ==> On(kinds) && Grown(old(got), got, U8(r.value))
      ensures r.None? ==> Parse(kinds, data, start) == None
      ensures pos <= |data|
    {
      hide Parse;
      ParseStep(kinds, data, start, got, pos);
      if |data| - pos < 1 { return None; }
      r := Some(data[pos]);
      pos := pos + 1;
      got := got + [U8(r.value)];
    }

    method NextU16() returns (r: Option<Word16>)
      requires pos <= |data|
      modifies this`pos
      ensures pos <= |data| && (r.None? <==> |data| - old(pos) < 2)
      ensures r.Some? ==> pos == old(pos) + 2 && r.value == Word16At(data, old(pos))
    {
      if |data| - pos < 2 { return None; }
      r := Some(Word16At(data, pos));
      pos := pos + 2;
    }

    method ReadU16(ghost kinds: seq<Kind>) returns (r: Option<Word16>)
      requires On(kinds) && |got| < |kinds| && kinds[|got|] == K16
      modifies this`pos, this`got
      ensures r.Some? ==> On(kinds) && Grown(old(got), got, U16(r.value))
      ensures r.None? ==> Parse(kinds, data, start) == None
      ensures pos <= |data|
    {
      hide Parse, Word16At;
      ParseStep(kinds, data, start, got, pos);
      r := NextU16();
      if r.Some? { got := got + [U16(r.value)]; }
    }

    method ReadU32(ghost kinds: seq<Kind>) returns (r: Option<Word32>)
      requires On(kinds) && |got| < |kinds| && kinds[|got|] == K32
      modifies this`pos, this`got
      ensures r.Some? ==> On(kinds) && Grown(old(got), got, U32(r.value))
      ensures r.None? ==> Parse(kinds, data, start) == None
      ensures pos <= |data|
    {
      hide Parse, Word32At;
      ParseStep(kinds, data, start, got, pos);
      if |data| - pos < 4 { return None; }
      r := Some(Word32At(data, pos));
      pos := pos + 4;
      got := got + [U32(r.value)];
    }

    method ReadU64(ghost kinds: seq<Kind>) returns (r: Option<Word64>)
      requires On(kinds) && |got| < |kinds| && kinds[|got|] == K64
      modifies this`pos, this`got
      ensures r.Some? ==> On(kinds) && Grown(old(got), got, U64(r.value))
      ensures r.None? ==> Parse(kinds, data, start) == None
      ensures pos <= |data|
    {
      hide Parse, Word32At;
      ParseStep(kinds, data, start, got, pos);
      if |data| - pos < 8 { return None; }
      var hi, lo := Word32At(data, pos), Word32At(data, pos + 4);
      r := Some((hi as int) * 0x1_0000_0000 + lo);
      pos := pos + 8;
      got := got + [U64(r.value)];
    }

    method ReadStr(ghost kinds: seq<Kind>) returns (r: Option<Text>)
      requires On(kinds) && |got| < |kinds| && kinds[|got|] == KText
      modifies this`pos, this`got
      ensures r.Some? ==> On(kinds) && Grown(old(got), got, Str(r.value))
      ensures r.None? ==> Parse(kinds, data, start) == None
      ensures pos <= |data|
    {
      hide Parse, Word16At;
      ParseStep(kinds, data, start, got, pos);
      var length := NextU16();
      if length.None? || |data| - pos < length.value { return None; }
      r := Some(data[pos..pos + length.value]);
      pos := pos + length.value;
      got := got + [Str(r.value)];
    }
  }

  // ----- the agent's write helpers ---------------------------------------------------------

  // Each writes its value, the k-th of `vs`, at p and returns the pointer behind it;
  // the bytes before p, `front` and the values before the k-th, stay.
  ghost predicate Wrote(buf: array<Byte>, p: nat, front: Bytes, done: seq<Value>)
    reads buf
  {
    p <= buf.Length && buf[..p] == front + Layout(done)
  }

  lemma WroteMore(before: Bytes, after: Bytes, p: nat, front: Bytes, vs: seq<Value>, k: nat)
    requires k < |vs| && p + |Encoded(vs[k])| <= |after| && p <= |before|
    requires before[..p] == front + Layout(vs[..k]) && after[..p] == before[..p]
    requires after[p..p + |Encoded(vs[k])|] == Encoded(vs[k])
    ensures after[..p + |Encoded(vs[k])|] == front + Layout(vs[..k + 1])
  {
    hide Encoded;
    LayoutSnoc(vs[..k], vs[k]);
    assert vs[..k + 1] == vs[..k] + [vs[k]];
    assert after[..p + |Encoded(vs[k])|] == after[..p] + after[p..p + |Encoded(vs[k])|];
  }

  method Put(buf: array<Byte>, p: nat, part: Bytes)
    requires p + |part| <= buf.Length
    modifies buf
    ensures buf[p..p + |part|] == part && buf[..p] == old(buf[..p])
    ensures buf[p + |part|..] == old(buf[p + |part|..])
  {
    for i := 0 to |part|
      invariant buf[p..p + i] == part[..i] && buf[..p] == old(buf[..p])
      invariant buf[p + i..] == old(buf[p + i..])
    {
      buf[p + i] := part[i];
      assert buf[p..p + i + 1] == buf[p..p + i] + [part[i]] && part[..i + 1] == part[..i] + [part[i]];
      assert buf[p + i + 1..] == old(buf[p + i..])[1..];
    }
  }

  method WriteU8(buf: array<Byte>, p: nat, v: Byte, ghost front: Bytes, ghost vs: seq<Value>, ghost k: nat) returns (q: nat)
    requires k < |vs| && vs[k] == U8(v) && Wrote(buf, p, front, vs[..k]) && p + 1 <= buf.Length
    modifies buf
    ensures q == p + 1 && Wrote(buf, q, front, vs[..k + 1])
  {
    ghost var before := buf[..];
    buf[p] := v;
    assert buf[p..p + 1] == [v];
    WroteMore(before, buf[..], p, front, vs, k);
    q := p + 1;
  }

  method WriteU16(buf: array<Byte>, p: nat, v: Word16, ghost front: Bytes, ghost vs: seq<Value>, ghost k: nat) returns (q: nat)
    requires k < |vs| && vs[k] == U16(v) && Wrote(buf, p, front, vs[..k]) && p + 2 <= buf.Length
    modifies buf
    ensures q == p + 2 && Wrote(buf, q, front, vs[..k + 1])
  {
    hide Layout, Bytes16;
    ghost var before := buf[..];
    Put(buf, p, Bytes16(v));
    assert buf[..][p..p + 2] == buf[p..p + 2] && buf[..][..p] == buf[..p];
    WroteMore(before, buf[..], p, front, vs, k);
    q := p + 2;
  }

  method WriteU32(buf: array<Byte>, p: nat, v: Word32, ghost front: Bytes, ghost vs: seq<Value>, ghost k: nat) returns (q: nat)
    requires k < |vs| && vs[k] == U32(v) && Wrote(buf, p, front, vs[..k]) && p + 4 <= buf.Length
    modifies buf
    ensures q == p + 4 && Wrote(buf, q, front, vs[..k + 1])
  {
    hide Layout, Bytes32;
    ghost var before := buf[..];
    Put(buf, p, Bytes32(v));
    assert buf[..][p..p + 4] == buf[p..p + 4] && buf[..][..p] == buf[..p];
    WroteMore(before, buf[..], p, front, vs, k);
    q := p + 4;
  }

  method WriteU64(buf: array<Byte>, p: nat, v: Word64, ghost front: Bytes, ghost vs: seq<Value>, ghost k: nat) returns (q: nat)
    requires k < |vs| && vs[k] == U64(v) && Wrote(buf, p, front, vs[..k]) && p + 8 <= buf.Length
    modifies buf
    ensures q == p + 8 && Wrote(buf, q, front, vs[..k + 1])
  {
    hide Layout, Bytes32;
    ghost var before := buf[..];
    Put(buf, p, Bytes32(v / 0x1_0000_0000) + Bytes32(v % 0x1_0000_0000));
    assert buf[..][p..p + 8] == buf[p..p + 8] && buf[..][..p] == buf[..p];
    WroteMore(before, buf[..], p, front, vs, k);
    q := p + 8;
  }

  method WriteStr(buf: array<Byte>, p: nat, s: Text, ghost front: Bytes, ghost vs: seq<Value>, ghost k: nat) returns (q: nat)
    requires k < |vs| && vs[k] == Str(s) && Wrote(buf, p, front, vs[..k]) && p + 2 + |s| <= buf.Length
    modifies buf
    ensures q == p + 2 + |s| && Wrote(buf, q, front, vs[..k + 1])
  {
    hide Layout, Bytes16;
    ghost var before := buf[..];
    Put(buf, p, Bytes16(|s|));
    q := p + 2;
    ghost var head := buf[..q];
    assert head == buf[..p] + buf[p..p + 2];
    if |s| > 0 {
      Put(buf, q, s);
      q := q + |s|;
    }
    assert buf[..q] == head + s;
    assert buf[..q][p..q] == Bytes16(|s|) + s;
    assert buf[..][p..q] == buf[..q][p..q] && buf[..][..p] == head[..p] == buf[..p];
    WroteMore(before, buf[..], p, front, vs, k);
  }
}
