// The XOR-protected enrollment channel: key derivation, keystream and sealed
// payloads, in Go and in C. HMAC-SHA256 (section 2 of RFC 2104) is any function
// that returns 32 bytes.

module Channel {
  import opened Prelude
  import opened Wire

  type Digest = s: Bytes | |s| == 32 witness seq(32, _ => 0)

  type Hmac = (Bytes, Bytes) -> Digest          // key, data

  datatype Keys = Keys(session: Digest, enc: Digest, mac: Digest)

  const NONCE_SIZE: nat := 32
  const MAC_SIZE: nat := 32
  const MAX_FRAME: nat := 65535

  // the bytes of an ASCII text
  function Ascii(s: string): (r: Bytes)
    ensures |r| == |s|
    ensures forall i :: 0 <= i < |s| && s[i] as int < 0x80 ==> r[i] == s[i] as int
  {
    seq(|s|, i requires 0 <= i < |s| => (s[i] as int) % 0x80)
  }

  function SessionLabel(): Bytes { Ascii("knig enrollment v2 session") }
  function EncLabel(): Bytes { Ascii("knig enrollment enc") }
  function MacLabel(): Bytes { Ascii("knig enrollment mac") }
  function ProofLabel(): Bytes { Ascii("knig enrollment server proof") }

  // ----- keys -----------------------------------------------------------------------------

  function Transcript(tag: Bytes, id: Bytes, clientNonce: Bytes, serverNonce: Bytes): Bytes {
    tag + [0] + id + [0] + clientNonce + serverNonce
  }

  function Derived(hmac: Hmac, key: Bytes, id: Bytes, clientNonce: Bytes, serverNonce: Bytes): Keys {
    var session := hmac(key, Transcript(SessionLabel(), id, clientNonce, serverNonce));
    Keys(session, hmac(session, EncLabel()), hmac(session, MacLabel()))
  }

  function Proof(hmac: Hmac, keys: Keys, id: Bytes, clientNonce: Bytes, serverNonce: Bytes): Digest {
    hmac(keys.mac, Transcript(ProofLabel(), id, clientNonce, serverNonce))
  }

  // What goes into the keys and the proof, byte for byte.
  lemma DerivedExactly(hmac: Hmac, key: Bytes, id: Bytes, clientNonce: Bytes, serverNonce: Bytes)
    ensures var keys := Derived(hmac, key, id, clientNonce, serverNonce);
      && keys.session == hmac(key, Ascii("knig enrollment v2 session") + [0] + id + [0] + clientNonce + serverNonce)
      && keys.enc == hmac(keys.session, Ascii("knig enrollment enc"))
      && keys.mac == hmac(keys.session, Ascii("knig enrollment mac"))
      && Proof(hmac, keys, id, clientNonce, serverNonce) ==
         hmac(keys.mac, Ascii("knig enrollment server proof") + [0] + id + [0] + clientNonce + serverNonce)
  {
  }

  // A transcript commits to its id and to both nonces: no two exchanges share one.
  lemma TranscriptExact(tag: Bytes, id: Bytes, clientNonce: Bytes, serverNonce: Bytes,
                        id': Bytes, clientNonce': Bytes, serverNonce': Bytes)
    requires |clientNonce| == |clientNonce'| == |serverNonce| == |serverNonce'| == NONCE_SIZE
    requires Transcript(tag, id, clientNonce, serverNonce) == Transcript(tag, id', clientNonce', serverNonce')
    ensures id == id' && clientNonce == clientNonce' && serverNonce == serverNonce'
  {
    TranscriptParts(tag, id, clientNonce, serverNonce);
    TranscriptParts(tag, id', clientNonce', serverNonce');
  }

  lemma TranscriptParts(tag: Bytes, id: Bytes, clientNonce: Bytes, serverNonce: Bytes)
    requires |clientNonce| == |serverNonce| == NONCE_SIZE
    ensures var t := Transcript(tag, id, clientNonce, serverNonce);
      && |t| == |tag| + |id| + 66
      && t[..|tag|] == tag && t[|tag|] == 0
      && t[|tag| + 1..|t| - 65] == id && t[|t| - 65] == 0
      && t[|t| - 64..|t| - 32] == clientNonce && t[|t| - 32..] == serverNonce
  {
  }

  // The two sides never authenticate or encrypt under one label: the session
  // transcript, the proof transcript and the two derivation labels all differ.
  lemma LabelsDiffer(id: Bytes, clientNonce: Bytes, serverNonce: Bytes)
    ensures EncLabel() != MacLabel()
    ensures Transcript(SessionLabel(), id, clientNonce, serverNonce) != Transcript(ProofLabel(), id, clientNonce, serverNonce)
  {
    assert EncLabel()[16] == 'e' as int && MacLabel()[16] == 'm' as int;
    assert Transcript(SessionLabel(), id, clientNonce, serverNonce)[16] == SessionLabel()[16] == 'v' as int;
    assert Transcript(ProofLabel(), id, clientNonce, serverNonce)[16] == ProofLabel()[16] == 's' as int;
  }

  // DeriveSessionKeys (Go)
  method DeriveSessionKeys(hmac: Hmac, xorKey: Bytes, id: Bytes, clientNonce: Bytes, serverNonce: Bytes)
    returns (keys: Option<Keys>)
    ensures keys == if xorKey == [] || id == [] || |clientNonce| != NONCE_SIZE || |serverNonce| != NONCE_SIZE
                    then None else Some(Derived(hmac, xorKey, id, clientNonce, serverNonce))
  {
    if xorKey == [] || id == [] || |clientNonce| != NONCE_SIZE || |serverNonce| != NONCE_SIZE { return None; }
    var h := SessionLabel();
    h := h + [0];
    h := h + id;
    h := h + [0];
    h := h + clientNonce;
    h := h + serverNonce;
    var session := hmac(xorKey, h);
    var enc := hmac(session, EncLabel());
    var mac := hmac(session, MacLabel());
    keys := Some(Keys(session, enc, mac));
  }

  // ServerProof (Go)
  method ServerProof(hmac: Hmac, keys: Keys, id: Bytes, clientNonce: Bytes, serverNonce: Bytes) returns (proof: Digest)
    ensures proof == Proof(hmac, keys, id, clientNonce, serverNonce)
  {
    var h := ProofLabel();
    h := h + [0];
    h := h + id;
    h := h + [0];
    h := h + clientNonce;
    h := h + serverNonce;
    proof := hmac(keys.mac, h);
  }

  // A C string ends at its first NUL.
  function CString(s: Bytes): (r: Bytes)
    ensures r <= s && 0 !in r
    ensures 0 !in s ==> r == s
    ensures |r| < |s| ==> s[|r|] == 0
  {
    if s == [] || s[0] == 0 then [] else [s[0]] + CString(s[1..])
  }

  // The zeroed buffer that derive_session and server_proof fill: the two
  // separators are the zeros skipped over.
  method FillTranscript(tag: Bytes, id: Bytes, clientNonce: Bytes, serverNonce: Bytes) returns (data: array<Byte>)
    requires |clientNonce| == NONCE_SIZE && |serverNonce| == NONCE_SIZE
    ensures fresh(data) && data[..] == Transcript(tag, id, clientNonce, serverNonce)
  {
    data := new Byte[|tag| + 1 + |id| + 1 + 32 + 32](_ => 0);
    var p := 0;
    Put(data, p, tag);
    assert forall k :: |tag| <= k < data.Length ==> data[k] == data[0 + |tag|..][k - |tag|] == 0;
    p := p + |tag| + 1;
    assert data[..p] == data[0..0 + |tag|] + [data[p - 1]] == tag + [0];
    ghost var was := data[..];
    ghost var q := p + |id|;
    assert data[q..][0] == was[q] == 0;
    Put(data, p, id);
    assert data[q] == data[q..][0];
    assert data[..q + 1] == data[..p] + data[p..q] + [data[q]];
    p := p + |id| + 1;
    assert data[..p] == tag + [0] + id + [0];
    Put(data, p, clientNonce);
    assert data[..p + 32] == data[..p] + data[p..p + 32];
    p := p + 32;
    Put(data, p, serverNonce);
    assert data[..] == data[..p] + data[p..p + 32];
  }

  // derive_session (C): the key and the id are C strings
  method DeriveSession(hmac: Hmac, xorKey: Bytes, id: Bytes, clientNonce: Bytes, serverNonce: Bytes) returns (keys: Keys)
    requires |clientNonce| == NONCE_SIZE && |serverNonce| == NONCE_SIZE
    ensures keys == Derived(hmac, CString(xorKey), CString(id), clientNonce, serverNonce)
  {
    var data := FillTranscript(SessionLabel(), CString(id), clientNonce, serverNonce);
    var session := hmac(CString(xorKey), data[..]);
    var enc := hmac(session, EncLabel());
    var mac := hmac(session, MacLabel());
    keys := Keys(session, enc, mac);
  }

  // server_proof (C)
  method ServerProofC(hmac: Hmac, keys: Keys, id: Bytes, clientNonce: Bytes, serverNonce: Bytes) returns (proof: Digest)
    requires |clientNonce| == NONCE_SIZE && |serverNonce| == NONCE_SIZE
    ensures proof == Proof(hmac, keys, CString(id), clientNonce, serverNonce)
  {
    var data := FillTranscript(ProofLabel(), CString(id), clientNonce, serverNonce);
    proof := hmac(keys.mac, data[..]);
  }

  // Both sides on the same key and id: unless one of them is empty or holds a NUL,
  // Go's keys and proof are those of C.
  method BothSides(hmac: Hmac, xorKey: Bytes, id: Bytes, clientNonce: Bytes, serverNonce: Bytes)
    returns (go: Option<Keys>, goProof: Digest, c: Keys, cProof: Digest)
    requires |clientNonce| == NONCE_SIZE && |serverNonce| == NONCE_SIZE
    ensures go.None? <==> xorKey == [] || id == []
    ensures 0 !in xorKey && 0 !in id && go.Some? ==> go == Some(c) && goProof == cProof
  {
    hide Derived, Proof, Transcript;
    go := DeriveSessionKeys(hmac, xorKey, id, clientNonce, serverNonce);
    c := DeriveSession(hmac, xorKey, id, clientNonce, serverNonce);
    goProof := ServerProof(hmac, if go.Some? then go.value else c, id, clientNonce, serverNonce);
    cProof := ServerProofC(hmac, c, id, clientNonce, serverNonce);
  }

  // ----- the keystream ------------------------------------------------------------------------

  // exclusive or of the n low bits, bit by bit
  function XorBits(a: nat, b: nat, n: nat): nat {
    if n == 0 then 0 else (a + b) % 2 + 2 * XorBits(a / 2, b / 2, n - 1)
  }

  function Power(n: nat): nat {
    if n == 0 then 1 else 2 * Power(n - 1)
  }

  lemma {:induction false} XorBitsTwice(a: nat, b: nat, n: nat)
    requires a < Power(n)
    ensures XorBits(a, b, n) < Power(n) && XorBits(XorBits(a, b, n), b, n) == a
  {
    if n > 0 {
      XorBitsTwice(a / 2, b / 2, n - 1);
      var rest := XorBits(a / 2, b / 2, n - 1);
      LowBit(a, b, rest);
    }
  }

  lemma LowBit(a: nat, b: nat, rest: nat)
    ensures var x := (a + b) % 2 + 2 * rest; x / 2 == rest && (x + b) % 2 == a % 2
  {
  }

  lemma EightBits()
    ensures Power(8) == 0x100
  {
    assert Power(4) == 16;
  }

  function Xor(a: Byte, b: Byte): Byte {
    EightBits();
    XorBitsTwice(a, b, 8);
    XorBits(a, b, 8)
  }

  lemma XorTwice(a: Byte, b: Byte)
    ensures Xor(Xor(a, b), b) == a
  {
    hide XorBits, Power;
    EightBits();
    XorBitsTwice(a, b, 8);
  }

  lemma Halves(x: nat, p: nat)
    requires p > 0
    ensures x / (2 * p) == x / 2 / p
  {
    var q, r := x / 2 / p, x / 2 % p;
    assert x / 2 == q * p + r;
    assert x == q * (2 * p) + (2 * r + x % 2);
    Quotient(x, 2 * p, q, 2 * r + x % 2);
  }

  lemma Quotient(x: nat, m: nat, q: nat, r: nat)
    requires m > 0 && r < m && x == q * m + r
    ensures x / m == q
  {
    var d := x / m - q;
    assert d * m == r - x % m;
    assert (d - 1) * m == d * m - m && (d + 1) * m == d * m + m;
  }

  lemma {:induction false} BitAt(a: nat, b: nat, n: nat, k: nat)
    requires k < n
    ensures Power(k) > 0 && (XorBits(a, b, n) / Power(k)) % 2 == (a / Power(k) + b / Power(k)) % 2
  {
    hide Power;
    PowerStep(k);
    if k > 0 {
      BitAt(a / 2, b / 2, n - 1, k - 1);
      var p, x := Power(k - 1), XorBits(a, b, n);
      LowBit(a, b, XorBits(a / 2, b / 2, n - 1));
      Halves(x, p);
      Halves(a, p);
      Halves(b, p);
    }
  }

  lemma {:induction false} PowerStep(k: nat)
    ensures Power(k) > 0 && (if k == 0 then Power(k) == 1 else Power(k) == 2 * Power(k - 1))
  {
    if k > 0 { PowerStep(k - 1); }
  }

  // Every bit of the result is set exactly when the two bits there differ.
  lemma XorBit(a: Byte, b: Byte, k: nat)
    requires k < 8
    ensures Power(k) > 0 && (Xor(a, b) / Power(k)) % 2 == (a / Power(k) + b / Power(k)) % 2
  {
    EightBits();
    BitAt(a, b, 8, k);
  }

  lemma {:induction false} XorBitsCommute(a: nat, b: nat, n: nat)
    ensures XorBits(a, b, n) == XorBits(b, a, n)
  {
    if n > 0 { XorBitsCommute(a / 2, b / 2, n - 1); }
  }

  // Text and key play the same part.
  lemma XorCommutes(a: Byte, b: Byte)
    ensures Xor(a, b) == Xor(b, a)
  {
    XorBitsCommute(a, b, 8);
  }

  // block number `counter`, a uint32 in both languages
  function Block(hmac: Hmac, enc: Digest, seqNum: Word32, counter: nat): Digest {
    hmac(enc, Bytes32(seqNum) + Bytes32(counter % 0x1_0000_0000))
  }

  function KeyByte(hmac: Hmac, enc: Digest, seqNum: Word32, j: nat): Byte {
    Block(hmac, enc, seqNum, j / 32)[j % 32]
  }

  // Byte 32 b + i of the keystream is byte i of the MAC of the frame's number and b.
  lemma KeyByteIs(hmac: Hmac, enc: Digest, seqNum: Word32, b: Word32, i: nat)
    requires i < 32
    ensures KeyByte(hmac, enc, seqNum, 32 * b + i) == hmac(enc, Bytes32(seqNum) + Bytes32(b))[i]
  {
    assert (32 * b + i) / 32 == b && (32 * b + i) % 32 == i;
  }

  // No two blocks have the same MAC input, neither in one frame nor in frames of
  // different numbers.
  lemma BlockInputsDiffer(seqNum: Word32, b: Word32, seqNum': Word32, b': Word32)
    ensures Bytes32(seqNum) + Bytes32(b) == Bytes32(seqNum') + Bytes32(b') <==> seqNum == seqNum' && b == b'
  {
    hide Bytes32;
    var x, y := Bytes32(seqNum) + Bytes32(b), Bytes32(seqNum') + Bytes32(b');
    assert x[..4] == Bytes32(seqNum) && x[4..] == Bytes32(b) && y[..4] == Bytes32(seqNum') && y[4..] == Bytes32(b');
    if x == y {
      Bytes32Differ(seqNum, seqNum');
      Bytes32Differ(b, b');
    }
  }

  // every byte under the keystream byte of its own position
  function Crypt(hmac: Hmac, enc: Digest, seqNum: Word32, src: Bytes): (dst: Bytes)
    ensures |dst| == |src|
    ensures forall j :: 0 <= j < |src| ==> dst[j] == Xor(src[j], KeyByte(hmac, enc, seqNum, j))
  {
    seq(|src|, j requires 0 <= j < |src| => Xor(src[j], KeyByte(hmac, enc, seqNum, j)))
  }

  lemma CryptTwice(hmac: Hmac, enc: Digest, seqNum: Word32, src: Bytes)
    ensures Crypt(hmac, enc, seqNum, Crypt(hmac, enc, seqNum, src)) == src
  {
    hide Xor, KeyByte;
    forall j | 0 <= j < |src|
      ensures Xor(Xor(src[j], KeyByte(hmac, enc, seqNum, j)), KeyByte(hmac, enc, seqNum, j)) == src[j]
    {
      XorTwice(src[j], KeyByte(hmac, enc, seqNum, j));
    }
  }

  // xorKeystream (Go)
  method XorKeystream(hmac: Hmac, dst: array<Byte>, src: Bytes, enc: Digest, seqNum: Word32)
    requires dst.Length == |src|
    modifies dst
    ensures dst[..] == Crypt(hmac, enc, seqNum, src)
  {
    hide Xor, Block, KeyByte, Bytes32;
    var offset := 0;
    var counter: Word32 := 0;
    while offset < |src|
      invariant offset <= |src| && (offset < |src| ==> offset % 32 == 0 && counter == (offset / 32) % 0x1_0000_0000)
      invariant forall j :: 0 <= j < offset ==> dst[j] == Xor(src[j], KeyByte(hmac, enc, seqNum, j))
    {
      var block := hmac(enc, Bytes32(seqNum) + Bytes32(counter));
      BlockIs(hmac, enc, seqNum, offset / 32, counter);
      ghost var start, n := offset, offset / 32;
      var i := 0;
      while i < |block| && offset < |src|
        invariant i <= 32 && offset == start + i <= |src|
        invariant forall j :: 0 <= j < offset ==> dst[j] == Xor(src[j], KeyByte(hmac, enc, seqNum, j))
      {
        KeyByteInBlock(hmac, enc, seqNum, n, i, block);
        dst[offset] := Xor(src[offset], block[i]);
        offset := offset + 1;
        i := i + 1;
      }
      counter := if counter == 0xFFFF_FFFF then 0 else counter + 1;
    }
  }

  lemma KeyByteInBlock(hmac: Hmac, enc: Digest, seqNum: Word32, n: nat, i: nat, block: Digest)
    requires i < 32 && block == Block(hmac, enc, seqNum, n)
    ensures KeyByte(hmac, enc, seqNum, 32 * n + i) == block[i]
  {
  }

  lemma BlockIs(hmac: Hmac, enc: Digest, seqNum: Word32, n: nat, counter: Word32)
    requires counter == n % 0x1_0000_0000
    ensures Block(hmac, enc, seqNum, n) == hmac(enc, Bytes32(seqNum) + Bytes32(counter))
  {
  }

  // xor_crypt (C): the counter is a size_t, narrowed for each block
  method XorCrypt(hmac: Hmac, enc: Digest, seqNum: Word32, src: Bytes, dst: array<Byte>, at: nat)
    requires at + |src| <= dst.Length
    modifies dst
    ensures dst[at..at + |src|] == Crypt(hmac, enc, seqNum, src)
    ensures dst[..at] == old(dst[..at]) && dst[at + |src|..] == old(dst[at + |src|..])
  {
    hide Xor, Block, KeyByte, Bytes32;
    var offset, counter := 0, 0;
    while offset < |src|
      invariant offset <= |src| && (offset < |src| ==> offset % 32 == 0 && counter == offset / 32)
      invariant forall j :: 0 <= j < offset ==> dst[at + j] == Xor(src[j], KeyByte(hmac, enc, seqNum, j))
      invariant dst[..at] == old(dst[..at]) && dst[at + |src|..] == old(dst[at + |src|..])
    {
      var block := hmac(enc, Bytes32(seqNum) + Bytes32(counter % 0x1_0000_0000));
      BlockIs(hmac, enc, seqNum, counter, counter % 0x1_0000_0000);
      ghost var start, n := offset, offset / 32;
      var i := 0;
      while i < 32 && offset < |src|
        invariant i <= 32 && offset == start + i <= |src|
        invariant forall j :: 0 <= j < offset ==> dst[at + j] == Xor(src[j], KeyByte(hmac, enc, seqNum, j))
        invariant dst[..at] == old(dst[..at]) && dst[at + |src|..] == old(dst[at + |src|..])
      {
        KeyByteInBlock(hmac, enc, seqNum, n, i, block);
        dst[at + offset] := Xor(src[offset], block[i]);
        i := i + 1;
        offset := offset + 1;
      }
      counter := counter + 1;
    }
  }

  // ----- sealed payloads ------------------------------------------------------------------------

  function FrameMac(hmac: Hmac, mac: Digest, msgType: Byte, seqNum: Word32, ciphertext: Bytes): Digest {
    hmac(mac, [msgType] + Bytes32(seqNum) + ciphertext)
  }

  function Sealed(hmac: Hmac, keys: Keys, msgType: Byte, seqNum: Word32, plain: Bytes): Bytes {
    var ciphertext := Crypt(hmac, keys.enc, seqNum, plain);
    FrameMac(hmac, keys.mac, msgType, seqNum, ciphertext) + ciphertext
  }

  function Opened(hmac: Hmac, keys: Keys, msgType: Byte, seqNum: Word32, payload: Bytes): Option<Bytes> {
    if |payload| < MAC_SIZE then None
    else
      var ciphertext := payload[MAC_SIZE..];
      if payload[..MAC_SIZE] != FrameMac(hmac, keys.mac, msgType, seqNum, ciphertext) then None
      else Some(Crypt(hmac, keys.enc, seqNum, ciphertext))
  }

  // Opening under (type, seq) yields a plaintext exactly for what sealing that
  // plaintext under the same keys, type and number gives.
  lemma OpenedExact(hmac: Hmac, keys: Keys, msgType: Byte, seqNum: Word32, payload: Bytes, plain: Bytes)
    ensures Opened(hmac, keys, msgType, seqNum, payload) == Some(plain) <==>
            payload == Sealed(hmac, keys, msgType, seqNum, plain)
  {
    hide Crypt, FrameMac;
    CryptTwice(hmac, keys.enc, seqNum, plain);
    if |payload| >= MAC_SIZE {
      var ciphertext := payload[MAC_SIZE..];
      CryptTwice(hmac, keys.enc, seqNum, ciphertext);
      assert payload == payload[..MAC_SIZE] + ciphertext;
    }
    var sealed := Sealed(hmac, keys, msgType, seqNum, plain);
    assert sealed[MAC_SIZE..] == Crypt(hmac, keys.enc, seqNum, plain);
    assert sealed[..MAC_SIZE] == FrameMac(hmac, keys.mac, msgType, seqNum, sealed[MAC_SIZE..]);
  }

  // A sealed payload without reference to how it is computed: in front the MAC of
  // type, number and ciphertext, ...
  lemma SealedParts(hmac: Hmac, keys: Keys, msgType: Byte, seqNum: Word32, plain: Bytes)
    ensures var sealed := Sealed(hmac, keys, msgType, seqNum, plain);
      |sealed| == 32 + |plain| && sealed[..32] == hmac(keys.mac, [msgType] + Bytes32(seqNum) + sealed[32..])
    ensures Sealed(hmac, keys, msgType, seqNum, plain)[32..] == Crypt(hmac, keys.enc, seqNum, plain)
  {
    hide Crypt, Bytes32;
    var sealed := Sealed(hmac, keys, msgType, seqNum, plain);
    var c := Crypt(hmac, keys.enc, seqNum, plain);
    assert sealed[32..] == c;
    assert sealed[..32] == FrameMac(hmac, keys.mac, msgType, seqNum, c);
  }

  // ... behind it a ciphertext whose bit k of byte j is that of the plaintext,
  // flipped exactly where the keystream bit is set.
  lemma SealedBit(hmac: Hmac, keys: Keys, msgType: Byte, seqNum: Word32, plain: Bytes, j: nat, k: nat)
    requires j < |plain| && k < 8
    ensures |Sealed(hmac, keys, msgType, seqNum, plain)| == 32 + |plain| && Power(k) > 0
    ensures (Sealed(hmac, keys, msgType, seqNum, plain)[32 + j] / Power(k)) % 2 ==
      (plain[j] / Power(k) + hmac(keys.enc, Bytes32(seqNum) + Bytes32(j / 32 % 0x1_0000_0000))[j % 32] / Power(k)) % 2
  {
    hide Xor, Power, Bytes32, Sealed;
    SealedParts(hmac, keys, msgType, seqNum, plain);
    assert Sealed(hmac, keys, msgType, seqNum, plain)[32..][j] == Crypt(hmac, keys.enc, seqNum, plain)[j];
    XorBit(plain[j], KeyByte(hmac, keys.enc, seqNum, j), k);
  }

  lemma Bytes32Differ(a: Word32, b: Word32)
    requires Bytes32(a) == Bytes32(b)
    ensures a == b
  {
    BigEndian32(a);
    BigEndian32(b);
  }

  // Type, number and ciphertext are all under the MAC: two different accepted
  // frames with one MAC are two different inputs that the MAC does not tell apart.
  lemma TamperingIsCollision(hmac: Hmac, keys: Keys, msgType: Byte, seqNum: Word32, payload: Bytes,
                             msgType': Byte, seqNum': Word32, payload': Bytes)
    requires Opened(hmac, keys, msgType, seqNum, payload).Some?
    requires Opened(hmac, keys, msgType', seqNum', payload').Some?
    requires payload[..32] == payload'[..32]
    requires msgType != msgType' || seqNum != seqNum' || payload != payload'
    ensures var x, y := [msgType] + Bytes32(seqNum) + payload[32..], [msgType'] + Bytes32(seqNum') + payload'[32..];
      x != y && hmac(keys.mac, x) == hmac(keys.mac, y)
  {
    hide Bytes32, Crypt;
    var x, y := [msgType] + Bytes32(seqNum) + payload[32..], [msgType'] + Bytes32(seqNum') + payload'[32..];
    assert x[0] == msgType && x[1..5] == Bytes32(seqNum) && x[5..] == payload[32..];
    assert y[0] == msgType' && y[1..5] == Bytes32(seqNum') && y[5..] == payload'[32..];
    assert payload == payload[..32] + payload[32..] && payload' == payload'[..32] + payload'[32..];
    if x == y { Bytes32Differ(seqNum, seqNum'); }
  }

  // SealProtected (Go)
  method SealProtected(hmac: Hmac, msgType: Byte, seqNum: Word32, plain: Bytes, keys: Keys) returns (out: Bytes)
    ensures out == Sealed(hmac, keys, msgType, seqNum, plain)
  {
    var ciphertext := new Byte[|plain|](_ => 0);
    XorKeystream(hmac, ciphertext, plain, keys.enc, seqNum);
    var mac := hmac(keys.mac, [msgType] + Bytes32(seqNum) + ciphertext[..]);
    out := [];
    out := out + mac;
    out := out + ciphertext[..];
  }

  // OpenProtected (Go)
  method OpenProtected(hmac: Hmac, msgType: Byte, seqNum: Word32, payload: Bytes, keys: Keys) returns (plain: Option<Bytes>)
    ensures plain == Opened(hmac, keys, msgType, seqNum, payload)
  {
    if |payload| < MAC_SIZE { return None; }
    var got, ciphertext := payload[..MAC_SIZE], payload[MAC_SIZE..];
    var want := hmac(keys.mac, [msgType] + Bytes32(seqNum) + ciphertext);
    if got != want { return None; }
    var plaintext := new Byte[|ciphertext|](_ => 0);
    XorKeystream(hmac, plaintext, ciphertext, keys.enc, seqNum);
    plain := Some(plaintext[..]);
  }

  // protect_payload (C): the MAC goes in front of the ciphertext written first
  method ProtectPayload(hmac: Hmac, keys: Keys, msgType: Byte, seqNum: Word32, plain: Bytes) returns (out: Option<Bytes>)
    ensures out == if |plain| + MAC_SIZE > MAX_FRAME then None else Some(Sealed(hmac, keys, msgType, seqNum, plain))
  {
    if |plain| + MAC_SIZE > MAX_FRAME { return None; }
    var buf := new Byte[MAC_SIZE + |plain|](_ => 0);
    XorCrypt(hmac, keys.enc, seqNum, plain, buf, MAC_SIZE);
    assert buf[MAC_SIZE..MAC_SIZE + |plain|] == buf[MAC_SIZE..];
    var mac := hmac(keys.mac, [msgType] + Bytes32(seqNum) + buf[MAC_SIZE..]);
    Put(buf, 0, mac);
    assert buf[..] == buf[0..32] + buf[0 + 32..];
    out := Some(buf[..]);
  }

  // open_protected_payload (C)
  method OpenProtectedPayload(hmac: Hmac, keys: Keys, msgType: Byte, seqNum: Word32, payload: Bytes) returns (plain: Option<Bytes>)
    ensures plain == Opened(hmac, keys, msgType, seqNum, payload)
  {
    if |payload| < MAC_SIZE { return None; }
    var ciphertext := payload[MAC_SIZE..];
    var want := hmac(keys.mac, [msgType] + Bytes32(seqNum) + ciphertext);
    if payload[..MAC_SIZE] != want { return None; }
    var buf := new Byte[|ciphertext|](_ => 0);
    XorCrypt(hmac, keys.enc, seqNum, ciphertext, buf, 0);
    assert buf[0..|ciphertext|] == buf[..];
    plain := Some(buf[..]);
  }
}
