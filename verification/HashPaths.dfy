/**
 The staged hash as each program computes it: the server's Rust, the standalone
 Python, and the wallet's Java. Each is proved against the stages in Hashing, from
 whatever field order and time representation that program keeps.
 */
module HashPaths {
  import opened Bits
  import opened Bytes
  import opened Headers
  import opened Hashing

  predicate AnyNonZero(key: bytes) {
    exists i :: 0 <= i < |key| && key[i] != 0
  }

  lemma NullKey(key: Bytes16)
    ensures AnyNonZero(key) <==> key != Zeros(16)
  {
    if !AnyNonZero(key) {
      assert key == Zeros(16);
    }
  }

  /** The mask bytes are overwritten in place, as all three programs do. */
  method ClearLeadingBits(mask: array<byte>, clearBits: byte)
    requires mask.Length == 32
    modifies mask
    ensures mask[..] == Masked(old(mask[..]), clearBits)
  {
    var clearBytes := clearBits / 8;
    for i := 0 to clearBytes
      invariant forall j :: 0 <= j < i ==> mask[j] == 0
      invariant forall j :: i <= j < 32 ==> mask[j] == old(mask[j])
    {
      mask[i] := 0;
    }
    mask[clearBytes] := And(mask[clearBytes], OnesShifted(clearBits % 8));
  }

  method MaskFor(H: Hashes, xorKey: Bytes16, clearBits: byte) returns (mask: Digest)
    ensures mask == MaskOf(H, xorKey, clearBits)
  {
    NullKey(xorKey);
    mask := Zeros(32);
    if AnyNonZero(xorKey) {
      var tag := Tagged(H, XOR_MASK_TAG, xorKey);
      var m := new byte[32](i requires 0 <= i < 32 => tag[i]);
      assert m[..] == tag;
      ClearLeadingBits(m, clearBits);
      mask := m[..];
    }
  }

  method XorInto(a: Digest, m: Digest) returns (r: Digest)
    ensures r == XorAll(a, m)
  {
    var out := new byte[32](_ => 0);
    for i := 0 to 32
      invariant forall j :: 0 <= j < i ==> out[j] == Xor(a[j], m[j])
    {
      out[i] := Xor(a[i], m[i]);
    }
    r := out[..];
  }

  // ----- Rust

  method ComputeStages(H: Hashes, h: HeaderV2) returns (s: Stages)
    ensures s == StagesOf(H, h)
  {
    hide MaskOf, XorAll, LE32, Tagged;
    var xorKeyHash := Tagged(H, XOR_KEY_TAG, h.xorKey);
    var mask := MaskFor(H, h.xorKey, h.clearBits);
    var prevSane := Reverse(h.prev);

    var h1p := LE32(CompleteVersion(h.version)) + prevSane;
    h1p := h1p + LE32(h.height) + h.merkle + LE32(h.timeOnWire) + [0];
    h1p := h1p + LE32(h.bits) + LE32(h.txcount) + [h.flags] + [h.clearBits] + xorKeyHash;
    assert h1p == H1Payload(H, h);
    var h1 := Tagged(H, HEADER_1_TAG, h1p);

    var h2 := Tagged(H, MERGE_MINING_TAG, h1 + Zeros(32) + h.mmRhs);
    var blake1 := H.blake2b(LE32(0) + h2 + h.extranonce);

    var asic: bytes := [];
    var profile := h.flags % 4;
    if profile == 0 {
      var prevHidden := Tagged(H, PREVBLOCK_TAG, prevSane);
      asic := asic + (Zeros(6) + prevHidden[6..]);
      asic := asic + LE32(h.nonce) + LE32(h.nonce2) + LE32(h.timeOffset) + LE32(h.nonce3);
      asic := asic + blake1;
    } else if profile == 1 {
      asic := asic + LE32(h.nonce) + LE32(h.nonce2) + LE32(h.nonce3) + LE32(h.timeOffset);
      asic := asic + blake1;
      asic := asic + h2;
    } else {
      if profile == 3 {
        asic := asic + Zeros(32);
      }
      asic := asic + Zeros(48);
      asic := asic + h2;
      asic := asic + LE32(h.nonce) + LE32(h.nonce2) + LE32(h.timeOffset) + LE32(h.nonce3);
      asic := asic + blake1;
    }
    assert asic == AsicInput(H, h);
    var blake2 := H.blake2b(asic);
    var blockHash := XorInto(blake2, mask);
    s := Stages(xorKeyHash, mask, h1, h2, blake1, asic, blake2, blockHash);
  }

  // ----- Python

  /** The fields in display order, with the block's time rather than the time on the wire. */
  datatype DisplayFields = DisplayFields(
    nVersion: u32,
    hashPrevBlock: Digest,
    hashMerkleRoot: Digest,
    nTime: u32,
    nBits: u32,
    nNonce: u32,
    nonce2: u32,
    nonce3: u32,
    extranonce: Bytes16,
    timeOffset: u32,
    txcount: u16,
    flags: byte,
    clearBits: byte,
    xorKey: Bytes16,
    height: u32,
    mmRhs: Digest)

  function WireTime(f: DisplayFields): u32 {
    (f.nTime - (if f.flags / 4 % 2 == 1 then f.timeOffset else 0)) % 0x1_0000_0000
  }

  /** The header whose fields, shown, are `f`. */
  function FromDisplay(f: DisplayFields): HeaderV2 {
    HeaderV2(f.nVersion, Reverse(f.hashPrevBlock), Reverse(f.hashMerkleRoot), WireTime(f), f.nBits, f.nNonce, f.nonce2,
             f.nonce3, Reverse(f.extranonce), f.timeOffset, f.txcount, f.flags, f.clearBits, Reverse(f.xorKey),
             f.height, Reverse(f.mmRhs))
  }

  function ParseLive(raw: bytes): DisplayFields
    requires |raw| == HEADER_V2_SIZE
  {
    var flags := raw[110];
    var timeOnWire := FromLE32(raw[68..72]);
    var timeOffset := FromLE32(raw[104..108]);
    DisplayFields(
      FromLE32(raw[0..4]) % VERSION_HEADER_V2_FLAG, Reverse(raw[4..36]), Reverse(raw[36..68]),
      (timeOnWire + (if flags / 4 % 2 == 1 then timeOffset else 0)) % 0x1_0000_0000,
      FromLE32(raw[72..76]), FromLE32(raw[76..80]), FromLE32(raw[80..84]), FromLE32(raw[84..88]),
      Reverse(raw[88..104]), timeOffset, FromLE16(raw[108..110]), flags, raw[111], Reverse(raw[112..128]),
      FromLE32(raw[128..132]), Reverse(raw[132..164]))
  }

  method GetHash(H: Hashes, f: DisplayFields) returns (st: Stages)
    ensures st == StagesOf(H, FromDisplay(f))
  {
    hide MaskOf, XorAll, LE32, Tagged;
    ghost var h := FromDisplay(f);
    var xorKey := Reverse(f.xorKey);
    var xorKeyHash := Tagged(H, XOR_KEY_TAG, xorKey);
    var mask := MaskFor(H, xorKey, f.clearBits);

    var prevSane := f.hashPrevBlock;
    ReverseTwice(prevSane);
    var prevHidden := Tagged(H, PREVBLOCK_TAG, prevSane);
    var completeVersion := f.nVersion % VERSION_HEADER_V2_FLAG + VERSION_HEADER_V2_FLAG;

    var h1Payload := LE32(completeVersion) + prevSane + LE32(f.height) + Reverse(f.hashMerkleRoot) + LE32(WireTime(f))
                     + [0] + LE32(f.nBits) + LE32(f.txcount) + [f.flags, f.clearBits] + xorKeyHash;
    assert h1Payload == H1Payload(H, h);
    var h1 := Tagged(H, HEADER_1_TAG, h1Payload);
    var h2Payload := h1 + Zeros(16) + Zeros(16) + Reverse(f.mmRhs);
    assert h2Payload == H2Payload(H, h);
    var h2 := Tagged(H, MERGE_MINING_TAG, h2Payload);
    var ss := LE32(0) + h2 + Reverse(f.extranonce);
    var b1 := H.blake2b(ss);

    var profile := f.flags % 4;
    var nonces := LE32(f.nNonce) + LE32(f.nonce2);
    var asic: bytes;
    if profile == 0 {
      prevHidden := Zeros(6) + prevHidden[6..];
      asic := prevHidden + nonces + LE32(f.timeOffset) + LE32(f.nonce3) + b1;
    } else if profile == 1 {
      asic := nonces + LE32(f.nonce3) + LE32(f.timeOffset) + b1 + h2;
    } else if profile == 2 {
      asic := Zeros(16) + Zeros(16) + Zeros(16) + h2 + nonces + LE32(f.timeOffset) + LE32(f.nonce3) + b1;
    } else {
      asic := Zeros(32) + Zeros(48) + h2 + nonces + LE32(f.timeOffset) + LE32(f.nonce3) + b1;
    }
    assert asic == AsicInput(H, h);
    var b2 := H.blake2b(asic);
    var blockHash := XorInto(b2, mask);
    st := Stages(xorKeyHash, mask, h1, h2, b1, asic, b2, blockHash);
  }

  /** The derived time and the display order lose nothing: undoing both gives the header the server reads. */
  lemma PythonReadsTheSameHeader(raw: bytes)
    requires ParseV2(raw).Ok?
    ensures FromDisplay(ParseLive(raw)) == ParseV2(raw).value
  {
    hide FromLE32, FromLE16, HasV2Flag;
    ReverseTwice(raw[4..36]);
    ReverseTwice(raw[36..68]);
    ReverseTwice(raw[88..104]);
    ReverseTwice(raw[112..128]);
    ReverseTwice(raw[132..164]);
    OffsetUndone(FromLE32(raw[68..72]), FromLE32(raw[104..108]));
  }

  lemma OffsetUndone(time: u32, offset: u32)
    ensures ((time + offset) % 0x1_0000_0000 - offset) % 0x1_0000_0000 == time
  {
  }

  // ----- Java

  /** The fields that follow the first 80 bytes. */
  datatype JavaV2 = JavaV2(
    nonce2: u32,
    nonce3: u32,
    extranonce: Bytes16,
    timeOffset: u32,
    txcount: u16,
    flags: byte,
    clearBits: byte,
    xorKey: Bytes16,
    height: u32,
    mmRhs: Digest)

  /** Hashes in display order; `time` is the block's, `timeOnWire` what is serialized when there is a v2 part. */
  datatype JavaHeader = JavaHeader(
    version: u32,
    prev: Digest,
    merkle: Digest,
    time: u32,
    bits: u32,
    nonce: u32,
    v2: Option<JavaV2>,
    timeOnWire: u32)

  function JavaTime(v2: JavaV2, timeOnWire: u32): u32 {
    if v2.flags / 4 % 2 == 1 then (timeOnWire + v2.timeOffset) % 0x1_0000_0000 else timeOnWire
  }

  /** `new BlockHeader(data, offset)`. */
  function JavaRead(data: bytes, offset: nat): Result<JavaHeader, ParseError> {
    if |data| < offset + HEADER_V1_SIZE then Err(Truncated)
    else
      var b := data[offset..];
      var version := FromLE32(b[0..4]);
      var prev, merkle := Reverse(b[4..36]), Reverse(b[36..68]);
      var time, bits, nonce := FromLE32(b[68..72]), FromLE32(b[72..76]), FromLE32(b[76..80]);
      if !HasV2Flag(version) then Ok(JavaHeader(version, prev, merkle, time, bits, nonce, None, time))
      else if |b| < HEADER_V2_SIZE then Err(Truncated)
      else
        var p := b[80..];
        var v2 := JavaV2(FromLE32(p[0..4]), FromLE32(p[4..8]), p[8..24], FromLE32(p[24..28]), FromLE16(p[28..30]),
                         p[30], p[31], p[32..48], FromLE32(p[48..52]), p[52..84]);
        Ok(JavaHeader(version % VERSION_HEADER_V2_FLAG, prev, merkle, JavaTime(v2, time), bits, nonce, Some(v2), time))
  }

  /** The header a Java object stands for. */
  function View(j: JavaHeader): AnyHeader {
    match j.v2
    case None => V1(HeaderV1(j.version, Reverse(j.prev), Reverse(j.merkle), j.time, j.bits, j.nonce))
    case Some(x) =>
      V2(HeaderV2(j.version, Reverse(j.prev), Reverse(j.merkle), j.timeOnWire, j.bits, j.nonce, x.nonce2, x.nonce3,
                  x.extranonce, x.timeOffset, x.txcount, x.flags, x.clearBits, x.xorKey, x.height, x.mmRhs))
  }

  /** `bitcoinSerialize`: the stored time of a v1 header, the wire time of a v2 one. */
  method JavaSerialize(j: JavaHeader) returns (out: bytes)
    ensures out == View(j).Serialize()
  {
    var version := if j.v2.None? then j.version else CompleteVersion(j.version);
    var time := if j.v2.None? then j.time else j.timeOnWire;
    out := LE32(version) + Reverse(j.prev) + Reverse(j.merkle) + LE32(time) + LE32(j.bits) + LE32(j.nonce);
    if j.v2.Some? {
      var x := j.v2.value;
      var tail := LE32(x.nonce2) + LE32(x.nonce3) + x.extranonce + LE32(x.timeOffset) + LE16(x.txcount)
                  + [x.flags, x.clearBits] + x.xorKey + LE32(x.height) + x.mmRhs;
      out := out + tail;
    }
  }

  /** The header whose parts `computeHashDisplayOrder` is handed. */
  function Assembled(completeVersion: u32, prevDisplay: Digest, merkleWire: Digest, timeOnWire: u32, bits: u32,
                     nonce: u32, x: JavaV2): HeaderV2
  {
    HeaderV2(completeVersion % VERSION_HEADER_V2_FLAG, Reverse(prevDisplay), merkleWire, timeOnWire, bits, nonce,
             x.nonce2, x.nonce3, x.extranonce, x.timeOffset, x.txcount, x.flags, x.clearBits, x.xorKey, x.height,
             x.mmRhs)
  }

  method ComputeHashDisplayOrder(H: Hashes, completeVersion: u32, prevDisplay: Digest, merkleWire: Digest,
                                 timeOnWire: u32, bits: u32, nonce: u32, x: JavaV2)
    returns (out: Digest)
    requires HasV2Flag(completeVersion)
    ensures out == StagesOf(H,
          Assembled(completeVersion, prevDisplay, merkleWire, timeOnWire, bits, nonce, x)).blockHash
  {
    hide MaskOf, XorAll, LE32, Tagged;
    ghost var h := Assembled(completeVersion, prevDisplay, merkleWire, timeOnWire, bits, nonce, x);
    var xorKeyHash := Tagged(H, XOR_KEY_TAG, x.xorKey);
    var mask := MaskFor(H, x.xorKey, x.clearBits);
    ReverseTwice(prevDisplay);
    assert Reverse(h.prev) == prevDisplay && CompleteVersion(h.version) == completeVersion;

    var h1p := LE32(completeVersion) + prevDisplay + LE32(x.height) + merkleWire + LE32(timeOnWire);
    h1p := h1p + [0] + LE32(bits) + LE32(x.txcount) + [x.flags] + [x.clearBits] + xorKeyHash;
    assert h1p == H1Payload(H, h);
    var h1 := Tagged(H, HEADER_1_TAG, h1p);
    assert h1 == H1(H, h);
    hide H1, H1Payload, CompleteVersion, HasV2Flag;
    var h2 := Tagged(H, MERGE_MINING_TAG, h1 + Zeros(32) + x.mmRhs);
    assert h2 == H2(H, h);
    hide H2;
    var blake1 := H.blake2b(LE32(0) + h2 + x.extranonce);
    assert blake1 == Blake1(H, h);
    hide Blake1;

    var asic: bytes := [];
    var profile := x.flags % 4;
    if profile == 0 {
      var prevHidden := Tagged(H, PREVBLOCK_TAG, prevDisplay);
      asic := asic + (Zeros(6) + prevHidden[6..]);
      asic := asic + LE32(nonce) + LE32(x.nonce2) + LE32(x.timeOffset) + LE32(x.nonce3) + blake1;
    } else if profile == 1 {
      asic := asic + LE32(nonce) + LE32(x.nonce2) + LE32(x.nonce3) + LE32(x.timeOffset) + blake1 + h2;
    } else {
      if profile == 3 {
        asic := asic + Zeros(32);
      }
      asic := asic + Zeros(48) + h2;
      asic := asic + LE32(nonce) + LE32(x.nonce2) + LE32(x.timeOffset) + LE32(x.nonce3) + blake1;
    }
    assert asic == AsicInput(H, h);
    out := XorInto(H.blake2b(asic), mask);
  }

  method JavaHash(H: Hashes, j: JavaHeader) returns (out: Digest)
    requires j.v2.Some? ==> j.version < VERSION_HEADER_V2_FLAG
    ensures out == Reverse(BlockHash(H, View(j)))
  {
    hide StagesOf, SerializeV1;
    if j.v2.None? {
      var b := JavaSerialize(j);
      return Reverse(Sha256d(H, b));
    }
    out := ComputeHashDisplayOrder(H, CompleteVersion(j.version), j.prev, Reverse(j.merkle), j.timeOnWire, j.bits,
                                   j.nonce, j.v2.value);
    ReverseTwice(out);
  }

  /** The wallet reads at an offset what the server reads from the front of the rest, or fails when it does. */
  lemma JavaReadsTheSameHeader(data: bytes, offset: nat)
    requires offset <= |data|
    ensures JavaRead(data, offset).Ok? <==> Parse(data[offset..]).Ok?
    ensures JavaRead(data, offset).Ok? ==> View(JavaRead(data, offset).value) == Parse(data[offset..]).value
  {
    var b := data[offset..];
    if |b| >= HEADER_V1_SIZE {
      ReverseTwice(b[4..36]);
      ReverseTwice(b[36..68]);
      if HasV2Flag(FromLE32(b[0..4])) {
        if |b| >= HEADER_V2_SIZE {
          var a, t := b[..80], b[80..164];
          assert b[..164] == a + t;
          assert a[0..4] == b[0..4] && a[4..36] == b[4..36] && a[36..68] == b[36..68];
          assert a[68..72] == b[68..72] && a[72..76] == b[72..76] && a[76..80] == b[76..80];
          ParseV2Parts(a, t);
          SameSlices(b[80..], t);
        }
      } else {
        var a := b[..80];
        assert a[0..4] == b[0..4] && a[4..36] == b[4..36] && a[36..68] == b[36..68];
        assert a[68..72] == b[68..72] && a[72..76] == b[72..76] && a[76..80] == b[76..80];
      }
    }
  }

  /** A child shows, as its previous block, the hash its parent's stages end in. */
  lemma ChildShowsParent(H: Hashes, parent: HeaderV2, raw: bytes)
    requires ParseV2(raw).Ok? && ParseV2(raw).value.prev == BlockHash(H, V2(parent))
    ensures ParseLive(raw).hashPrevBlock == StagesOf(H, parent).blockHash
  {
    hide StagesOf, FromLE32, FromLE16, HasV2Flag;
    ReverseTwice(StagesOf(H, parent).blockHash);
  }

  /** The wallet's child holds, as its previous block, what hashing the parent returns. */
  lemma JavaChildNamesParent(H: Hashes, parent: JavaHeader, child: JavaHeader)
    ensures View(child).Prev() == BlockHash(H, View(parent)) <==> child.prev == Reverse(BlockHash(H, View(parent)))
  {
    hide BlockHash;
    ReverseTwice(child.prev);
    ReverseTwice(BlockHash(H, View(parent)));
  }

  /** Bit 2 of the flags, and no other, adds the offset modulo 2^32. */
  lemma OffsetCountsByBitTwo(h: HeaderV2)
    ensures LowBit(h.flags, 2) == 0 ==> Time(h) == h.timeOnWire
    ensures LowBit(h.flags, 2) == 1 ==> (Time(h) - h.timeOnWire - h.timeOffset) % 0x1_0000_0000 == 0
    ensures LowBit(h.flags, 2) < 2
  {
    assert LowBit(h.flags, 2) == LowBit(h.flags / 2 / 2, 0) == h.flags / 4 % 2;
  }

  /** The consensus time, derived three times over: the server's, the Python fields' and the wallet's are one. */
  lemma SameTimeEverywhere(raw: bytes)
    requires ParseV2(raw).Ok?
    ensures ParseLive(raw).nTime == Time(ParseV2(raw).value)
    ensures JavaRead(raw, 0).Ok? && JavaRead(raw, 0).value.time == Time(ParseV2(raw).value)
  {
    hide FromLE32, FromLE16, HasV2Flag;
    assert raw[0..] == raw;
    assert raw[80..][24..28] == raw[104..108] && raw[80..][30] == raw[110];
  }

  lemma SameSlices(p: bytes, t: bytes)
    requires |p| >= 84 && t == p[..84]
    ensures forall i, j :: 0 <= i <= j <= 84 ==> p[i..j] == t[i..j]
    ensures p[30] == t[30] && p[31] == t[31]
  {
    forall i, j | 0 <= i <= j <= 84
      ensures p[i..j] == t[i..j]
    {
      assert p[i..j] == p[..84][i..j];
    }
  }
}
