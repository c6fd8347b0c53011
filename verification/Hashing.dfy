/**
 The block hash of either format. A v2 hash is a staged computation ending in two
 BLAKE2b passes; it is written three times in the repository, and the three agree.
 SHA-256 and BLAKE2b are left uninterpreted: any pair of functions to 32 bytes.
 */
module Hashing {
  import opened Bits
  import opened Bytes
  import opened Headers

  datatype Hashes = Hashes(sha256: bytes -> Digest, blake2b: bytes -> Digest)

  const XOR_KEY_TAG := "Bitcoin block hash PoW XOR key"
  const XOR_MASK_TAG := "Bitcoin block hash PoW XOR mask"
  const PREVBLOCK_TAG := "Bitcoin prevblock header, hashed"
  const HEADER_1_TAG := "Bitcoin block header 1"
  const MERGE_MINING_TAG := "Merge-mining hook"

  /** The tags are ASCII, so each character is one byte. */
  function Ascii(s: string): bytes {
    seq(|s|, i requires 0 <= i < |s| => s[i] as int % 0x100)
  }

  function TagInput(H: Hashes, tag: string, payload: bytes): bytes {
    H.sha256(Ascii(tag)) + H.sha256(Ascii(tag)) + payload
  }

  /** The tagged hash of BIP 340. */
  function Tagged(H: Hashes, tag: string, payload: bytes): Digest {
    H.sha256(TagInput(H, tag, payload))
  }

  function Sha256d(H: Hashes, b: bytes): Digest {
    H.sha256(H.sha256(b))
  }

  // ----- the stages of a v2 hash

  datatype Stages = Stages(
    xorKeyHash: Digest,
    mask: Digest,
    h1: Digest,
    h2: Digest,
    blake1: Digest,
    asicInput: bytes,
    blake2: Digest,
    blockHash: Digest) // display order

  /** The first `clearBits` bits cleared: whole bytes first, then the leading bits of the next one. */
  function Masked(m: Digest, clearBits: byte): Digest {
    var n := clearBits / 8;
    Zeros(n) + [And(m[n], OnesShifted(clearBits % 8))] + m[n + 1..]
  }

  /** No key means no mask, which is the solo miner's case. */
  function MaskOf(H: Hashes, xorKey: Bytes16, clearBits: byte): Digest {
    if xorKey == Zeros(16) then Zeros(32) else Masked(Tagged(H, XOR_MASK_TAG, xorKey), clearBits)
  }

  function XorAll(a: Digest, m: Digest): Digest {
    seq(32, i requires 0 <= i < 32 => Xor(a[i], m[i]))
  }

  function H1Payload(H: Hashes, h: HeaderV2): (b: bytes)
    ensures |b| == 119
  {
    LE32(CompleteVersion(h.version)) + Reverse(h.prev) + LE32(h.height) + h.merkle + LE32(h.timeOnWire) + [0]
    + LE32(h.bits) + LE32(h.txcount) + [h.flags, h.clearBits] + Tagged(H, XOR_KEY_TAG, h.xorKey)
  }

  function H1(H: Hashes, h: HeaderV2): Digest {
    Tagged(H, HEADER_1_TAG, H1Payload(H, h))
  }

  function H2Payload(H: Hashes, h: HeaderV2): (b: bytes)
    ensures |b| == 96
  {
    H1(H, h) + Zeros(32) + h.mmRhs
  }

  function H2(H: Hashes, h: HeaderV2): Digest {
    Tagged(H, MERGE_MINING_TAG, H2Payload(H, h))
  }

  function FirstBlakeInput(H: Hashes, h: HeaderV2): (b: bytes)
    ensures |b| == 52
  {
    LE32(0) + H2(H, h) + h.extranonce
  }

  function Blake1(H: Hashes, h: HeaderV2): Digest {
    H.blake2b(FirstBlakeInput(H, h))
  }

  function Nonces(h: HeaderV2): (b: bytes)
    ensures |b| == 16
  {
    LE32(h.nonce) + LE32(h.nonce2) + LE32(h.timeOffset) + LE32(h.nonce3)
  }

  /** Profile 1 puts the third nonce before the time offset. */
  function NoncesSwapped(h: HeaderV2): (b: bytes)
    ensures |b| == 16
  {
    LE32(h.nonce) + LE32(h.nonce2) + LE32(h.nonce3) + LE32(h.timeOffset)
  }

  function AsicInput(H: Hashes, h: HeaderV2): bytes {
    var blake1 := Blake1(H, h);
    var profile := h.flags % 4;
    if profile == 0 then
      Zeros(6) + Tagged(H, PREVBLOCK_TAG, Reverse(h.prev))[6..] + Nonces(h) + blake1
    else if profile == 1 then
      NoncesSwapped(h) + blake1 + H2(H, h)
    else
      Zeros(if profile == 3 then 80 else 48) + H2(H, h) + Nonces(h) + blake1
  }

  function StagesOf(H: Hashes, h: HeaderV2): Stages {
    var mask := MaskOf(H, h.xorKey, h.clearBits);
    var blake2 := H.blake2b(AsicInput(H, h));
    Stages(Tagged(H, XOR_KEY_TAG, h.xorKey), mask, H1(H, h), H2(H, h), Blake1(H, h), AsicInput(H, h), blake2,
           XorAll(blake2, mask))
  }

  /** The identity of a header, in the byte order headers carry it. */
  function BlockHash(H: Hashes, h: AnyHeader): Digest {
    match h
    case V1(v) => Sha256d(H, SerializeV1(v))
    case V2(v) => Reverse(StagesOf(H, v).blockHash)
  }

  // ----- the inputs of each stage, byte by byte

  /** A BIP 340 tagged hash. */
  predicate IsTagged(H: Hashes, d: Digest, tag: string, payload: bytes) {
    var t := H.sha256(Ascii(tag));
    d == H.sha256(t + t + payload)
  }

  /** The 119 bytes the first stage hashes, by offset. */
  lemma LayoutOfFirstStage(H: Hashes, h: HeaderV2)
    ensures var p := H1Payload(H, h);
            && p[0..4] == LE32(CompleteVersion(h.version)) && p[4..36] == Reverse(h.prev)
            && p[36..40] == LE32(h.height) && p[40..72] == h.merkle
            && p[72..76] == LE32(h.timeOnWire) && p[76] == 0 && p[77..81] == LE32(h.bits)
            && p[81..85] == LE32(h.txcount) && p[85] == h.flags && p[86] == h.clearBits
            && p[87..119] == StagesOf(H, h).xorKeyHash
  {
    hide LE32, CompleteVersion, Reverse, Tagged, MaskOf, XorAll, H1, H2, Blake1, AsicInput;
    var x := LE32(CompleteVersion(h.version)) + Reverse(h.prev) + LE32(h.height) + h.merkle;
    var y := LE32(h.timeOnWire) + [0] + LE32(h.bits) + LE32(h.txcount);
    var z := [h.flags, h.clearBits] + Tagged(H, XOR_KEY_TAG, h.xorKey);
    assert H1Payload(H, h) == x + y + z;
    FirstPart(LE32(CompleteVersion(h.version)), Reverse(h.prev), LE32(h.height), h.merkle);
    SecondPart(LE32(h.timeOnWire), LE32(h.bits), LE32(h.txcount));
    Offsets(x, y, z);
  }

  lemma FirstPart(a: bytes, b: bytes, c: bytes, d: bytes)
    requires |a| == |c| == 4 && |b| == |d| == 32
    ensures var x := a + b + c + d; |x| == 72 && x[0..4] == a && x[4..36] == b && x[36..40] == c && x[40..72] == d
  {
  }

  lemma SecondPart(a: bytes, b: bytes, c: bytes)
    requires |a| == |b| == |c| == 4
    ensures var y := a + [0] + b + c; |y| == 13 && y[0..4] == a && y[4] == 0 && y[5..9] == b && y[9..13] == c
  {
  }

  lemma Offsets(x: bytes, y: bytes, z: bytes)
    requires |x| == 72 && |y| == 13 && |z| == 34
    ensures var p := x + y + z;
            && (forall i, j :: 0 <= i <= j <= 72 ==> p[i..j] == x[i..j])
            && p[72..76] == y[0..4] && p[76] == y[4] && p[77..81] == y[5..9] && p[81..85] == y[9..13]
            && p[85] == z[0] && p[86] == z[1] && p[87..119] == z[2..34]
  {
    forall i, j | 0 <= i <= j <= 72
      ensures (x + y + z)[i..j] == x[i..j]
    {
    }
  }

  /** How one stage feeds the next: the tags, in their own words, and the bytes around each digest. */
  lemma LayoutOfStages(H: Hashes, h: HeaderV2)
    ensures var s := StagesOf(H, h);
            && IsTagged(H, s.xorKeyHash, "Bitcoin block hash PoW XOR key", h.xorKey)
            && IsTagged(H, s.h1, "Bitcoin block header 1", H1Payload(H, h))
            && IsTagged(H, s.h2, "Merge-mining hook", s.h1 + Zeros(32) + h.mmRhs)
            && s.blake1 == H.blake2b(Zeros(4) + s.h2 + h.extranonce)
            && s.blake2 == H.blake2b(s.asicInput)
    ensures forall i :: 0 <= i < 32 ==> BlockHash(H, V2(h))[i] == StagesOf(H, h).blockHash[31 - i]
  {
    hide LE32, MaskOf, XorAll, H1Payload, AsicInput;
    FourZeros();
  }

  lemma FourZeros()
    ensures LE32(0) == Zeros(4)
  {
  }

  /** From `base` on: the nonce and its three companions in this order, then the first BLAKE2b digest. */
  predicate NoncesAt(q: bytes, base: nat, h: HeaderV2, third: u32, fourth: u32, blake1: Digest) {
    && |q| >= base + 48
    && q[base..base + 4] == LE32(h.nonce) && q[base + 4..base + 8] == LE32(h.nonce2)
    && q[base + 8..base + 12] == LE32(third) && q[base + 12..base + 16] == LE32(fourth)
    && q[base + 16..base + 48] == blake1
  }

  lemma NoncesLie(pre: bytes, h: HeaderV2, third: u32, fourth: u32, blake1: Digest, rest: bytes)
    ensures var n := LE32(h.nonce) + LE32(h.nonce2) + LE32(third) + LE32(fourth);
            var q := pre + n + blake1 + rest;
            && NoncesAt(q, |pre|, h, third, fourth, blake1)
            && |q| == |pre| + 48 + |rest| && q[..|pre|] == pre && q[|pre| + 48..] == rest
  {
    hide LE32;
    var n := LE32(h.nonce) + LE32(h.nonce2) + LE32(third) + LE32(fourth);
    var q := pre + n + blake1 + rest;
    FourWords(LE32(h.nonce), LE32(h.nonce2), LE32(third), LE32(fourth));
    forall i, j | 0 <= i <= j <= 16
      ensures q[|pre| + i..|pre| + j] == n[i..j]
    {
    }
    assert q[|pre| + 0..|pre| + 4] == n[0..4];
    assert q[|pre| + 16..|pre| + 48] == blake1;
  }

  lemma FourWords(a: bytes, b: bytes, c: bytes, d: bytes)
    requires |a| == |b| == |c| == |d| == 4
    ensures var n := a + b + c + d; n[0..4] == a && n[4..8] == b && n[8..12] == c && n[12..16] == d
  {
  }

  /** What the ASIC sees under profile 0: the hidden previous block, the time offset third, 80 bytes. */
  lemma LayoutOfProfile0(H: Hashes, h: HeaderV2)
    requires h.flags % 4 == 0
    ensures var q := StagesOf(H, h).asicInput;
            && |q| == 80 && NoncesAt(q, 32, h, h.timeOffset, h.nonce3, StagesOf(H, h).blake1)
            && exists hidden: Digest ::
                 && IsTagged(H, hidden, "Bitcoin prevblock header, hashed", Reverse(h.prev))
                 && q[..32] == Zeros(6) + hidden[6..]
  {
    hide LE32, MaskOf, XorAll, Blake1, H1, H2, NoncesAt;
    var hidden := Tagged(H, PREVBLOCK_TAG, Reverse(h.prev));
    assert IsTagged(H, hidden, "Bitcoin prevblock header, hashed", Reverse(h.prev));
    NoncesLie(Zeros(6) + hidden[6..], h, h.timeOffset, h.nonce3, Blake1(H, h), []);
    assert AsicInput(H, h) == AsicInput(H, h) + [];
  }

  /** Under profile 1: the third nonce third, then both digests, 80 bytes. */
  lemma LayoutOfProfile1(H: Hashes, h: HeaderV2)
    requires h.flags % 4 == 1
    ensures var q := StagesOf(H, h).asicInput;
            && |q| == 80 && NoncesAt(q, 0, h, h.nonce3, h.timeOffset, StagesOf(H, h).blake1)
            && q[48..] == StagesOf(H, h).h2
  {
    hide LE32, MaskOf, XorAll, Blake1, H1, H2, NoncesAt;
    NoncesLie([], h, h.nonce3, h.timeOffset, Blake1(H, h), H2(H, h));
    assert AsicInput(H, h) == [] + NoncesSwapped(h) + Blake1(H, h) + H2(H, h);
  }

  /** Under profiles 2 and 3: zeros, the second digest, the time offset third, 128 and 160 bytes. */
  lemma LayoutOfProfiles2And3(H: Hashes, h: HeaderV2)
    requires h.flags % 4 >= 2
    ensures var q := StagesOf(H, h).asicInput;
            var zeros: nat := if h.flags % 4 == 2 then 48 else 80;
            && |q| == zeros + 80 && NoncesAt(q, zeros + 32, h, h.timeOffset, h.nonce3, StagesOf(H, h).blake1)
            && q[..zeros] == Zeros(zeros) && q[zeros..zeros + 32] == StagesOf(H, h).h2
  {
    hide LE32, MaskOf, XorAll, Blake1, H1, H2, NoncesAt;
    var zeros := Zeros(if h.flags % 4 == 2 then 48 else 80);
    NoncesLie(zeros + H2(H, h), h, h.timeOffset, h.nonce3, Blake1(H, h), []);
    assert AsicInput(H, h) == AsicInput(H, h) + [];
    FrontOfPair(zeros, H2(H, h), AsicInput(H, h));
  }

  lemma FrontOfPair(a: bytes, b: bytes, q: bytes)
    requires a + b <= q
    ensures q[..|a|] == a && q[|a|..|a| + |b|] == b
  {
    assert q[..|a| + |b|] == a + b;
    assert (a + b)[..|a|] == a && (a + b)[|a|..] == b;
  }

  /** A v1 header's hash is SHA-256 twice over its 80 bytes. */
  lemma V1HashIsDoubleSha(H: Hashes, h: HeaderV1)
    ensures BlockHash(H, V1(h)) == H.sha256(H.sha256(SerializeV1(h)))
  {
  }

  // ----- the mask clears exactly the leading bits

  function DigestBit(d: Digest, i: nat): nat
    requires i < 256
  {
    Bit(d[i / 8], i % 8)
  }

  lemma MaskBits(m: Digest, clearBits: byte, i: nat)
    requires i < 256
    ensures DigestBit(Masked(m, clearBits), i) == if i < clearBits then 0 else DigestBit(m, i)
  {
    var n := clearBits / 8;
    if i / 8 < n {
      assert Masked(m, clearBits)[i / 8] == 0;
      ZeroBits(7 - i % 8);
    } else if i / 8 == n {
      AndClearsLeadingBits(m[n], clearBits % 8, i % 8);
    } else {
      assert Masked(m, clearBits)[i / 8] == m[i / 8];
    }
  }

  /** The bits the miner's key may not touch are those of the second BLAKE2b pass, whatever the key. */
  lemma LeadingBitsSurvive(H: Hashes, h: HeaderV2, i: nat)
    requires i < h.clearBits || (h.xorKey == Zeros(16) && i < 256)
    ensures DigestBit(StagesOf(H, h).mask, i) == 0
    ensures DigestBit(StagesOf(H, h).blockHash, i) == DigestBit(StagesOf(H, h).blake2, i)
  {
    if h.xorKey == Zeros(16) {
      ZeroBits(7 - i % 8);
    } else {
      MaskBits(Tagged(H, XOR_MASK_TAG, h.xorKey), h.clearBits, i);
    }
    XorKeepsBit(StagesOf(H, h).blake2[i / 8], StagesOf(H, h).mask[i / 8], i % 8);
  }

  /**
   With a key, the mask is the tagged hash of the key with its leading bits cleared, bit for
   bit, and each bit of the block hash is the sum modulo 2 of the mask's and the digest's.
   */
  lemma KeyReachesTheHash(H: Hashes, h: HeaderV2, i: nat)
    requires i < 256
    ensures var t := H.sha256(Ascii("Bitcoin block hash PoW XOR mask"));
            h.xorKey != Zeros(16) ==>
              DigestBit(StagesOf(H, h).mask, i)
              == if i < h.clearBits then 0 else DigestBit(H.sha256(t + t + h.xorKey), i)
    ensures var s := StagesOf(H, h);
            DigestBit(s.blockHash, i) == (DigestBit(s.mask, i) + DigestBit(s.blake2, i)) % 2
  {
    hide AsicInput, H1, H2, Blake1, Masked;
    var s := StagesOf(H, h);
    if h.xorKey != Zeros(16) {
      MaskBits(Tagged(H, XOR_MASK_TAG, h.xorKey), h.clearBits, i);
    }
    XorBit(s.blake2[i / 8], s.mask[i / 8], i % 8);
  }

  /** Without a key the block hash is the second BLAKE2b digest itself. */
  lemma NullKeyLeavesDigest(H: Hashes, h: HeaderV2)
    requires h.xorKey == Zeros(16)
    ensures StagesOf(H, h).blockHash == StagesOf(H, h).blake2
  {
    hide AsicInput, H1, H2, Blake1, Tagged;
    var blake2 := H.blake2b(AsicInput(H, h));
    forall i | 0 <= i < 32
      ensures XorAll(blake2, Zeros(32))[i] == blake2[i]
    {
      XorZero(blake2[i]);
    }
  }

  lemma XorAllCancels(a: Digest, b: Digest, m: Digest)
    requires XorAll(a, m) == XorAll(b, m)
    ensures a == b
  {
    forall i | 0 <= i < 32
      ensures a[i] == b[i]
    {
      assert XorAll(a, m)[i] == XorAll(b, m)[i];
      XorCancels(a[i], b[i], m[i]);
    }
  }
}
