/**
 The staged hash commits to the whole header. Collision resistance is not assumed:
 each result says the headers are equal, or names the two inputs of SHA-256 or
 BLAKE2b, among those the stages hash, that collide.
 */
module Commitment {
  import opened Bytes
  import opened Headers
  import opened Hashing

  ghost predicate Collides(f: bytes -> Digest, a: bytes, b: bytes) {
    a != b && f(a) == f(b)
  }

  /** Two inputs of one stage collide. */
  ghost predicate StageCollision(H: Hashes, a: HeaderV2, b: HeaderV2) {
    || Collides(H.blake2b, FirstBlakeInput(H, a), FirstBlakeInput(H, b))
    || Collides(H.sha256, TagInput(H, MERGE_MINING_TAG, H2Payload(H, a)),
        TagInput(H, MERGE_MINING_TAG, H2Payload(H, b)))
    || Collides(H.sha256, TagInput(H, HEADER_1_TAG, H1Payload(H, a)), TagInput(H, HEADER_1_TAG, H1Payload(H, b)))
    || Collides(H.sha256, TagInput(H, XOR_KEY_TAG, a.xorKey), TagInput(H, XOR_KEY_TAG, b.xorKey))
  }

  /** A SHA-256 output of one header's second stage is a BLAKE2b output of the other's third. */
  ghost predicate CrossCollision(H: Hashes, a: HeaderV2, b: HeaderV2) {
    || H.blake2b(FirstBlakeInput(H, a)) == H.sha256(TagInput(H, MERGE_MINING_TAG, H2Payload(H, b)))
    || H.blake2b(FirstBlakeInput(H, b)) == H.sha256(TagInput(H, MERGE_MINING_TAG, H2Payload(H, a)))
  }

  /** What the ASIC sees outside its hashes. */
  predicate SameNonces(a: HeaderV2, b: HeaderV2) {
    a.nonce == b.nonce && a.nonce2 == b.nonce2 && a.nonce3 == b.nonce3 && a.timeOffset == b.timeOffset
  }

  lemma SplitAt(a: bytes, x: bytes, b: bytes, y: bytes)
    requires |a| == |b| && a + x == b + y
    ensures a == b && x == y
  {
    assert (a + x)[..|a|] == a && (b + y)[..|a|] == b;
    assert (a + x)[|a|..] == x && (b + y)[|a|..] == y;
  }

  lemma Four(a: bytes, b: bytes, c: bytes, d: bytes, a': bytes, b': bytes, c': bytes, d': bytes)
    requires |a| == |a'| && |b| == |b'| && |c| == |c'|
    requires a + b + c + d == a' + b' + c' + d'
    ensures a == a' && b == b' && c == c' && d == d'
  {
    SplitAt(a + b + c, d, a' + b' + c', d');
    SplitAt(a + b, c, a' + b', c');
    SplitAt(a, b, a', b');
  }

  lemma TagInputInjective(H: Hashes, tag: string, p: bytes, q: bytes)
    requires TagInput(H, tag, p) == TagInput(H, tag, q)
    ensures p == q
  {
    var t: bytes := H.sha256(Ascii(tag));
    SplitAt(t + t, p, t + t, q);
  }

  /** Equal tagged hashes have equal payloads, or collide. */
  lemma TaggedCommits(H: Hashes, tag: string, p: bytes, q: bytes)
    requires Tagged(H, tag, p) == Tagged(H, tag, q)
    ensures p == q || Collides(H.sha256, TagInput(H, tag, p), TagInput(H, tag, q))
  {
    if TagInput(H, tag, p) == TagInput(H, tag, q) {
      TagInputInjective(H, tag, p, q);
    }
  }

  lemma NoncesCommit(a: HeaderV2, b: HeaderV2)
    requires Nonces(a) == Nonces(b) || NoncesSwapped(a) == NoncesSwapped(b)
    ensures SameNonces(a, b)
  {
    hide LE32;
    if Nonces(a) == Nonces(b) {
      Four(LE32(a.nonce), LE32(a.nonce2), LE32(a.timeOffset), LE32(a.nonce3),
           LE32(b.nonce), LE32(b.nonce2), LE32(b.timeOffset), LE32(b.nonce3));
    } else {
      Four(LE32(a.nonce), LE32(a.nonce2), LE32(a.nonce3), LE32(a.timeOffset),
           LE32(b.nonce), LE32(b.nonce2), LE32(b.nonce3), LE32(b.timeOffset));
    }
    LE32Injective(a.nonce, b.nonce);
    LE32Injective(a.nonce2, b.nonce2);
    LE32Injective(a.nonce3, b.nonce3);
    LE32Injective(a.timeOffset, b.timeOffset);
  }

  /** With one profile, the ASIC input pins the nonces and the first BLAKE2b output. */
  lemma AsicCommits(H: Hashes, a: HeaderV2, b: HeaderV2)
    requires a.flags % 4 == b.flags % 4 && AsicInput(H, a) == AsicInput(H, b)
    ensures SameNonces(a, b) && Blake1(H, a) == Blake1(H, b)
  {
    hide LE32, Blake1, H2, Tagged, Nonces, NoncesSwapped;
    var profile := a.flags % 4;
    if profile == 0 {
      var p, q := Tagged(H, PREVBLOCK_TAG, Reverse(a.prev)), Tagged(H, PREVBLOCK_TAG, Reverse(b.prev));
      Four(Zeros(6), p[6..], Nonces(a), Blake1(H, a), Zeros(6), q[6..], Nonces(b), Blake1(H, b));
    } else if profile == 1 {
      SplitAt(NoncesSwapped(a) + Blake1(H, a), H2(H, a), NoncesSwapped(b) + Blake1(H, b), H2(H, b));
      SplitAt(NoncesSwapped(a), Blake1(H, a), NoncesSwapped(b), Blake1(H, b));
    } else {
      var z := Zeros(if profile == 3 then 80 else 48);
      Four(z, H2(H, a), Nonces(a), Blake1(H, a), z, H2(H, b), Nonces(b), Blake1(H, b));
    }
    NoncesCommit(a, b);
  }

  /**
   Four profiles, but only profiles 0 and 1 have inputs of one length; those two would have
   to cross hash functions.
   */
  lemma ProfilesCommit(H: Hashes, a: HeaderV2, b: HeaderV2)
    requires AsicInput(H, a) == AsicInput(H, b)
    ensures a.flags % 4 == b.flags % 4 || CrossCollision(H, a, b)
  {
    hide LE32, Tagged, Nonces, NoncesSwapped;
    var p, q := a.flags % 4, b.flags % 4;
    if p == 0 && q == 1 {
      ZeroAgainstOne(H, a, b);
    } else if p == 1 && q == 0 {
      ZeroAgainstOne(H, b, a);
    }
  }

  lemma ZeroAgainstOne(H: Hashes, a: HeaderV2, b: HeaderV2)
    requires a.flags % 4 == 0 && b.flags % 4 == 1 && AsicInput(H, a) == AsicInput(H, b)
    ensures CrossCollision(H, a, b)
  {
    hide LE32, Nonces, NoncesSwapped, Blake1, H2;
    var hidden := Tagged(H, PREVBLOCK_TAG, Reverse(a.prev));
    SplitAt(Zeros(6) + hidden[6..] + Nonces(a), Blake1(H, a), NoncesSwapped(b) + Blake1(H, b), H2(H, b));
    assert Blake1(H, a) == H2(H, b);
    Unfold(H, a, b);
  }

  lemma Unfold(H: Hashes, a: HeaderV2, b: HeaderV2)
    ensures Blake1(H, a) == H.blake2b(FirstBlakeInput(H, a))
    ensures H2(H, b) == H.sha256(TagInput(H, MERGE_MINING_TAG, H2Payload(H, b)))
  {
  }

  /** The first BLAKE2b output pins the extra nonce and the merge-mining stage. */
  lemma Blake1Commits(H: Hashes, a: HeaderV2, b: HeaderV2)
    requires Blake1(H, a) == Blake1(H, b)
    ensures (H2(H, a) == H2(H, b) && a.extranonce == b.extranonce) || StageCollision(H, a, b)
  {
    hide H2;
    if FirstBlakeInput(H, a) == FirstBlakeInput(H, b) {
      SplitAt(LE32(0) + H2(H, a), a.extranonce, LE32(0) + H2(H, b), b.extranonce);
      SplitAt(LE32(0), H2(H, a), LE32(0), H2(H, b));
    }
  }

  lemma H2Commits(H: Hashes, a: HeaderV2, b: HeaderV2)
    requires H2(H, a) == H2(H, b)
    ensures (H1(H, a) == H1(H, b) && a.mmRhs == b.mmRhs) || StageCollision(H, a, b)
  {
    hide H1, TagInput;
    TaggedCommits(H, MERGE_MINING_TAG, H2Payload(H, a), H2Payload(H, b));
    if H2Payload(H, a) == H2Payload(H, b) {
      SplitAt(H1(H, a) + Zeros(32), a.mmRhs, H1(H, b) + Zeros(32), b.mmRhs);
      SplitAt(H1(H, a), Zeros(32), H1(H, b), Zeros(32));
    }
  }

  /** The fields that the first stage hashes. */
  predicate SameFirstStage(a: HeaderV2, b: HeaderV2) {
    && a.version == b.version && a.prev == b.prev && a.height == b.height && a.merkle == b.merkle
    && a.timeOnWire == b.timeOnWire && a.bits == b.bits && a.txcount == b.txcount && a.flags == b.flags
    && a.clearBits == b.clearBits && a.xorKey == b.xorKey
  }

  lemma H1Commits(H: Hashes, a: HeaderV2, b: HeaderV2)
    requires a.version < VERSION_HEADER_V2_FLAG && b.version < VERSION_HEADER_V2_FLAG
    requires H1(H, a) == H1(H, b)
    ensures SameFirstStage(a, b) || StageCollision(H, a, b)
  {
    hide TagInput, Tagged;
    H1Unfolds(H, a);
    H1Unfolds(H, b);
    TaggedCommits(H, HEADER_1_TAG, H1Payload(H, a), H1Payload(H, b));
    if H1Payload(H, a) == H1Payload(H, b) {
      PayloadCommits(H, a, b);
      TaggedCommits(H, XOR_KEY_TAG, a.xorKey, b.xorKey);
    }
  }

  lemma H1Unfolds(H: Hashes, a: HeaderV2)
    ensures H1(H, a) == Tagged(H, HEADER_1_TAG, H1Payload(H, a))
  {
  }

  lemma PayloadCommits(H: Hashes, a: HeaderV2, b: HeaderV2)
    requires a.version < VERSION_HEADER_V2_FLAG && b.version < VERSION_HEADER_V2_FLAG
    requires H1Payload(H, a) == H1Payload(H, b)
    ensures SameFirstStage(a.(xorKey := b.xorKey), b)
    ensures Tagged(H, XOR_KEY_TAG, a.xorKey) == Tagged(H, XOR_KEY_TAG, b.xorKey)
  {
    hide LE32, Tagged;
    var (a1, a2, a3) := PayloadParts(H, a);
    var (b1, b2, b3) := PayloadParts(H, b);
    SplitAt(a1 + a2, a3, b1 + b2, b3);
    SplitAt(a1, a2, b1, b2);
    Four(LE32(CompleteVersion(a.version)), Reverse(a.prev), LE32(a.height), a.merkle,
         LE32(CompleteVersion(b.version)), Reverse(b.prev), LE32(b.height), b.merkle);
    Four(LE32(a.timeOnWire), [0], LE32(a.bits), LE32(a.txcount), LE32(b.timeOnWire), [0], LE32(b.bits),
        LE32(b.txcount));
    SplitAt([a.flags, a.clearBits], Tagged(H, XOR_KEY_TAG, a.xorKey), [b.flags, b.clearBits],
        Tagged(H, XOR_KEY_TAG, b.xorKey));
    assert [a.flags, a.clearBits][0] == [b.flags, b.clearBits][0]
        && [a.flags, a.clearBits][1] == [b.flags, b.clearBits][1];
    ReverseInjective(a.prev, b.prev);
    LE32Injective(CompleteVersion(a.version), CompleteVersion(b.version));
    LE32Injective(a.height, b.height);
    LE32Injective(a.timeOnWire, b.timeOnWire);
    LE32Injective(a.bits, b.bits);
    LE32Injective(a.txcount, b.txcount);
  }

  /** The first stage's payload in three pieces of fixed length. */
  ghost function PayloadParts(H: Hashes, h: HeaderV2): (parts: (bytes, bytes, bytes))
    ensures |parts.0| == 72 && |parts.1| == 13 && parts.0 + parts.1 + parts.2 == H1Payload(H, h)
  {
    var p := LE32(CompleteVersion(h.version)) + Reverse(h.prev) + LE32(h.height) + h.merkle;
    var q := LE32(h.timeOnWire) + [0] + LE32(h.bits) + LE32(h.txcount);
    var r := [h.flags, h.clearBits] + Tagged(H, XOR_KEY_TAG, h.xorKey);
    assert p + q + r == H1Payload(H, h);
    (p, q, r)
  }

  /** Equal ASIC inputs: the same header in all sixteen fields, or an explicit collision. */
  lemma AsicInputCommitsToHeader(H: Hashes, a: HeaderV2, b: HeaderV2)
    requires a.version < VERSION_HEADER_V2_FLAG && b.version < VERSION_HEADER_V2_FLAG
    requires AsicInput(H, a) == AsicInput(H, b)
    ensures a == b || StageCollision(H, a, b) || CrossCollision(H, a, b)
    ensures a.flags % 4 == b.flags % 4 ==> a == b || StageCollision(H, a, b)
  {
    hide AsicInput, StageCollision, CrossCollision, Blake1, H1, H2;
    ProfilesCommit(H, a, b);
    if a.flags % 4 == b.flags % 4 {
      AsicCommits(H, a, b);
      Blake1Commits(H, a, b);
      if !StageCollision(H, a, b) {
        H2Commits(H, a, b);
        H1Commits(H, a, b);
      }
    }
  }

  /**
   The block hash commits too, when the two headers use one mask: always so for solo
   miners, whose null key makes the mask zero.
   */
  lemma BlockHashCommitsToHeader(H: Hashes, a: HeaderV2, b: HeaderV2)
    requires a.version < VERSION_HEADER_V2_FLAG && b.version < VERSION_HEADER_V2_FLAG
    requires BlockHash(H, V2(a)) == BlockHash(H, V2(b))
    requires MaskOf(H, a.xorKey, a.clearBits) == MaskOf(H, b.xorKey, b.clearBits)
    ensures || a == b || StageCollision(H, a, b) || CrossCollision(H, a, b)
            || Collides(H.blake2b, AsicInput(H, a), AsicInput(H, b))
  {
    hide AsicInput, StageCollision, CrossCollision, MaskOf, XorAll;
    ReverseInjective(StagesOf(H, a).blockHash, StagesOf(H, b).blockHash);
    XorAllCancels(H.blake2b(AsicInput(H, a)), H.blake2b(AsicInput(H, b)), MaskOf(H, a.xorKey, a.clearBits));
    if AsicInput(H, a) == AsicInput(H, b) {
      AsicInputCommitsToHeader(H, a, b);
    }
  }
}
