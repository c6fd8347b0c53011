/**
 The two block header formats and the run of mixed headers: 80 bytes (v1) or 164
 bytes (v2), told apart by bit 31 of the version field alone.
 */
module Headers {
  import opened Bytes

  const VERSION_HEADER_V2_FLAG: u32 := 0x8000_0000
  const HEADER_V1_SIZE := 80
  const HEADER_V2_SIZE := 164

  datatype HeaderV1 = HeaderV1(version: u32, prev: Digest, merkle: Digest, time: u32, bits: u32, nonce: u32)

  datatype HeaderV2 = HeaderV2(
    version: u32, // without the v2 flag
    prev: Digest,
    merkle: Digest,
    timeOnWire: u32,
    bits: u32,
    nonce: u32,
    nonce2: u32,
    nonce3: u32,
    extranonce: Bytes16,
    timeOffset: u32,
    txcount: u16,
    flags: byte,
    clearBits: byte,
    xorKey: Bytes16,
    height: u32,
    mmRhs: Digest)

  datatype AnyHeader = V1(v1: HeaderV1) | V2(v2: HeaderV2) {
    predicate IsV2() {
      V2?
    }

    function Size(): (n: nat)
      ensures n == HEADER_V1_SIZE || n == HEADER_V2_SIZE
    {
      if V2? then HEADER_V2_SIZE else HEADER_V1_SIZE
    }

    function Prev(): Digest {
      match this
      case V1(h) => h.prev
      case V2(h) => h.prev
    }

    function MerkleRoot(): Digest {
      match this
      case V1(h) => h.merkle
      case V2(h) => h.merkle
    }

    function Serialize(): (b: bytes)
      ensures |b| == Size()
    {
      match this
      case V1(h) => SerializeV1(h)
      case V2(h) => WireV2(h)
    }

    /** The bit that carries the format is clear in the version number itself. */
    predicate SelfDescribing() {
      match this
      case V1(h) => h.version < VERSION_HEADER_V2_FLAG
      case V2(h) => h.version < VERSION_HEADER_V2_FLAG
    }
  }

  datatype ParseError = NoVersion | Truncated | WrongLength | NotV2 | NotAHeader

  predicate HasV2Flag(version: u32) {
    version / VERSION_HEADER_V2_FLAG % 2 == 1
  }

  function CompleteVersion(version: u32): u32 {
    version % VERSION_HEADER_V2_FLAG + VERSION_HEADER_V2_FLAG
  }

  /** `time()`: the wire value plus the offset modulo 2^32 when bit 2 of the flags asks for it. */
  function Time(h: HeaderV2): u32 {
    if h.flags / 4 % 2 == 1 then (h.timeOnWire + h.timeOffset) % 0x1_0000_0000 else h.timeOnWire
  }

  // ----- the codecs

  function SerializeV1(h: HeaderV1): (b: bytes)
    ensures |b| == HEADER_V1_SIZE
  {
    LE32(h.version) + h.prev + h.merkle + LE32(h.time) + LE32(h.bits) + LE32(h.nonce)
  }

  function ParseV1(b: bytes): HeaderV1
    requires |b| == HEADER_V1_SIZE
  {
    HeaderV1(FromLE32(b[0..4]), b[4..36], b[36..68], FromLE32(b[68..72]), FromLE32(b[72..76]), FromLE32(b[76..80]))
  }

  /** The six fields that both formats share, as the v2 wire form carries them. */
  function Head(h: HeaderV2): HeaderV1 {
    HeaderV1(CompleteVersion(h.version), h.prev, h.merkle, h.timeOnWire, h.bits, h.nonce)
  }

  /** The 84 bytes a v2 header adds. */
  function Tail(h: HeaderV2): (b: bytes)
    ensures |b| == HEADER_V2_SIZE - HEADER_V1_SIZE
  {
    LE32(h.nonce2) + LE32(h.nonce3) + h.extranonce + LE32(h.timeOffset) + LE16(h.txcount)
    + [h.flags, h.clearBits] + h.xorKey + LE32(h.height) + h.mmRhs
  }

  function WireV2(h: HeaderV2): (b: bytes)
    ensures |b| == HEADER_V2_SIZE
  {
    SerializeV1(Head(h)) + Tail(h)
  }

  function ParseV2(b: bytes): Result<HeaderV2, ParseError> {
    if |b| != HEADER_V2_SIZE then Err(WrongLength)
    else if !HasV2Flag(FromLE32(b[0..4])) then Err(NotV2)
    else Ok(HeaderV2(
              FromLE32(b[0..4]) % VERSION_HEADER_V2_FLAG, b[4..36], b[36..68],
              FromLE32(b[68..72]), FromLE32(b[72..76]), FromLE32(b[76..80]),
              FromLE32(b[80..84]), FromLE32(b[84..88]), b[88..104], FromLE32(b[104..108]),
              FromLE16(b[108..110]), b[110], b[111], b[112..128], FromLE32(b[128..132]), b[132..164]))
  }

  function HeaderSize(b: bytes): (r: Result<nat, ParseError>)
    ensures r.Ok? ==> r.value == HEADER_V1_SIZE || r.value == HEADER_V2_SIZE
  {
    if |b| < 4 then Err(NoVersion)
    else if HasV2Flag(FromLE32(b[0..4])) then Ok(HEADER_V2_SIZE)
    else Ok(HEADER_V1_SIZE)
  }

  /** `AnyHeader::parse`: one header from the front, its length from its version field; the rest is ignored. */
  function Parse(b: bytes): Result<AnyHeader, ParseError> {
    match HeaderSize(b)
    case Err(e) => Err(e)
    case Ok(n) =>
      if |b| < n then Err(Truncated)
      else if n == HEADER_V1_SIZE then Ok(V1(ParseV1(b[..n])))
      else match ParseV2(b[..n])
           case Err(e) => Err(e)
           case Ok(h) => Ok(V2(h))
  }

  /** `AnyHeader::parse_exact`: the length of the row decides the format. */
  function ParseExact(b: bytes): Result<AnyHeader, ParseError> {
    if |b| == HEADER_V1_SIZE then Ok(V1(ParseV1(b)))
    else if |b| == HEADER_V2_SIZE then
      match ParseV2(b)
      case Err(e) => Err(e)
      case Ok(h) => Ok(V2(h))
    else Err(NotAHeader)
  }

  /** What `parse_all` returns, stated by recursion on the bytes left. */
  function ParseAllSpec(b: bytes): Result<seq<AnyHeader>, ParseError>
    decreases |b|
  {
    if b == [] then Ok([])
    else match HeaderSize(b)
         case Err(e) => Err(e)
         case Ok(n) =>
           if |b| < n then Err(Truncated)
           else match Parse(b[..n])
                case Err(e) => Err(e)
                case Ok(h) =>
                  match ParseAllSpec(b[n..])
                  case Err(e) => Err(e)
                  case Ok(rest) => Ok([h] + rest)
  }

  /** `AnyHeader::parse_all`, walking the run until it is used up. */
  method ParseAll(run: bytes) returns (r: Result<seq<AnyHeader>, ParseError>)
    ensures r == ParseAllSpec(run)
  {
    var b := run;
    var out: seq<AnyHeader> := [];
    assert forall hs: seq<AnyHeader> :: out + hs == hs;
    while b != []
      invariant ParseAllSpec(run) == match ParseAllSpec(b)
                                     case Err(e) => Err(e)
                                     case Ok(rest) => Ok(out + rest)
      decreases |b|
    {
      var n := HeaderSize(b);
      if n.Err? {
        return Err(n.error);
      }
      if |b| < n.value {
        return Err(Truncated);
      }
      var h := Parse(b[..n.value]);
      if h.Err? {
        return Err(h.error);
      }
      ghost var before := out;
      out := out + [h.value];
      b := b[n.value..];
      assert forall rest: seq<AnyHeader> :: before + ([h.value] + rest) == out + rest;
    }
    assert out + [] == out;
    r := Ok(out);
  }

  /** `HeaderV2::serialize`, field by field in wire order. */
  method SerializeV2(h: HeaderV2) returns (v: bytes)
    ensures v == WireV2(h)
  {
    v := LE32(CompleteVersion(h.version));
    v := v + h.prev;
    v := v + h.merkle;
    v := v + LE32(h.timeOnWire);
    v := v + LE32(h.bits);
    v := v + LE32(h.nonce);
    assert v == SerializeV1(Head(h));
    ghost var head := v;
    v := v + LE32(h.nonce2);
    v := v + LE32(h.nonce3);
    v := v + h.extranonce;
    v := v + LE32(h.timeOffset);
    v := v + LE16(h.txcount);
    v := v + [h.flags];
    v := v + [h.clearBits];
    v := v + h.xorKey;
    v := v + LE32(h.height);
    v := v + h.mmRhs;
    assert v == head + Tail(h);
  }

  // ----- where each field lies

  /** The 80 bytes both formats share, by offset. */
  lemma LayoutOfV1(h: HeaderV1)
    ensures var b := SerializeV1(h);
            && b[0..4] == LE32(h.version) && b[4..36] == h.prev && b[36..68] == h.merkle
            && b[68..72] == LE32(h.time) && b[72..76] == LE32(h.bits) && b[76..80] == LE32(h.nonce)
  {
    hide LE32;
  }

  /** The 164 bytes of a v2 header, by offset, in the order the p2p network carries them. */
  lemma LayoutOfV2(h: HeaderV2)
    ensures var b := WireV2(h);
            && b[0..4] == LE32(h.version % 0x8000_0000 + 0x8000_0000) && b[4..36] == h.prev && b[36..68] == h.merkle
            && b[68..72] == LE32(h.timeOnWire) && b[72..76] == LE32(h.bits) && b[76..80] == LE32(h.nonce)
            && b[80..84] == LE32(h.nonce2) && b[84..88] == LE32(h.nonce3) && b[88..104] == h.extranonce
            && b[104..108] == LE32(h.timeOffset) && b[108..110] == LE16(h.txcount)
            && b[110] == h.flags && b[111] == h.clearBits && b[112..128] == h.xorKey
            && b[128..132] == LE32(h.height) && b[132..164] == h.mmRhs
  {
    hide SerializeV1, Tail, LE32, LE16;
    var a, t := SerializeV1(Head(h)), Tail(h);
    LayoutOfV1(Head(h));
    TailSlices(h, t);
    SliceOfFront(a, t, 0, 4);
    SliceOfFront(a, t, 4, 36);
    SliceOfFront(a, t, 36, 68);
    SliceOfFront(a, t, 68, 72);
    SliceOfFront(a, t, 72, 76);
    SliceOfFront(a, t, 76, 80);
    SliceOfTail(a, t, 0, 4);
    SliceOfTail(a, t, 4, 8);
    SliceOfTail(a, t, 8, 24);
    SliceOfTail(a, t, 24, 28);
    SliceOfTail(a, t, 28, 30);
    SliceOfTail(a, t, 32, 48);
    SliceOfTail(a, t, 48, 52);
    SliceOfTail(a, t, 52, 84);
    assert (a + t)[110] == t[30] && (a + t)[111] == t[31];
  }

  /** A header is v2 exactly when it is 164 bytes on the wire; any other is 80. */
  lemma V2IsByLength(h: AnyHeader)
    ensures h.IsV2() <==> |h.Serialize()| == 164
    ensures !h.IsV2() <==> |h.Serialize()| == 80
  {
  }

  // ----- round trips

  lemma V1Decodes(h: HeaderV1)
    ensures ParseV1(SerializeV1(h)) == h
  {
    var b := SerializeV1(h);
    assert b[0..4] == LE32(h.version);
    assert b[4..36] == h.prev;
    assert b[36..68] == h.merkle;
    assert b[68..72] == LE32(h.time);
    assert b[72..76] == LE32(h.bits);
    assert b[76..80] == LE32(h.nonce);
    LE32Decodes(h.version);
    LE32Decodes(h.time);
    LE32Decodes(h.bits);
    LE32Decodes(h.nonce);
  }

  lemma V1Encodes(b: bytes)
    requires |b| == HEADER_V1_SIZE
    ensures SerializeV1(ParseV1(b)) == b
  {
    LE32Encodes(b[0..4]);
    LE32Encodes(b[68..72]);
    LE32Encodes(b[72..76]);
    LE32Encodes(b[76..80]);
    assert b == b[0..4] + b[4..36] + b[36..68] + b[68..72] + b[72..76] + b[76..80];
  }

  lemma TailSlices(h: HeaderV2, t: bytes)
    requires t == Tail(h)
    ensures t[0..4] == LE32(h.nonce2) && t[4..8] == LE32(h.nonce3) && t[8..24] == h.extranonce
    ensures t[24..28] == LE32(h.timeOffset) && t[28..30] == LE16(h.txcount)
    ensures t[30] == h.flags && t[31] == h.clearBits
    ensures t[32..48] == h.xorKey && t[48..52] == LE32(h.height) && t[52..84] == h.mmRhs
  {
  }

  /** A slice of the second part of a concatenation, by its offset in the whole. */
  lemma SliceOfTail(a: bytes, t: bytes, i: nat, j: nat)
    requires i <= j <= |t|
    ensures (a + t)[|a| + i..|a| + j] == t[i..j]
  {
  }

  lemma SliceOfFront(a: bytes, t: bytes, i: nat, j: nat)
    requires i <= j <= |a|
    ensures (a + t)[i..j] == a[i..j]
  {
  }

  lemma V2Decodes(h: HeaderV2)
    ensures ParseV2(WireV2(h)) == Ok(h.(version := h.version % VERSION_HEADER_V2_FLAG))
  {
    hide SerializeV1, ParseV1, Tail, ParseV2;
    var a, t := SerializeV1(Head(h)), Tail(h);
    V1Decodes(Head(h));
    TailSlices(h, t);
    ParseV2Parts(a, t);
    LE32Decodes(h.nonce2);
    LE32Decodes(h.nonce3);
    LE32Decodes(h.timeOffset);
    LE16Decodes(h.txcount);
    LE32Decodes(h.height);
  }

  /** A v2 header is a v1 header with the flag set, then 84 bytes read at their own offsets. */
  lemma ParseV2Parts(a: bytes, t: bytes)
    requires |a| == 80 && |t| == 84 && HasV2Flag(ParseV1(a).version)
    ensures var h := ParseV1(a);
            ParseV2(a + t) == Ok(HeaderV2(
                                   h.version % VERSION_HEADER_V2_FLAG, h.prev, h.merkle, h.time, h.bits, h.nonce,
                                   FromLE32(t[0..4]), FromLE32(t[4..8]), t[8..24], FromLE32(t[24..28]),
                                   FromLE16(t[28..30]), t[30], t[31], t[32..48], FromLE32(t[48..52]), t[52..84]))
  {
    SliceOfFront(a, t, 0, 4);
    SliceOfFront(a, t, 4, 36);
    SliceOfFront(a, t, 36, 68);
    SliceOfFront(a, t, 68, 72);
    SliceOfFront(a, t, 72, 76);
    SliceOfFront(a, t, 76, 80);
    SliceOfTail(a, t, 0, 4);
    SliceOfTail(a, t, 4, 8);
    SliceOfTail(a, t, 8, 24);
    SliceOfTail(a, t, 24, 28);
    SliceOfTail(a, t, 28, 30);
    SliceOfTail(a, t, 32, 48);
    SliceOfTail(a, t, 48, 52);
    SliceOfTail(a, t, 52, 84);
  }

  /** A tail read at its own offsets is written back byte for byte. */
  lemma TailEncodes(h: HeaderV2, t: bytes)
    requires |t| == 84
    requires h.nonce2 == FromLE32(t[0..4]) && h.nonce3 == FromLE32(t[4..8]) && h.extranonce == t[8..24]
    requires h.timeOffset == FromLE32(t[24..28]) && h.txcount == FromLE16(t[28..30])
    requires h.flags == t[30] && h.clearBits == t[31] && h.xorKey == t[32..48]
    requires h.height == FromLE32(t[48..52]) && h.mmRhs == t[52..84]
    ensures Tail(h) == t
  {
    hide LE32, FromLE32, LE16, FromLE16;
    LE32Encodes(t[0..4]);
    LE32Encodes(t[4..8]);
    LE32Encodes(t[24..28]);
    LE16Encodes(t[28..30]);
    LE32Encodes(t[48..52]);
    assert t == t[0..4] + t[4..8] + t[8..24] + t[24..28] + t[28..30] + [t[30], t[31]]
                + t[32..48] + t[48..52] + t[52..84];
  }

  lemma V2Encodes(b: bytes)
    requires ParseV2(b).Ok?
    ensures WireV2(ParseV2(b).value) == b && ParseV2(b).value.version < VERSION_HEADER_V2_FLAG
  {
    hide SerializeV1, Tail, FromLE32, FromLE16;
    var h := ParseV2(b).value;
    var a, t := b[..80], b[80..];
    assert b == a + t;
    assert a[0..4] == b[0..4];
    ParseV2Parts(a, t);
    assert Head(h) == ParseV1(a);
    V1Encodes(a);
    TailEncodes(h, t);
  }

  lemma VersionInFront(h: AnyHeader)
    ensures h.Serialize()[0..4] == LE32(match h case V1(v) => v.version case V2(v) => CompleteVersion(v.version))
  {
    match h
    case V1(v) =>
    case V2(v) => assert WireV2(v)[0..4] == SerializeV1(Head(v))[0..4];
  }

  lemma SizeInFront(h: AnyHeader)
    requires h.SelfDescribing()
    ensures HasV2Flag(FromLE32(h.Serialize()[0..4])) == h.V2?
  {
    VersionInFront(h);
    match h
    case V1(v) => LE32Decodes(v.version);
    case V2(v) => LE32Decodes(CompleteVersion(v.version));
  }

  /** Whatever follows it, a header is read back from the front of the bytes, with its own length. */
  lemma ParseFront(h: AnyHeader, rest: bytes)
    requires h.SelfDescribing()
    ensures HeaderSize(h.Serialize() + rest) == Ok(h.Size())
    ensures Parse(h.Serialize() + rest) == Ok(h)
  {
    hide SerializeV1, WireV2, ParseV1, ParseV2, CompleteVersion;
    var s := h.Serialize();
    SliceOfFront(s, rest, 0, 4);
    SizeInFront(h);
    assert (s + rest)[..h.Size()] == s;
    match h
    case V1(v) => V1Decodes(v);
    case V2(v) => V2Decodes(v);
  }

  lemma ParseBack(b: bytes)
    requires Parse(b).Ok?
    ensures var h := Parse(b).value;
            h.SelfDescribing() && h.Size() <= |b| && HeaderSize(b) == Ok(h.Size()) && h.Serialize() == b[..h.Size()]
  {
    var n := HeaderSize(b).value;
    assert b[..n][0..4] == b[0..4];
    if n == HEADER_V1_SIZE {
      V1Encodes(b[..n]);
    } else {
      V2Encodes(b[..n]);
    }
  }

  /** A database row is read back as the header it was written from, v1 with bit 31 set included. */
  lemma ExactRoundTrip(h: AnyHeader)
    requires h.V2? ==> h.SelfDescribing()
    ensures ParseExact(h.Serialize()) == Ok(h)
  {
    hide SerializeV1, WireV2, ParseV1, ParseV2;
    match h
    case V1(v) => V1Decodes(v);
    case V2(v) => V2Decodes(v);
  }

  // ----- runs of mixed headers

  function Run(hs: seq<AnyHeader>): bytes {
    if hs == [] then [] else hs[0].Serialize() + Run(hs[1..])
  }

  predicate AllSelfDescribing(hs: seq<AnyHeader>) {
    forall h :: h in hs ==> h.SelfDescribing()
  }

  /** One turn of the walk over a header `p` that parses as `h`. */
  lemma WalkOne(p: bytes, h: AnyHeader, rest: bytes)
    requires |p| == h.Size() && HeaderSize(p + rest) == Ok(|p|) && Parse(p) == Ok(h)
    ensures ParseAllSpec(p + rest) == match ParseAllSpec(rest)
                                      case Err(e) => Err(e)
                                      case Ok(hs) => Ok([h] + hs)
  {
    assert (p + rest)[..|p|] == p;
    assert (p + rest)[|p|..] == rest;
  }

  lemma ParseAlone(h: AnyHeader)
    requires h.SelfDescribing()
    ensures Parse(h.Serialize()) == Ok(h)
  {
    ParseFront(h, []);
    assert h.Serialize() + [] == h.Serialize();
  }

  lemma {:induction false} RunDecodes(hs: seq<AnyHeader>)
    requires AllSelfDescribing(hs)
    ensures ParseAllSpec(Run(hs)) == Ok(hs)
  {
    hide SerializeV1, WireV2, HeaderSize, Parse;
    if hs == [] {
    } else {
      ParseFront(hs[0], Run(hs[1..]));
      ParseAlone(hs[0]);
      WalkOne(hs[0].Serialize(), hs[0], Run(hs[1..]));
      RunDecodes(hs[1..]);
      assert [hs[0]] + hs[1..] == hs;
    }
  }

  lemma {:induction false} RunEncodes(b: bytes)
    requires ParseAllSpec(b).Ok?
    ensures Run(ParseAllSpec(b).value) == b && AllSelfDescribing(ParseAllSpec(b).value)
    decreases |b|
  {
    hide HeaderSize, Parse, SerializeV1, WireV2;
    if b == [] {
    } else {
      var n := HeaderSize(b).value;
      var p, rest := b[..n], b[n..];
      ParseBack(p);
      HeaderSizeOfFront(b, n);
      RunEncodes(rest);
      RunCons(Parse(p).value, ParseAllSpec(rest).value, p, rest);
      assert b == p + rest;
    }
  }

  lemma HeaderSizeOfFront(b: bytes, n: nat)
    requires 4 <= n <= |b|
    ensures HeaderSize(b[..n]) == HeaderSize(b) && b[..n][..n] == b[..n]
  {
    assert b[..n][0..4] == b[0..4];
  }

  lemma RunCons(h: AnyHeader, hs: seq<AnyHeader>, p: bytes, rest: bytes)
    requires |p| == h.Size() && h.Serialize() == p && Run(hs) == rest
    ensures Run([h] + hs) == p + rest
  {
    assert ([h] + hs)[1..] == hs;
  }

  /** Unique decodability: the walk accepts exactly the concatenations of headers, and gives back that list. */
  lemma ParseAllExactly(b: bytes, hs: seq<AnyHeader>)
    ensures ParseAllSpec(b) == Ok(hs) <==> Run(hs) == b && AllSelfDescribing(hs)
  {
    if ParseAllSpec(b) == Ok(hs) {
      RunEncodes(b);
    }
    if Run(hs) == b && AllSelfDescribing(hs) {
      RunDecodes(hs);
    }
  }

  lemma RunAppend(xs: seq<AnyHeader>, ys: seq<AnyHeader>)
    ensures Run(xs + ys) == Run(xs) + Run(ys)
  {
    if xs == [] {
      assert xs + ys == ys;
    } else {
      assert (xs + ys)[1..] == xs[1..] + ys;
      RunAppend(xs[1..], ys);
    }
  }

  lemma SameFront(x: AnyHeader, y: AnyHeader, p: bytes, q: bytes)
    requires x.SelfDescribing() && y.SelfDescribing()
    requires x.Serialize() + p == y.Serialize() + q
    ensures x == y && p == q
  {
    ParseFront(x, p);
    ParseFront(y, q);
    var b, n := x.Serialize() + p, x.Size();
    assert b[n..] == p;
    assert (y.Serialize() + q)[n..] == q;
  }

  /** No run is a proper prefix of another except by whole headers. */
  lemma {:induction false} RunsArePrefixFree(xs: seq<AnyHeader>, hs: seq<AnyHeader>, rest: bytes)
    requires AllSelfDescribing(xs) && AllSelfDescribing(hs)
    requires Run(xs) + rest == Run(hs)
    ensures xs <= hs
  {
    hide SerializeV1, WireV2;
    if xs == [] {
    } else {
      RunIsNotEmpty(xs);
      assert hs != [];
      assert Run(xs) + rest == xs[0].Serialize() + (Run(xs[1..]) + rest);
      SameFront(xs[0], hs[0], Run(xs[1..]) + rest, Run(hs[1..]));
      RunsArePrefixFree(xs[1..], hs[1..], rest);
    }
  }

  lemma RunIsNotEmpty(hs: seq<AnyHeader>)
    requires hs != []
    ensures |Run(hs)| > 0
  {
    assert |hs[0].Serialize()| > 0;
  }

  /** A cut run is accepted exactly when the cut falls between two headers. */
  lemma CutRun(hs: seq<AnyHeader>, k: nat)
    requires AllSelfDescribing(hs) && k <= |Run(hs)|
    ensures ParseAllSpec(Run(hs)[..k]).Ok? <==> exists j :: 0 <= j <= |hs| && |Run(hs[..j])| == k
  {
    hide ParseAllSpec, Run, AnyHeader.SelfDescribing;
    var b := Run(hs)[..k];
    if ParseAllSpec(b).Ok? {
      var xs := ParseAllSpec(b).value;
      RunEncodes(b);
      RunsArePrefixFree(xs, hs, Run(hs)[k..]);
      assert hs[..|xs|] == xs;
    }
    if j :| 0 <= j <= |hs| && |Run(hs[..j])| == k {
      assert hs == hs[..j] + hs[j..];
      RunAppend(hs[..j], hs[j..]);
      assert b == Run(hs[..j]);
      RunDecodes(hs[..j]);
    }
  }
}
