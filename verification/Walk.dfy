/**
 The wallet's side of a run of mixed headers: counting a hex run without decoding
 it, splitting the decoded run, and the checks a response must pass in between.
 */
module Walk {
  import opened Bytes
  import opened Headers
  import opened HashPaths
  import opened Hex

  datatype Network = Mainnet | Testnet3 | Testnet4 | Signet | Regtest

  predicate SupportsV2(net: Network) {
    net == Testnet4 || net == Regtest
  }

  function RecordLength(net: Network): nat {
    if SupportsV2(net) then HEADER_V2_SIZE else HEADER_V1_SIZE
  }

  datatype WalkError = EndedEarly | ClaimsTooMuch | Unsupported | Trailing | ShortList | NullEntry | NotHex | BadHeader

  function LengthFor(net: Network, v2: bool): (r: Result<nat, WalkError>)
    ensures r.Ok? ==> r.value == if v2 then HEADER_V2_SIZE else HEADER_V1_SIZE
  {
    if !v2 then Ok(HEADER_V1_SIZE) else if SupportsV2(net) then Ok(HEADER_V2_SIZE) else Err(Unsupported)
  }

  /** `v & 0x80 != 0`, for a value as small as the pair parse can give. */
  predicate HighBit(v: int) {
    v % 0x100 >= 0x80
  }

  // ----- counting

  /** The headers from `offset` on, or -1: what the counting loop adds up to. */
  function CountFrom(net: Network, hex: string, offset: nat): (n: int)
    ensures n >= -1
    decreases |hex| - offset
  {
    if offset >= |hex| then 0
    else if offset + 2 * HEADER_V1_SIZE > |hex| then -1
    else match ParsePair(hex[offset + 6], hex[offset + 7])
         case None => -1
         case Some(fourth) =>
           match LengthFor(net, HighBit(fourth))
           case Err(_) => -1
           case Ok(length) =>
             if offset + 2 * length > |hex| then -1
             else
               var rest := CountFrom(net, hex, offset + 2 * length);
               if rest < 0 then -1 else rest + 1
  }

  method CountHex(net: Network, hex: string) returns (r: int)
    ensures r == CountFrom(net, hex, 0)
  {
    var offset, count := 0, 0;
    while offset < |hex|
      invariant 0 <= offset <= |hex| && count >= 0
      invariant CountFrom(net, hex, 0) == var rest := CountFrom(net, hex, offset); if rest < 0 then -1 else count + rest
      decreases |hex| - offset
    {
      if offset + 2 * HEADER_V1_SIZE > |hex| {
        return -1;
      }
      var fourth := ParsePair(hex[offset + 6], hex[offset + 7]);
      if fourth.None? {
        return -1;
      }
      var length := LengthFor(net, HighBit(fourth.value));
      if length.Err? {
        return -1;
      }
      if offset + 2 * length.value > |hex| {
        return -1;
      }
      offset := offset + 2 * length.value;
      count := count + 1;
    }
    r := count;
  }

  // ----- splitting

  function SplitFrom(net: Network, b: bytes, offset: nat, count: nat): Result<seq<AnyHeader>, WalkError>
    requires offset <= |b|
    decreases count
  {
    if count == 0 then (if offset != |b| then Err(Trailing) else Ok([]))
    else if offset + HEADER_V1_SIZE > |b| then Err(EndedEarly)
    else match LengthFor(net, HasV2Flag(FromLE32(b[offset..offset + 4])))
         case Err(e) => Err(e)
         case Ok(length) =>
           if offset + length > |b| then Err(ClaimsTooMuch)
           else match JavaRead(b, offset)
                case Err(_) => Err(BadHeader)
                case Ok(j) =>
                  match SplitFrom(net, b, offset + length, count - 1)
                  case Err(e) => Err(e)
                  case Ok(rest) => Ok([View(j)] + rest)
  }

  method Split(net: Network, b: bytes, count: nat) returns (r: Result<seq<AnyHeader>, WalkError>)
    ensures r == SplitFrom(net, b, 0, count)
  {
    hide FromLE32, HasV2Flag, JavaRead, View;
    var headers: seq<AnyHeader> := [];
    var offset := 0;
    assert forall rest: seq<AnyHeader> :: headers + rest == rest;
    for i := 0 to count
      invariant 0 <= offset <= |b|
      invariant SplitFrom(net, b, 0, count) == match SplitFrom(net, b, offset, count - i)
                                               case Err(e) => Err(e)
                                               case Ok(rest) => Ok(headers + rest)
    {
      if offset + HEADER_V1_SIZE > |b| {
        return Err(EndedEarly);
      }
      var length := LengthFor(net, HasV2Flag(FromLE32(b[offset..offset + 4])));
      if length.Err? {
        return Err(length.error);
      }
      if offset + length.value > |b| {
        return Err(ClaimsTooMuch);
      }
      var j := JavaRead(b, offset);
      if j.Err? {
        return Err(BadHeader);
      }
      ghost var before := headers;
      headers := headers + [View(j.value)];
      offset := offset + length.value;
      assert forall rest: seq<AnyHeader> :: before + ([View(j.value)] + rest) == headers + rest;
    }
    assert headers + [] == headers;
    if offset != |b| {
      return Err(Trailing);
    }
    r := Ok(headers);
  }

  // ----- the two walks agree

  predicate CarriedOn(net: Network, hs: seq<AnyHeader>) {
    forall h :: h in hs ==> h.V2? ==> SupportsV2(net)
  }

  lemma FourthByte(b: bytes)
    requires |b| == 4
    ensures HasV2Flag(FromLE32(b)) <==> HighBit(b[3])
  {
  }

  /** The two hex characters the counting loop reads are the byte that holds bit 31. */
  lemma SameFlag(hex: string, b: bytes, offset: nat)
    requires HexToBytes(hex) == Some(b) && offset + 4 <= |b|
    ensures var fourth := ParsePair(hex[2 * offset + 6], hex[2 * offset + 7]);
            fourth.Some? && (HighBit(fourth.value) <==> HasV2Flag(FromLE32(b[offset..offset + 4])))
  {
    FourthByte(b[offset..offset + 4]);
    assert b[offset..offset + 4][3] == b[offset + 3] == ByteAt(hex, offset + 3);
  }

  lemma JavaReadWorks(b: bytes, offset: nat)
    requires offset + 4 <= |b|
    requires offset + (if HasV2Flag(FromLE32(b[offset..offset + 4])) then HEADER_V2_SIZE else HEADER_V1_SIZE) <= |b|
    ensures JavaRead(b, offset).Ok?
  {
    assert b[offset..][0..4] == b[offset..offset + 4];
  }

  /** Counting finds n headers exactly when splitting into n of them succeeds; so -1 means no count would do. */
  lemma {:induction false} CountAgreesWithSplit(net: Network, hex: string, b: bytes, offset: nat, n: nat)
    requires HexToBytes(hex) == Some(b) && offset <= |b|
    ensures CountFrom(net, hex, 2 * offset) == n <==> SplitFrom(net, b, offset, n).Ok?
    decreases |b| - offset
  {
    hide HexToBytes, ParsePair, HasV2Flag, FromLE32, JavaRead, View;
    if offset + HEADER_V1_SIZE <= |b| {
      SameFlag(hex, b, offset);
      var length := LengthFor(net, HasV2Flag(FromLE32(b[offset..offset + 4])));
      if length.Ok? && offset + length.value <= |b| {
        JavaReadWorks(b, offset);
        if n > 0 {
          CountAgreesWithSplit(net, hex, b, offset + length.value, n - 1);
        }
      }
    }
  }

  /**
   Splitting into n headers gives `hs` exactly when the bytes are their concatenation and the
   network carries them.
   */
  lemma {:induction false} SplitExactly(net: Network, b: bytes, offset: nat, n: nat, hs: seq<AnyHeader>)
    requires offset <= |b|
    ensures SplitFrom(net, b, offset, n) == Ok(hs)
       <==> |hs| == n && b[offset..] == Run(hs) && AllSelfDescribing(hs) && CarriedOn(net, hs)
    decreases n
  {
    if SplitFrom(net, b, offset, n) == Ok(hs) {
      SplitMeansRun(net, b, offset, n);
    }
    if |hs| == n && b[offset..] == Run(hs) && AllSelfDescribing(hs) && CarriedOn(net, hs) {
      RunSplits(net, b, offset, hs);
    }
  }

  lemma {:induction false} SplitMeansRun(net: Network, b: bytes, offset: nat, n: nat)
    requires offset <= |b| && SplitFrom(net, b, offset, n).Ok?
    ensures var hs := SplitFrom(net, b, offset, n).value;
            |hs| == n && b[offset..] == Run(hs) && AllSelfDescribing(hs) && CarriedOn(net, hs)
    decreases n
  {
    hide AnyHeader.Serialize, AnyHeader.SelfDescribing, JavaRead, View, Parse, HeaderSize;
    if n == 0 {
    } else {
      var length := LengthFor(net, HasV2Flag(FromLE32(b[offset..offset + 4]))).value;
      JavaReadsTheSameHeader(b, offset);
      ParseBack(b[offset..]);
      SizeAt(b, offset);
      SplitMeansRun(net, b, offset + length, n - 1);
      var h := View(JavaRead(b, offset).value);
      var rest := SplitFrom(net, b, offset + length, n - 1).value;
      assert ([h] + rest)[1..] == rest;
      CutAt(b, offset, length);
    }
  }

  lemma CutAt(b: bytes, offset: nat, length: nat)
    requires offset + length <= |b|
    ensures b[offset..] == b[offset..][..length] + b[offset + length..]
  {
  }

  lemma SizeAt(b: bytes, offset: nat)
    requires offset + 4 <= |b|
    ensures HeaderSize(b[offset..])
         == Ok(if HasV2Flag(FromLE32(b[offset..offset + 4])) then HEADER_V2_SIZE else HEADER_V1_SIZE)
  {
    assert b[offset..][0..4] == b[offset..offset + 4];
  }

  lemma {:induction false} RunSplits(net: Network, b: bytes, offset: nat, hs: seq<AnyHeader>)
    requires offset <= |b| && b[offset..] == Run(hs) && AllSelfDescribing(hs) && CarriedOn(net, hs)
    ensures SplitFrom(net, b, offset, |hs|) == Ok(hs)
    decreases |hs|
  {
    hide AnyHeader.Serialize, AnyHeader.SelfDescribing, JavaRead, View, Parse, HeaderSize;
    if hs == [] {
    } else {
      var h := hs[0];
      assert b[offset..] == h.Serialize() + Run(hs[1..]);
      ParseFront(h, Run(hs[1..]));
      SizeAt(b, offset);
      JavaReadsTheSameHeader(b, offset);
      assert b[offset + h.Size()..] == Run(hs[1..]);
      RunSplits(net, b, offset + h.Size(), hs[1..]);
      assert [h] + hs[1..] == hs;
    }
  }

  // ----- a whole response

  const RETARGET_INTERVAL := 2016

  /** `blockchain.block.headers`: one concatenated string below protocol 1.6, a list at 1.6 and above. */
  datatype BlockHeaders = BlockHeaders(count: int, hex: Option<string>, headers: Option<seq<Option<string>>>, max: int)

  datatype CheckError = Malformed | MaxTooSmall | TooMany | NotAWholeRun | CountDiffers | Short

  function CountList(net: Network, list: seq<Option<string>>): int {
    if forall i :: 0 <= i < |list| ==> list[i].Some? && CountFrom(net, list[i].value, 0) == 1 then |list| else -1
  }

  function Carried(net: Network, chunk: BlockHeaders): int {
    if chunk.hex.None? == chunk.headers.None? then -1
    else if chunk.headers.None? then CountFrom(net, chunk.hex.value, 0)
    else CountList(net, chunk.headers.value)
  }

  method CountCarried(net: Network, chunk: BlockHeaders) returns (r: int)
    ensures r == Carried(net, chunk)
  {
    if chunk.hex.None? == chunk.headers.None? {
      return -1;
    }
    if chunk.headers.None? {
      r := CountHex(net, chunk.hex.value);
      return;
    }
    var list := chunk.headers.value;
    for i := 0 to |list|
      invariant forall j :: 0 <= j < i ==> list[j].Some? && CountFrom(net, list[j].value, 0) == 1
    {
      if list[i].None? {
        return -1;
      }
      var n := CountHex(net, list[i].value);
      if n != 1 {
        return -1;
      }
    }
    r := |list|;
  }

  /** `checkBlockHeaders`, as the chain of refusals it is. */
  function Check(net: Network, response: Option<BlockHeaders>, startHeight: int, count: int, tip: Option<int>)
    : Result<BlockHeaders, CheckError>
  {
    if response.None? || response.value.count < 0 then Err(Malformed)
    else
      var chunk := response.value;
      if chunk.max < RETARGET_INTERVAL then Err(MaxTooSmall)
      else if chunk.count > count then Err(TooMany)
      else if Carried(net, chunk) < 0 then Err(NotAWholeRun)
      else if Carried(net, chunk) != chunk.count then Err(CountDiffers)
      else if chunk.count < count && tip.Some? && startHeight + chunk.count - 1 < tip.value then Err(Short)
      else Ok(chunk)
  }

  function SplitHex(net: Network, hex: string, count: nat): Result<seq<AnyHeader>, WalkError> {
    match HexToBytes(hex)
    case None => Err(NotHex)
    case Some(b) => SplitFrom(net, b, 0, count)
  }

  function ParseList(net: Network, list: seq<Option<string>>, count: nat): Result<seq<AnyHeader>, WalkError>
    requires count <= |list|
  {
    if count == 0 then Ok([])
    else match ParseList(net, list, count - 1)
         case Err(e) => Err(e)
         case Ok(before) =>
           if list[count - 1].None? then Err(NullEntry)
           else match SplitHex(net, list[count - 1].value, 1)
                case Err(e) => Err(e)
                case Ok(one) => Ok(before + one)
  }

  function ParsedChunk(net: Network, chunk: BlockHeaders, count: nat): Result<seq<AnyHeader>, WalkError> {
    if chunk.headers.None? then
      (if chunk.hex.None? then Err(NotHex) else SplitHex(net, chunk.hex.value, count))
    else if |chunk.headers.value| < count then Err(ShortList)
    else ParseList(net, chunk.headers.value, count)
  }

  method ParseChunk(net: Network, chunk: BlockHeaders, count: nat) returns (r: Result<seq<AnyHeader>, WalkError>)
    ensures r == ParsedChunk(net, chunk, count)
  {
    if chunk.headers.None? {
      var b := if chunk.hex.None? then None else HexToBytes(chunk.hex.value);
      if b.None? {
        return Err(NotHex);
      }
      r := Split(net, b.value, count);
      return;
    }
    var list := chunk.headers.value;
    if |list| < count {
      return Err(ShortList);
    }
    var headers: seq<AnyHeader> := [];
    for i := 0 to count
      invariant ParseList(net, list, i) == Ok(headers)
    {
      if list[i].None? {
        ParseListFails(net, list, i + 1, count);
        return Err(NullEntry);
      }
      var b := HexToBytes(list[i].value);
      if b.None? {
        ParseListFails(net, list, i + 1, count);
        return Err(NotHex);
      }
      var one := Split(net, b.value, 1);
      if one.Err? {
        ParseListFails(net, list, i + 1, count);
        return Err(one.error);
      }
      headers := headers + one.value;
    }
    r := Ok(headers);
  }

  lemma ParseListFails(net: Network, list: seq<Option<string>>, i: nat, count: nat)
    requires i <= count <= |list| && ParseList(net, list, i).Err?
    ensures ParseList(net, list, count) == ParseList(net, list, i)
  {
    if i == count {
    } else {
      ParseListFails(net, list, i, count - 1);
    }
  }

  /** A response that passes the check, in valid hex, parses into exactly the number of headers it reports. */
  lemma CheckedChunkParses(net: Network, response: Option<BlockHeaders>, startHeight: int, count: int, tip: Option<int>)
    requires Check(net, response, startHeight, count, tip).Ok?
    requires response.value.hex.Some? ==> IsHex(response.value.hex.value)
    requires response.value.headers.Some? ==>
               forall i :: 0 <= i < response.value.count && i < |response.value.headers.value| ==>
                             response.value.headers.value[i].Some? ==> IsHex(response.value.headers.value[i].value)
    ensures var r := ParsedChunk(net, response.value, response.value.count);
            r.Ok? && |r.value| == response.value.count
  {
    var chunk := response.value;
    if chunk.headers.None? {
      var b := HexToBytes(chunk.hex.value).value;
      CountAgreesWithSplit(net, chunk.hex.value, b, 0, chunk.count);
      SplitMeansRun(net, b, 0, chunk.count);
    } else {
      CheckedListParses(net, chunk.headers.value, chunk.count);
    }
  }

  lemma {:induction false} CheckedListParses(net: Network, list: seq<Option<string>>, n: nat)
    requires n <= |list|
    requires forall i :: 0 <= i < n ==>
               list[i].Some? && CountFrom(net, list[i].value, 0) == 1 && IsHex(list[i].value)
    ensures ParseList(net, list, n).Ok? && |ParseList(net, list, n).value| == n
  {
    hide HexToBytes, IsHex, CountFrom, SplitFrom, CarriedOn, AllSelfDescribing, Run;
    if n == 0 {
    } else {
      CheckedListParses(net, list, n - 1);
      var b := HexToBytes(list[n - 1].value).value;
      CountAgreesWithSplit(net, list[n - 1].value, b, 0, 1);
      SplitMeansRun(net, b, 0, 1);
    }
  }
}
