/**
 The server's answer to `blockchain.block.headers` and the wallet that reads it: what the
 gate sends, in either form, passes the wallet's check and parses to the same headers.
 */
module Responses {
  import opened Bytes
  import opened Headers
  import opened Hex
  import opened Walk
  import Gate

  function HexRun(hs: seq<AnyHeader>): string {
    if hs == [] then "" else ToHex(hs[0].Serialize()) + HexRun(hs[1..])
  }

  /** One string, as below protocol 1.6. */
  function Concatenated(hs: seq<AnyHeader>): BlockHeaders {
    BlockHeaders(|hs|, Some(HexRun(hs)), None, Gate.MAX_HEADERS)
  }

  function HexList(hs: seq<AnyHeader>): seq<Option<string>> {
    seq(|hs|, i requires 0 <= i < |hs| => Some(ToHex(hs[i].Serialize())))
  }

  /** The same headers in the form protocol 1.6 gives them. */
  function Listed(hs: seq<AnyHeader>): BlockHeaders {
    BlockHeaders(|hs|, None, Some(HexList(hs)), Gate.MAX_HEADERS)
  }

  lemma HexRunIsHexOfRun(hs: seq<AnyHeader>)
    ensures HexRun(hs) == ToHex(Run(hs))
  {
    hide AnyHeader.Serialize, ToHex;
    if hs == [] {
      assert ToHex([]) == "";
    } else {
      ToHexAppend(hs[0].Serialize(), Run(hs[1..]));
      HexRunIsHexOfRun(hs[1..]);
    }
  }

  lemma OneHeaderHex(net: Network, h: AnyHeader)
    requires h.SelfDescribing() && (h.V2? ==> SupportsV2(net))
    ensures CountFrom(net, ToHex(h.Serialize()), 0) == 1
    ensures SplitHex(net, ToHex(h.Serialize()), 1) == Ok([h])
  {
    hide AnyHeader.Serialize, AnyHeader.SelfDescribing, ToHex, HexToBytes;
    var b := h.Serialize();
    HexRoundTrip(b);
    assert Run([h]) == b + [] == b == b[0..];
    RunSplits(net, b, 0, [h]);
    CountAgreesWithSplit(net, ToHex(b), b, 0, 1);
  }

  lemma {:induction false} HexListParses(net: Network, hs: seq<AnyHeader>, n: nat)
    requires n <= |hs| && AllSelfDescribing(hs) && CarriedOn(net, hs)
    ensures ParseList(net, HexList(hs), n) == Ok(hs[..n])
  {
    hide AnyHeader.Serialize, AnyHeader.SelfDescribing, ToHex, SplitHex;
    if n == 0 {
    } else {
      HexListParses(net, hs, n - 1);
      OneHeaderHex(net, hs[n - 1]);
      assert hs[..n - 1] + [hs[n - 1]] == hs[..n];
    }
  }

  /** The answer is as long as was asked, or ends at the tip the wallet knows of, or above it. */
  predicate Reaches(hs: seq<AnyHeader>, start: int, count: int, tip: Option<int>) {
    |hs| <= count && (|hs| < count && tip.Some? ==> start + |hs| - 1 >= tip.value)
  }

  lemma ConcatenatedIsRead(net: Network, hs: seq<AnyHeader>, start: nat, count: nat, tip: Option<int>)
    requires AllSelfDescribing(hs) && CarriedOn(net, hs) && Reaches(hs, start, count, tip)
    ensures Check(net, Some(Concatenated(hs)), start, count, tip) == Ok(Concatenated(hs))
    ensures ParsedChunk(net, Concatenated(hs), |hs|) == Ok(hs)
  {
    hide AnyHeader.Serialize, AnyHeader.SelfDescribing, ToHex, HexToBytes, CountFrom, SplitFrom;
    var b := Run(hs);
    HexRunIsHexOfRun(hs);
    HexRoundTrip(b);
    assert b[0..] == b;
    RunSplits(net, b, 0, hs);
    CountAgreesWithSplit(net, ToHex(b), b, 0, |hs|);
  }

  lemma ListIsRead(net: Network, hs: seq<AnyHeader>, start: nat, count: nat, tip: Option<int>)
    requires AllSelfDescribing(hs) && CarriedOn(net, hs) && Reaches(hs, start, count, tip)
    ensures Check(net, Some(Listed(hs)), start, count, tip) == Ok(Listed(hs))
    ensures ParsedChunk(net, Listed(hs), |hs|) == Ok(hs)
  {
    hide AnyHeader.Serialize, AnyHeader.SelfDescribing, ToHex, HexToBytes, CountFrom, SplitFrom, ParseList;
    forall i | 0 <= i < |hs|
      ensures CountFrom(net, ToHex(hs[i].Serialize()), 0) == 1
    {
      OneHeaderHex(net, hs[i]);
    }
    HexListParses(net, hs, |hs|);
    assert hs[..|hs|] == hs;
  }

  // ----- whatever the gate sends

  /** The chain holds headers that say what they are, in formats the wallet's network carries. */
  predicate Readable(net: Network, chain: Gate.Blocks) {
    forall i :: 0 <= i < |chain| ==> chain[i].1.SelfDescribing() && (chain[i].1.V2? ==> SupportsV2(net))
  }

  /** What the wallet asked for, of a server at least as far along as the wallet believes. */
  predicate Asked(chain: Gate.Blocks, count: nat, tip: Option<int>) {
    count <= RETARGET_INTERVAL && (tip.Some? ==> tip.value < |chain|)
  }

  /**
   Whenever the gate answers a request for headers, the wallet that asked reads exactly those
   headers of the server's chain, whichever form the answer takes.
   */
  lemma ServedHeadersAreRead(net: Network, chain: Gate.Blocks, s: Gate.Session, start: nat, count: nat,
      tip: Option<int>)
    requires |chain| > 0 && Readable(net, chain) && Asked(chain, count, tip)
    requires Gate.Handle(chain, s, Gate.BlockHeaders(start, count)).1.Sent?
    ensures var hs := Gate.Handle(chain, s, Gate.BlockHeaders(start, count)).1.headers;
            && |hs| == (if start >= |chain| then 0 else Min(count, |chain| - start))
            && (forall i :: 0 <= i < |hs| ==> start + i < |chain| && hs[i] == chain[start + i].1)
            && Check(net, Some(Concatenated(hs)), start, count, tip) == Ok(Concatenated(hs))
            && ParsedChunk(net, Concatenated(hs), |hs|) == Ok(hs)
            && Check(net, Some(Listed(hs)), start, count, tip) == Ok(Listed(hs))
            && ParsedChunk(net, Listed(hs), |hs|) == Ok(hs)
  {
    hide Check, ParsedChunk, HexRun, HexList, AnyHeader.SelfDescribing;
    var hs := Gate.Range(chain, start, count);
    Gate.RangeIs(chain, start, count);
    assert forall h <- hs :: exists i :: 0 <= i < |chain| && chain[i].1 == h;
    ConcatenatedIsRead(net, hs, start, count, tip);
    ListIsRead(net, hs, start, count, tip);
  }

  // ----- what the wallet refuses

  /** Every string of the response is hex. */
  predicate InHex(chunk: BlockHeaders) {
    && (chunk.hex.Some? ==> IsHex(chunk.hex.value))
    && (chunk.headers.Some? ==>
          forall i :: 0 <= i < |chunk.headers.value| && chunk.headers.value[i].Some? ==>
            IsHex(chunk.headers.value[i].value))
  }

  /** The response reports this many headers and is these headers, no more and no fewer, in one form only. */
  predicate Carries(net: Network, chunk: BlockHeaders, hs: seq<AnyHeader>) {
    && chunk.count == |hs| && chunk.hex.Some? != chunk.headers.Some?
    && (chunk.headers.Some? ==> |chunk.headers.value| == |hs|)
    && ParsedChunk(net, chunk, |hs|) == Ok(hs)
  }

  /**
   A response in hex passes the check exactly when it carries as many headers as it reports,
   in one form, its limit is at least 2016, and they are no more than were asked for, and
   fewer only if they end at the tip the wallet knows of, or above it.
   */
  lemma CheckExactly(net: Network, chunk: BlockHeaders, start: int, count: int, tip: Option<int>)
    requires InHex(chunk)
    ensures Check(net, Some(chunk), start, count, tip) == Ok(chunk)
       <==> && chunk.max >= 2016
            && exists hs :: Carries(net, chunk, hs) && Reaches(hs, start, count, tip)
    ensures Check(net, Some(chunk), start, count, tip).Ok? ==> Check(net, Some(chunk), start, count, tip) == Ok(chunk)
    ensures Check(net, None, start, count, tip).Err?
  {
    hide CountFrom, SplitFrom, HexToBytes, IsHex, AllSelfDescribing, CarriedOn, Run;
    if Check(net, Some(chunk), start, count, tip).Ok? {
      CheckedChunkParses(net, Some(chunk), start, count, tip);
      var hs := ParsedChunk(net, chunk, chunk.count).value;
      assert Carries(net, chunk, hs) && Reaches(hs, start, count, tip);
    }
    if hs :| Carries(net, chunk, hs) && Reaches(hs, start, count, tip) {
      CarriesIsCounted(net, chunk, hs);
    }
  }

  lemma CarriesIsCounted(net: Network, chunk: BlockHeaders, hs: seq<AnyHeader>)
    requires InHex(chunk) && Carries(net, chunk, hs)
    ensures Carried(net, chunk) == |hs|
  {
    hide CountFrom, SplitFrom, HexToBytes, IsHex;
    if chunk.headers.None? {
      CountAgreesWithSplit(net, chunk.hex.value, HexToBytes(chunk.hex.value).value, 0, |hs|);
    } else {
      ListIsCounted(net, chunk.headers.value, |hs|);
    }
  }

  lemma {:induction false} ListIsCounted(net: Network, list: seq<Option<string>>, n: nat)
    requires n <= |list| && ParseList(net, list, n).Ok?
    ensures forall i :: 0 <= i < n ==> list[i].Some? && CountFrom(net, list[i].value, 0) == 1
  {
    hide CountFrom, SplitFrom, HexToBytes, IsHex;
    if n == 0 {
    } else {
      ListIsCounted(net, list, n - 1);
      CountAgreesWithSplit(net, list[n - 1].value, HexToBytes(list[n - 1].value).value, 0, 1);
    }
  }

  // ----- elsewhere

  /** On a network without v2 headers a run that holds one is refused by the count, and by the split for every count. */
  lemma V2RefusedElsewhere(net: Network, hs: seq<AnyHeader>)
    requires AllSelfDescribing(hs) && !CarriedOn(net, hs)
    ensures CountFrom(net, HexRun(hs), 0) == -1
    ensures forall n: nat :: SplitFrom(net, Run(hs), 0, n).Err?
  {
    hide AnyHeader.Serialize, AnyHeader.SelfDescribing, ToHex, HexToBytes, CountFrom, SplitFrom;
    var b := Run(hs);
    HexRunIsHexOfRun(hs);
    HexRoundTrip(b);
    assert b[0..] == b;
    forall n: nat
      ensures SplitFrom(net, b, 0, n).Err?
    {
      if SplitFrom(net, b, 0, n).Ok? {
        var xs := SplitFrom(net, b, 0, n).value;
        SplitMeansRun(net, b, 0, n);
        RunDecodes(xs);
        RunDecodes(hs);
      }
    }
    var counted := CountFrom(net, HexRun(hs), 0);
    if counted >= 0 {
      CountAgreesWithSplit(net, ToHex(b), b, 0, counted);
    }
  }
}
