/**
 The protocol 1.8 gate: which version a chain negotiates, and who may be sent its
 headers, while the chain crosses its activation height under connected clients.
 */
module Gate {
  import opened Bytes
  import opened Headers
  import opened Hashing
  import opened ChainIndex

  datatype Version = Version(major: nat, minor: nat, patch: nat)

  predicate AtMost(a: Version, b: Version) {
    a.major < b.major || (a.major == b.major && (a.minor < b.minor || (a.minor == b.minor && a.patch <= b.patch)))
  }

  /** `check_between`: the inclusive range test. */
  predicate Between(v: Version, range: (Version, Version)) {
    AtMost(range.0, v) && AtMost(v, range.1)
  }

  const PROTOCOL_VERSION_V1 := Version(1, 4, 0)
  const PROTOCOL_VERSION_V2 := Version(1, 8, 0)
  const MAX_HEADERS := 2016

  function ProtocolVersion(chainHasV2: bool): Version {
    if chainHasV2 then PROTOCOL_VERSION_V2 else PROTOCOL_VERSION_V1
  }

  predicate MayServeHeaders(chainHasV2: bool, negotiated: Option<Version>) {
    !chainHasV2 || negotiated == Some(PROTOCOL_VERSION_V2)
  }

  type Blocks = seq<(Digest, AnyHeader)>

  datatype Session = Session(tip: Option<Digest>, negotiated: Option<Version>)

  datatype Request =
    | ServerVersion(min: Version, max: Version) // a single version is a range of one
    | Subscribe
    | BlockHeader(height: nat)
    | BlockHeaders(start: nat, count: nat)
    | NotifyTip // the server's own turn to notify a subscribed client

  datatype Reply = Refused | NotFound | Agreed(version: Version) | Sent(headers: seq<AnyHeader>) | Nothing

  function Range(chain: Blocks, start: nat, count: nat): seq<AnyHeader> {
    var end := Min(|chain|, start + Min(count, MAX_HEADERS));
    if start >= end then [] else seq(end - start, i requires 0 <= i < end - start => chain[start + i].1)
  }

  /** What one request does to the session and what is sent back. */
  function Handle(chain: Blocks, s: Session, request: Request): (Session, Reply)
    requires |chain| > 0
  {
    var tip := chain[|chain| - 1];
    var serves := MayServeHeaders(TipIsV2(chain), s.negotiated);
    match request
    case ServerVersion(min, max) =>
      var version := ProtocolVersion(TipIsV2(chain));
      if Between(version, (min, max)) then (s.(negotiated := Some(version)), Agreed(version)) else (s, Refused)
    case Subscribe =>
      if serves then (s.(tip := Some(tip.0)), Sent([tip.1])) else (s, Refused)
    case BlockHeader(height) =>
      if !serves then (s, Refused)
      else if height < |chain| then (s, Sent([chain[height].1]))
      else (s, NotFound)
    case BlockHeaders(start, count) =>
      if serves then (s, Sent(Range(chain, start, count))) else (s, Refused)
    case NotifyTip =>
      if s.tip.None? || s.tip == Some(tip.0) then (s, Nothing)
      else if serves then (s.(tip := Some(tip.0)), Sent([tip.1]))
      else (s, Refused)
  }

  // ----- what each request gets

  /** Each header stands beside its own hash. */
  predicate OwnHashes(H: Hashes, chain: Blocks) {
    forall i :: 0 <= i < |chain| ==> chain[i].0 == BlockHash(H, chain[i].1)
  }

  /** Versions are totally ordered, by major number first, then by minor. */
  lemma VersionsAreOrdered(a: Version, b: Version, c: Version)
    ensures AtMost(a, b) || AtMost(b, a)
    ensures AtMost(a, b) && AtMost(b, a) ==> a == b
    ensures AtMost(a, b) && AtMost(b, c) ==> AtMost(a, c)
    ensures a.major < b.major || (a.major == b.major && a.minor < b.minor) ==> AtMost(a, b) && !AtMost(b, a)
  {
  }

  /** A handshake is accepted exactly when its range holds 1.8 on a chain with a v2 tip, or 1.4 on any other. */
  lemma HandshakeExactly(chain: Blocks, s: Session, min: Version, max: Version)
    requires |chain| > 0
    ensures var speaks := if chain[|chain| - 1].1.V2? then Version(1, 8, 0) else Version(1, 4, 0);
            var (s', reply) := Handle(chain, s, ServerVersion(min, max));
            if AtMost(min, speaks) && AtMost(speaks, max) then
              reply == Agreed(speaks) && s' == s.(negotiated := Some(speaks))
            else
              reply == Refused && s' == s
  {
  }

  /** A client that offers one version only: 1.4 is accepted exactly while the tip is v1, 1.8 exactly while it is v2. */
  lemma OneVersionOffered(chain: Blocks, s: Session)
    requires |chain| > 0
    ensures var only := Version(1, 4, 0);
            Handle(chain, s, ServerVersion(only, only)).1.Agreed? <==> !chain[|chain| - 1].1.V2?
    ensures var only := Version(1, 8, 0);
            Handle(chain, s, ServerVersion(only, only)).1.Agreed? <==> chain[|chain| - 1].1.V2?
  {
    VersionsAreOrdered(Version(1, 4, 0), Version(1, 8, 0), Version(1, 8, 0));
  }

  /** Whoever was accepted on a chain is refused no header of it. */
  lemma AcceptedIsServed(chain: Blocks, s: Session, min: Version, max: Version, r: Request)
    requires |chain| > 0 && !r.ServerVersion? && Handle(chain, s, ServerVersion(min, max)).1.Agreed?
    ensures !Handle(chain, Handle(chain, s, ServerVersion(min, max)).0, r).1.Refused?
  {
  }

  /** How many headers an answer has, and that the i-th is the one at that height. */
  lemma RangeIs(chain: Blocks, start: nat, count: nat)
    ensures |Range(chain, start, count)|
         == if start >= |chain| then 0 else Min(|chain| - start, Min(count, 2016))
    ensures forall i :: 0 <= i < |Range(chain, start, count)| ==> Range(chain, start, count)[i] == chain[start + i].1
  {
  }

  /** Whoever may have headers is sent the chain's own, by whichever request; whoever may not is refused each time. */
  lemma HeadersAreTheChains(chain: Blocks, s: Session, height: nat)
    requires |chain| > 0
    ensures var top := |chain| - 1;
            var one := Handle(chain, s, BlockHeader(height)).1;
            var run := Handle(chain, s, BlockHeaders(height, 1)).1;
            var subscribed := Handle(chain, s, Subscribe).1;
            if chain[top].1.V2? && s.negotiated != Some(Version(1, 8, 0)) then
              one == Refused && run == Refused && subscribed == Refused
            else
              && subscribed == Sent([chain[top].1])
              && (height < |chain| ==> one == run == Sent([chain[height].1]))
              && (height >= |chain| ==> one == NotFound && run == Sent([]))
  {
    RangeIs(chain, height, 1);
  }

  /** Consecutive requests join into one, as far as one answer goes. */
  lemma RequestsJoin(chain: Blocks, s: Session, start: nat, a: nat, b: nat)
    requires |chain| > 0 && a + b <= 2016 && Handle(chain, s, BlockHeaders(start, a + b)).1.Sent?
    ensures var first := Handle(chain, s, BlockHeaders(start, a)).1;
            var second := Handle(chain, s, BlockHeaders(start + a, b)).1;
            && first.Sent? && second.Sent?
            && Handle(chain, s, BlockHeaders(start, a + b)).1.headers == first.headers + second.headers
  {
    hide Range, TipIsV2;
    RangesJoin(chain, start, a, b);
  }

  lemma RangesJoin(chain: Blocks, start: nat, a: nat, b: nat)
    requires a + b <= 2016
    ensures Range(chain, start, a + b) == Range(chain, start, a) + Range(chain, start + a, b)
  {
    hide Range;
    RangeIs(chain, start, a + b);
    RangeIs(chain, start, a);
    RangeIs(chain, start + a, b);
    var all, first, second := Range(chain, start, a + b), Range(chain, start, a), Range(chain, start + a, b);
    assert |all| == |first| + |second|;
    forall i | 0 <= i < |all|
      ensures all[i] == (first + second)[i]
    {
      if i >= |first| {
        assert second[i - a] == chain[start + a + (i - a)].1;
      }
    }
  }

  /** Each header names the hash of the one below it. */
  predicate Linked(chain: Blocks) {
    forall i :: 0 < i < |chain| ==> chain[i].1.Prev() == chain[i - 1].0
  }

  /** On a linked chain an answer is a linked run, and stands on the header below its start. */
  lemma ServedHeadersLink(H: Hashes, chain: Blocks, s: Session, start: nat, count: nat, i: nat)
    requires |chain| > 0 && Linked(chain) && OwnHashes(H, chain)
    requires Handle(chain, s, BlockHeaders(start, count)).1.Sent?
    requires i < |Handle(chain, s, BlockHeaders(start, count)).1.headers|
    ensures var hs := Handle(chain, s, BlockHeaders(start, count)).1.headers;
            && (i > 0 ==> hs[i].Prev() == BlockHash(H, hs[i - 1]))
            && (i == 0 && start > 0 ==> hs[0].Prev() == BlockHash(H, chain[start - 1].1))
  {
    hide BlockHash, Range;
    RangeIs(chain, start, count);
    assert chain[start + i].1.Prev() == if start + i > 0 then chain[start + i - 1].0 else chain[0].1.Prev();
  }

  // ----- the server's methods

  class Client {
    var tip: Option<Digest>
    var negotiated: Option<Version>

    constructor ()
      ensures View() == Session(None, None)
    {
      tip := None;
      negotiated := None;
    }

    ghost function View(): Session
      reads this
    {
      Session(tip, negotiated)
    }
  }

  class Rpc {
    const chain: Chain

    constructor (chain: Chain)
      ensures this.chain == chain
    {
      this.chain := chain;
    }

    function HasV2Headers(): bool
      requires |chain.headers| > 0
      reads chain
    {
      chain.headers[|chain.headers| - 1].1.IsV2()
    }

    function CheckMayServeHeaders(client: Client): bool
      requires |chain.headers| > 0
      reads chain, client
    {
      MayServeHeaders(HasV2Headers(), client.negotiated)
    }

    method ServeVersion(client: Client, min: Version, max: Version) returns (reply: Reply)
      requires chain.Valid()
      modifies client
      ensures (client.View(), reply) == Handle(chain.headers, old(client.View()), ServerVersion(min, max))
    {
      hide BlockHash, Inverse;
      var version := ProtocolVersion(HasV2Headers());
      if !Between(version, (min, max)) {
        return Refused;
      }
      client.negotiated := Some(version);
      reply := Agreed(version);
    }

    method HeadersSubscribe(client: Client) returns (reply: Reply)
      requires chain.Valid()
      modifies client
      ensures (client.View(), reply) == Handle(chain.headers, old(client.View()), Subscribe)
    {
      hide BlockHash, Inverse;
      if !CheckMayServeHeaders(client) {
        return Refused;
      }
      client.tip := Some(chain.Tip());
      var height := chain.Height();
      reply := Sent([chain.GetBlockHeader(height).value]);
    }

    method ServeBlockHeader(client: Client, height: nat) returns (reply: Reply)
      requires chain.Valid()
      ensures (client.View(), reply) == Handle(chain.headers, client.View(), BlockHeader(height))
    {
      if !CheckMayServeHeaders(client) {
        return Refused;
      }
      match chain.GetBlockHeader(height) {
        case None => reply := NotFound;
        case Some(header) => reply := Sent([header]);
      }
    }

    method ServeBlockHeaders(client: Client, start: nat, count: nat) returns (reply: Reply)
      requires chain.Valid()
      ensures (client.View(), reply) == Handle(chain.headers, client.View(), BlockHeaders(start, count))
    {
      hide BlockHash, Inverse;
      if !CheckMayServeHeaders(client) {
        return Refused;
      }
      var headers := Collect(start, count);
      reply := Sent(headers);
    }

    /** Only the available headers. */
    method Collect(start: nat, count: nat) returns (headers: seq<AnyHeader>)
      requires chain.Valid()
      ensures headers == Range(chain.headers, start, count)
    {
      hide BlockHash;
      var end := Min(chain.Height() + 1, start + Min(count, MAX_HEADERS));
      headers := [];
      if start >= end {
        return;
      }
      for height := start to end
        invariant |headers| == height - start
        invariant forall i :: 0 <= i < |headers| ==> headers[i] == chain.headers[start + i].1
      {
        headers := headers + [chain.GetBlockHeader(height).value];
      }
    }

    /** The header half of `update_client`; a refusal here disconnects the client. */
    method UpdateClient(client: Client) returns (reply: Reply)
      requires chain.Valid()
      modifies client
      ensures (client.View(), reply) == Handle(chain.headers, old(client.View()), NotifyTip)
    {
      hide BlockHash, Inverse;
      if client.tip.Some? {
        var newTip := chain.Tip();
        if client.tip.value != newTip {
          if !CheckMayServeHeaders(client) {
            return Refused;
          }
          client.tip := Some(newTip);
          return Sent([chain.GetBlockHeader(chain.Height()).value]);
        }
      }
      reply := Nothing;
    }
  }

  // ----- one chain

  /** The chain's format is decided by height: v1 below the activation, v2 from it. */
  predicate ActivatesAt(chain: Blocks, activation: nat) {
    forall i :: 0 <= i < |chain| ==> (V2At(chain, i) <==> i >= activation)
  }

  predicate HoldsV2(hs: seq<AnyHeader>) {
    exists h :: h in hs && h.IsV2()
  }

  /** No request gets a v2 header out of this chain for a session that has not agreed on 1.8. */
  ghost predicate Guards(chain: Blocks)
    requires |chain| > 0
  {
    forall s: Session, r: Request {:trigger Handle(chain, s, r)} ::
      var reply := Handle(chain, s, r).1;
      reply.Sent? && HoldsV2(reply.headers) ==> s.negotiated == Some(PROTOCOL_VERSION_V2)
  }

  /** Looking at the tip alone is right for exactly the chains whose tip is v2 or which hold no v2 header. */
  lemma GuardsExactly(chain: Blocks)
    requires |chain| > 0
    ensures Guards(chain) <==> TipIsV2(chain) || forall i :: 0 <= i < |chain| ==> !V2At(chain, i)
  {
    if Guards(chain) && !TipIsV2(chain) {
      forall i | 0 <= i < |chain|
        ensures !V2At(chain, i)
      {
        var s := Session(None, None);
        var reply := Handle(chain, s, BlockHeader(i)).1;
        assert chain[i].1 in reply.headers;
      }
    }
    if TipIsV2(chain) || forall i :: 0 <= i < |chain| ==> !V2At(chain, i) {
      forall s: Session, r: Request
        ensures var reply := Handle(chain, s, r).1;
                reply.Sent? && HoldsV2(reply.headers) ==> s.negotiated == Some(PROTOCOL_VERSION_V2)
      {
        var reply := Handle(chain, s, r).1;
        if reply.Sent? && HoldsV2(reply.headers) {
          SentHeadersAreOnChain(chain, s, r);
          var h :| h in reply.headers && h.IsV2();
          var i :| 0 <= i < |chain| && chain[i].1 == h;
          assert V2At(chain, i);
        }
      }
    }
  }

  lemma SentHeadersAreOnChain(chain: Blocks, s: Session, r: Request)
    requires |chain| > 0 && Handle(chain, s, r).1.Sent?
    ensures forall h :: h in Handle(chain, s, r).1.headers ==> exists i :: 0 <= i < |chain| && chain[i].1 == h
  {
    match r
    case BlockHeaders(start, count) =>
      forall h | h in Range(chain, start, count)
        ensures exists i :: 0 <= i < |chain| && chain[i].1 == h
      {
        var k :| 0 <= k < |Range(chain, start, count)| && Range(chain, start, count)[k] == h;
        assert chain[start + k].1 == h;
      }
    case _ =>
  }

  lemma ActivationGuards(chain: Blocks, activation: nat)
    requires |chain| > 0 && ActivatesAt(chain, activation)
    ensures Guards(chain)
  {
    GuardsExactly(chain);
  }

  /** A client at 1.8 is never refused a header, and below the activation nobody is. */
  lemma NoneRefusedNeedlessly(chain: Blocks, s: Session, r: Request)
    requires |chain| > 0 && !r.ServerVersion?
    ensures Handle(chain, s, r).1.Refused? ==> TipIsV2(chain) && s.negotiated != Some(PROTOCOL_VERSION_V2)
  {
  }

  // ----- runs

  datatype State = State(chain: Blocks, sessions: map<nat, Session>)

  datatype Action =
    | NewBlocks(from: nat, headers: seq<AnyHeader>) // truncate from this height, then append: growth or a reorg
    | Connect(client: nat)
    | Turn(client: nat, request: Request)

  /** Blocks connect above the genesis, leave no gap, and have the format of their height. */
  predicate Legal(chain: Blocks, activation: nat, a: Action) {
    a.NewBlocks? ==>
      && 1 <= a.from <= |chain| && a.headers != []
      && forall i :: 0 <= i < |a.headers| ==> (a.headers[i].IsV2() <==> a.from + i >= activation)
  }

  function Step(H: Hashes, st: State, a: Action): (State, Reply)
    requires |st.chain| > 0
  {
    match a
    case NewBlocks(from, hs) =>
      (st.(chain := st.chain[..Min(from, |st.chain|)] + Hashed(H, hs)), Nothing)
    case Connect(c) => (st.(sessions := st.sessions[c := Session(None, None)]), Nothing)
    case Turn(c, request) =>
      if c !in st.sessions then (st, Nothing)
      else
        var (s, reply) := Handle(st.chain, st.sessions[c], request);
        if request.NotifyTip? && reply.Refused? then (st.(sessions := st.sessions - {c}), reply)
        else (st.(sessions := st.sessions[c := s]), reply)
  }

  /** The states a run passes through are those of its prefixes. */
  function After(H: Hashes, st: State, run: seq<Action>): (end: State)
    requires |st.chain| > 0
    requires forall i :: 0 <= i < |run| && run[i].NewBlocks? ==> run[i].from >= 1
    ensures |end.chain| > 0
  {
    if run == [] then st else Step(H, After(H, st, run[..|run| - 1]), run[|run| - 1]).0
  }

  predicate LegalRun(H: Hashes, st: State, activation: nat, run: seq<Action>)
    requires |st.chain| > 0
  {
    && (forall i :: 0 <= i < |run| && run[i].NewBlocks? ==> run[i].from >= 1)
    && (run == [] || (LegalRun(H, st, activation, run[..|run| - 1])
                      && Legal(After(H, st, run[..|run| - 1]).chain, activation, run[|run| - 1])))
  }

  /** The range of the last `server.version` this connection had accepted. */
  function LastAccepted(H: Hashes, st: State, run: seq<Action>, c: nat): Option<(Version, Version)>
    requires |st.chain| > 0
    requires forall i :: 0 <= i < |run| && run[i].NewBlocks? ==> run[i].from >= 1
  {
    if run == [] then None
    else
      var before, last := run[..|run| - 1], run[|run| - 1];
      if last == Connect(c) then None
      else if last.Turn? && last.client == c && last.request.ServerVersion?
              && Step(H, After(H, st, before), last).1.Agreed? then Some((last.request.min, last.request.max))
      else LastAccepted(H, st, before, c)
  }

  predicate StartsFresh(st: State, activation: nat) {
    |st.chain| > 0 && ActivatesAt(st.chain, activation) && st.sessions == map[]
  }

  lemma {:induction false} ChainKeepsItsActivation(H: Hashes, st: State, activation: nat, run: seq<Action>)
    requires StartsFresh(st, activation) && LegalRun(H, st, activation, run)
    ensures ActivatesAt(After(H, st, run).chain, activation)
  {
    hide BlockHash;
    if run == [] {
    } else {
      var before, last := run[..|run| - 1], run[|run| - 1];
      ChainKeepsItsActivation(H, st, activation, before);
      if last.NewBlocks? {
        var chain, chain' := After(H, st, before).chain, After(H, st, run).chain;
        forall i | 0 <= i < |chain'|
          ensures V2At(chain', i) <==> i >= activation
        {
          if i < last.from {
            assert V2At(chain, i) <==> i >= activation;
          } else {
            assert chain'[i].1 == last.headers[i - last.from];
          }
        }
      }
    }
  }

  /** A session's agreed version is always one its client's last accepted range contains. */
  lemma {:induction false} NegotiatedWasAccepted(H: Hashes, st: State, activation: nat, run: seq<Action>, c: nat)
    requires StartsFresh(st, activation) && LegalRun(H, st, activation, run)
    requires c in After(H, st, run).sessions
    ensures match After(H, st, run).sessions[c].negotiated
            case None => LastAccepted(H, st, run, c) == None
            case Some(v) => LastAccepted(H, st, run, c).Some? && Between(v, LastAccepted(H, st, run, c).value)
  {
    hide BlockHash, Between, Range;
    if run == [] {
    } else {
      var before, last := run[..|run| - 1], run[|run| - 1];
      if last != Connect(c) {
        NegotiatedWasAccepted(H, st, activation, before, c);
      }
    }
  }

  /**
   In every run, a v2 header is only ever sent to a client whose last accepted range
   contained 1.8: whatever growth, reorgs, and other clients' turns came in between.
   */
  lemma V2OnlyToAcceptedClients(H: Hashes, st: State, activation: nat, run: seq<Action>, k: nat)
    requires k < |run| && run[k].Turn?
    requires StartsFresh(st, activation) && LegalRun(H, st, activation, run[..k])
    requires var reply := Step(H, After(H, st, run[..k]), run[k]).1; reply.Sent? && HoldsV2(reply.headers)
    ensures var accepted := LastAccepted(H, st, run[..k], run[k].client);
            accepted.Some? && Between(PROTOCOL_VERSION_V2, accepted.value)
  {
    hide BlockHash, Between, Range, HoldsV2, LastAccepted;
    var before, c := run[..k], run[k].client;
    var now := After(H, st, before);
    ChainKeepsItsActivation(H, st, activation, before);
    ActivationGuards(now.chain, activation);
    assert Handle(now.chain, now.sessions[c], run[k].request).1 == Step(H, now, run[k]).1;
    NegotiatedWasAccepted(H, st, activation, before, c);
  }

  /** A refused turn leaves every session as it was, except that a refused notification disconnects its client. */
  lemma RefusalChangesNothing(H: Hashes, st: State, c: nat, request: Request)
    requires |st.chain| > 0 && Step(H, st, Turn(c, request)).1.Refused?
    ensures Step(H, st, Turn(c, request)).0
         == if request.NotifyTip? then st.(sessions := st.sessions - {c}) else st
  {
    assert st.sessions[c := st.sessions[c]] == st.sessions;
  }

  // ----- who is served, in every run

  /** Whether the tip was v2 when the last `server.version` of this connection was accepted. */
  function AcceptedOnV2(H: Hashes, st: State, run: seq<Action>, c: nat): Option<bool>
    requires |st.chain| > 0
    requires forall i :: 0 <= i < |run| && run[i].NewBlocks? ==> run[i].from >= 1
  {
    if run == [] then None
    else
      var before, last := run[..|run| - 1], run[|run| - 1];
      var now := After(H, st, before);
      if last == Connect(c) then None
      else if last.Turn? && last.client == c && last.request.ServerVersion? && Step(H, now, last).1.Agreed? then
        Some(now.chain[|now.chain| - 1].1.V2?)
      else AcceptedOnV2(H, st, before, c)
  }

  lemma {:induction false} NegotiatedByTip(H: Hashes, st: State, run: seq<Action>, c: nat)
    requires |st.chain| > 0 && st.sessions == map[]
    requires forall i :: 0 <= i < |run| && run[i].NewBlocks? ==> run[i].from >= 1
    requires c in After(H, st, run).sessions
    ensures After(H, st, run).sessions[c].negotiated
         == match AcceptedOnV2(H, st, run, c)
            case None => None
            case Some(v2) => Some(if v2 then Version(1, 8, 0) else Version(1, 4, 0))
  {
    hide BlockHash, AtMost, Range;
    if run == [] {
    } else {
      var before, last := run[..|run| - 1], run[|run| - 1];
      if last != Connect(c) {
        NegotiatedByTip(H, st, before, c);
        if last.Turn? && last.client == c && last.request.ServerVersion? {
          var now := After(H, st, before);
          HandshakeExactly(now.chain, now.sessions[c], last.request.min, last.request.max);
        }
      }
    }
  }

  /**
   In every run, a client that asks for headers is refused exactly when the tip is v2 and it
   was not v2 when the client's last handshake was accepted, if any was.
   */
  lemma RefusedExactly(H: Hashes, st: State, run: seq<Action>, c: nat, r: Request)
    requires |st.chain| > 0 && st.sessions == map[]
    requires forall i :: 0 <= i < |run| && run[i].NewBlocks? ==> run[i].from >= 1
    requires c in After(H, st, run).sessions && (r.Subscribe? || r.BlockHeader? || r.BlockHeaders?)
    ensures var now := After(H, st, run);
            Step(H, now, Turn(c, r)).1.Refused?
            <==> now.chain[|now.chain| - 1].1.V2? && AcceptedOnV2(H, st, run, c) != Some(true)
  {
    hide BlockHash, Range, AcceptedOnV2;
    NegotiatedByTip(H, st, run, c);
  }

  /** In every run, 1.4 alone is accepted exactly below the activation height, and 1.8 alone exactly from it. */
  lemma OneVersionInRuns(H: Hashes, st: State, activation: nat, run: seq<Action>, c: nat)
    requires StartsFresh(st, activation) && LegalRun(H, st, activation, run) && c in After(H, st, run).sessions
    ensures var now := After(H, st, run);
            var old_, new_ := Version(1, 4, 0), Version(1, 8, 0);
            && (Step(H, now, Turn(c, ServerVersion(old_, old_))).1.Agreed? <==> |now.chain| - 1 < activation)
            && (Step(H, now, Turn(c, ServerVersion(new_, new_))).1.Agreed? <==> |now.chain| - 1 >= activation)
  {
    hide BlockHash, AtMost;
    var now := After(H, st, run);
    ChainKeepsItsActivation(H, st, activation, run);
    assert V2At(now.chain, |now.chain| - 1) <==> |now.chain| - 1 >= activation;
    OneVersionOffered(now.chain, now.sessions[c]);
  }

  // ----- blocks

  function Heights(H: Hashes, hs: seq<AnyHeader>, from: nat): seq<NewHeader> {
    seq(|hs|, i requires 0 <= i < |hs| => NewHeader(hs[i], BlockHash(H, hs[i]), from + i))
  }

  /** What the run's step for new blocks leaves is what the chain's own update leaves. */
  method ConnectBlocks(chain: Chain, from: nat, hs: seq<AnyHeader>, ghost sessions: map<nat, Session>)
    requires chain.Valid() && 1 <= from <= |chain.headers| && hs != []
    requires Distinct(chain.headers[..from] + Hashed(chain.H, hs))
    modifies chain
    ensures chain.Valid()
    ensures Step(chain.H, State(old(chain.headers), sessions), NewBlocks(from, hs)).0 == State(chain.headers, sessions)
  {
    hide BlockHash, Inverse, Distinct;
    var new_ := Heights(chain.H, hs, from);
    assert Entries(new_) == Hashed(chain.H, hs);
    chain.Update(new_);
  }

  // ----- notifications

  predicate ShowsTip(H: Hashes, now: State, last: Action, c: nat)
    requires |now.chain| > 0
  {
    last.Turn? && last.client == c && (last.request.Subscribe? || last.request.NotifyTip?) && Step(H, now, last).1.Sent?
  }

  /** The hash of the last tip header that was sent on this connection. */
  function LastTip(H: Hashes, st: State, run: seq<Action>, c: nat): Option<Digest>
    requires |st.chain| > 0
    requires forall i :: 0 <= i < |run| && run[i].NewBlocks? ==> run[i].from >= 1
  {
    if run == [] then None
    else
      var before, last := run[..|run| - 1], run[|run| - 1];
      if last == Connect(c) then None
      else if ShowsTip(H, After(H, st, before), last, c) then
        Some(BlockHash(H, Step(H, After(H, st, before), last).1.headers[0]))
      else LastTip(H, st, before, c)
  }

  lemma StepKeepsOwnHashes(H: Hashes, st: State, a: Action)
    requires |st.chain| > 0 && OwnHashes(H, st.chain)
    ensures OwnHashes(H, Step(H, st, a).0.chain)
  {
    hide BlockHash, Handle;
  }

  lemma {:induction false} SessionKnowsLastTip(H: Hashes, st: State, run: seq<Action>, c: nat)
    requires |st.chain| > 0 && st.sessions == map[] && OwnHashes(H, st.chain)
    requires forall i :: 0 <= i < |run| && run[i].NewBlocks? ==> run[i].from >= 1
    ensures OwnHashes(H, After(H, st, run).chain)
    ensures c in After(H, st, run).sessions ==> After(H, st, run).sessions[c].tip == LastTip(H, st, run, c)
  {
    hide BlockHash, Range;
    if run == [] {
    } else {
      var before, last := run[..|run| - 1], run[|run| - 1];
      SessionKnowsLastTip(H, st, before, c);
      StepKeepsOwnHashes(H, After(H, st, before), last);
    }
  }

  /**
   In every run, a subscribed client is sent the tip exactly when it is not the last one it
   was sent; if it may not have it, it is refused.
   */
  lemma NotifiedOfEveryNewTip(H: Hashes, st: State, run: seq<Action>, c: nat)
    requires |st.chain| > 0 && st.sessions == map[] && OwnHashes(H, st.chain)
    requires forall i :: 0 <= i < |run| && run[i].NewBlocks? ==> run[i].from >= 1
    requires c in After(H, st, run).sessions
    ensures var now := After(H, st, run);
            var tip := now.chain[|now.chain| - 1].1;
            var known := LastTip(H, st, run, c);
            Step(H, now, Turn(c, NotifyTip)).1
            == if known.None? || known == Some(BlockHash(H, tip)) then Nothing
               else if MayServeHeaders(tip.IsV2(), now.sessions[c].negotiated) then Sent([tip])
               else Refused
  {
    hide BlockHash, LastTip;
    SessionKnowsLastTip(H, st, run, c);
  }
}
