/**
 Where a batch of blocks is fetched from on a pruned node: maximal runs of blocks the
 node still holds go to the p2p connection, the rest are read from an archival helper
 when it can supply them, and over RPC otherwise.
 */
module Routing {
  import opened Bytes
  import opened Headers
  import opened Hashing

  const USIZE_MAX: nat := 0xFFFF_FFFF_FFFF_FFFF

  datatype HelperReply = Gave(block: bytes) | BlockNotFound | OtherError

  /**
   The block sources. The helper may answer anything, differently each time it is asked;
   `p2p` is the i-th reply on the connection; `rpc` is what a retried `getblock` ends with.
   */
  datatype Sources = Sources(
    H: Hashes,
    helper: Option<(nat, Digest) -> HelperReply>,
    p2p: (nat, Digest) -> Option<bytes>,
    rpc: Digest -> Option<bytes>)

  datatype Ask = GetData(hashes: seq<Digest>, heights: seq<nat>) | AskHelper(hash: Digest, height: nat)
      | AskRpc(hash: Digest, height: nat)

  /** The daemon's state, with what it has asked for and what it has handed to the caller. */
  datatype World = World(
    ceiling: nat,
    helperCalls: nat,
    p2pReplies: nat,
    unknown: seq<nat>, // heights of the blocks the helper reported unknown, in order
    asks: seq<Ask>,
    delivered: seq<(Digest, bytes)>)

  /** The bytes start with a header that has this hash. */
  predicate HasHash(H: Hashes, hash: Digest, block: bytes) {
    var header := Parse(block);
    header.Ok? && BlockHash(H, header.value) == hash
  }

  function Deliver(w: World, hash: Digest, block: bytes): World {
    w.(delivered := w.delivered + [(hash, block)])
  }

  /** `block_from_helper`: never an error, and nothing is taken that does not have the hash asked for. */
  function FromHelper(src: Sources, w: World, hash: Digest, height: nat): (Option<bytes>, World) {
    if src.helper.None? || height >= w.ceiling then (None, w)
    else
      var w' := w.(helperCalls := w.helperCalls + 1, asks := w.asks + [AskHelper(hash, height)]);
      match src.helper.value(w.helperCalls, hash)
      case Gave(block) => (if HasHash(src.H, hash, block) then Some(block) else None, w')
      case BlockNotFound => (None, w'.(ceiling := height, unknown := w.unknown + [height]))
      case OtherError => (None, w')
  }

  function FetchPruned(src: Sources, w: World, hash: Digest, height: nat): (bool, World) {
    var (block, w1) := FromHelper(src, w, hash, height);
    if block.Some? then (true, Deliver(w1, hash, block.value))
    else
      var w2 := w1.(asks := w1.asks + [AskRpc(hash, height)]);
      match src.rpc(hash)
      case None => (false, w2)
      case Some(b) => (true, Deliver(w2, hash, b))
  }

  /** The next reply on the connection, which must be the block expected at this position. */
  function ReceiveLocal(src: Sources, w: World, hash: Digest): (bool, World) {
    var w' := w.(p2pReplies := w.p2pReplies + 1);
    match src.p2p(w.p2pReplies, hash)
    case None => (false, w')
    case Some(b) => if HasHash(src.H, hash, b) then (true, Deliver(w', hash, b)) else (false, w')
  }

  // ----- one block at a time: the simple form

  /** What happens at one position of the batch. */
  function Fetched(src: Sources, w: World, hashes: seq<Digest>, heights: seq<nat>, prune: nat, i: nat): (bool, World)
    requires |hashes| == |heights| && i < |hashes|
  {
    if heights[i] >= prune then ReceiveLocal(src, w, hashes[i]) else FetchPruned(src, w, hashes[i], heights[i])
  }

  /** Each block from its source in turn, as if runs did not exist; blocks before `upto` only. */
  function Each(src: Sources, w: World, hashes: seq<Digest>, heights: seq<nat>, prune: nat, i: nat, upto: nat)
      : (bool, World)
    requires |hashes| == |heights| && i <= upto <= |hashes|
    decreases upto - i
  {
    if i == upto then (true, w)
    else
      var (ok, w') := Fetched(src, w, hashes, heights, prune, i);
      if ok then Each(src, w', hashes, heights, prune, i + 1, upto) else (false, w')
  }

  // ----- by runs

  predicate Local(heights: seq<nat>, prune: nat, i: nat)
    requires i < |heights|
  {
    heights[i] >= prune
  }

  /** Where the run that contains `end - 1` stops. */
  function RunEnd(heights: seq<nat>, prune: nat, start: nat, end: nat): (e: nat)
    requires start < end <= |heights|
    requires forall k :: start <= k < end ==> Local(heights, prune, k) == Local(heights, prune, start)
    ensures end <= e <= |heights|
    ensures forall k :: start <= k < e ==> Local(heights, prune, k) == Local(heights, prune, start)
    ensures e < |heights| ==> Local(heights, prune, e) != Local(heights, prune, start)
    decreases |heights| - end
  {
    if end < |heights| && Local(heights, prune, end) == Local(heights, prune, start) then
      RunEnd(heights, prune, start, end + 1)
    else
      end
  }

  function LocalRun(src: Sources, w: World, hashes: seq<Digest>, heights: seq<nat>, prune: nat, start: nat, end: nat)
      : (bool, World)
    requires |hashes| == |heights| && start <= end <= |hashes|
  {
    var asked := w.(asks := w.asks + [GetData(hashes[start..end], heights[start..end])]);
    Each(src, asked, hashes, heights, prune, start, end)
  }

  function ByRuns(src: Sources, w: World, hashes: seq<Digest>, heights: seq<nat>, prune: nat, start: nat): (bool, World)
    requires |hashes| == |heights| && start <= |hashes|
    decreases |hashes| - start
  {
    if start == |hashes| then (true, w)
    else
      var end := RunEnd(heights, prune, start, start + 1);
      var (ok, w') :=
        if Local(heights, prune, start) then LocalRun(src, w, hashes, heights, prune, start, end)
        else Each(src, w, hashes, heights, prune, start, end);
      if ok then ByRuns(src, w', hashes, heights, prune, end) else (false, w')
  }

  /** An archival node's batch goes to p2p whole; no height is read for it. */
  ghost function Unread(hashes: seq<Digest>): (heights: seq<nat>)
    ensures |heights| == |hashes|
  {
    seq(|hashes|, _ => 0)
  }

  // ----- the daemon

  class Daemon {
    const src: Sources
    const pruned: bool
    var helperCeiling: nat
    var helperCalls: nat
    var p2pReplies: nat
    ghost var unknown: seq<nat>
    ghost var asks: seq<Ask>
    ghost var delivered: seq<(Digest, bytes)>

    constructor (src: Sources, pruned: bool)
      ensures this.src == src && this.pruned == pruned
      ensures State() == World(USIZE_MAX, 0, 0, [], [], [])
    {
      this.src := src;
      this.pruned := pruned;
      helperCeiling := USIZE_MAX;
      helperCalls := 0;
      p2pReplies := 0;
      unknown, asks, delivered := [], [], [];
    }

    ghost function State(): World
      reads this
    {
      World(helperCeiling, helperCalls, p2pReplies, unknown, asks, delivered)
    }

    method BlockFromHelper(hash: Digest, height: nat) returns (block: Option<bytes>)
      modifies this
      ensures (block, State()) == FromHelper(src, old(State()), hash, height)
      ensures block.Some? ==> HasHash(src.H, hash, block.value)
      ensures helperCeiling == if src.helper.Some? && height < old(helperCeiling)
                                  && src.helper.value(old(helperCalls), hash).BlockNotFound? then height
                               else old(helperCeiling)
    {
      if src.helper.None? {
        return None;
      }
      if height >= helperCeiling {
        return None;
      }
      var reply := src.helper.value(helperCalls, hash);
      helperCalls := helperCalls + 1;
      asks := asks + [AskHelper(hash, height)];
      match reply {
        case Gave(bytes) =>
          var header := Parse(bytes);
          if header.Ok? && BlockHash(src.H, header.value) == hash {
            return Some(bytes);
          }
          return None;
        case BlockNotFound =>
          helperCeiling := height;
          unknown := unknown + [height];
          return None;
        case OtherError =>
          return None;
      }
    }

    /** `Connection::for_blocks`: one request for the run, then its replies in order. */
    method P2pForBlocks(hashes: seq<Digest>, ghost all: seq<Digest>, ghost heights: seq<nat>, ghost prune: nat,
        ghost start: nat)
      returns (ok: bool)
      requires |all| == |heights| && start + |hashes| <= |all| && hashes == all[start..start + |hashes|]
      requires forall k :: start <= k < start + |hashes| ==> heights[k] >= prune
      modifies this
      ensures (ok, State()) == LocalRun(src, old(State()), all, heights, prune, start, start + |hashes|)
    {
      hide HasHash;
      ghost var end := start + |hashes|;
      asks := asks + [GetData(hashes, heights[start..end])];
      ghost var w := State();
      var i := 0;
      while i < |hashes|
        invariant 0 <= i <= |hashes|
        invariant Each(src, w, all, heights, prune, start, end)
              == Each(src, State(), all, heights, prune, start + i, end)
      {
        assert hashes[i] == all[start + i];
        var reply := src.p2p(p2pReplies, hashes[i]);
        p2pReplies := p2pReplies + 1;
        if reply.None? || !HasHash(src.H, hashes[i], reply.value) {
          return false;
        }
        delivered := delivered + [(hashes[i], reply.value)];
        i := i + 1;
      }
      ok := true;
    }

    /**
     `for_blocks_with`, relative to the prune height and the heights it read for this
     batch; either read may have failed. Returns whether the whole batch was delivered.
     */
    method ForBlocksWith(hashes: seq<Digest>, pruneHeight: Option<nat>, blockHeights: Option<seq<nat>>)
        returns (ok: bool)
      requires blockHeights.Some? ==> |blockHeights.value| == |hashes|
      modifies this
      ensures !pruned ==> (ok, State()) == LocalRun(src, old(State()), hashes, Unread(hashes), 0, 0, |hashes|)
      ensures pruned && hashes != [] && (pruneHeight.None? || blockHeights.None?) ==> !ok && State() == old(State())
      ensures pruned && hashes == [] ==> ok && State() == old(State())
      ensures pruned && hashes != [] && pruneHeight.Some? && blockHeights.Some? ==>
                (ok, State()) == ByRuns(src, old(State()), hashes, blockHeights.value, pruneHeight.value, 0)
    {
      hide FetchPruned, ReceiveLocal;
      if !pruned {
        assert hashes[0..|hashes|] == hashes;
        ok := P2pForBlocks(hashes, hashes, Unread(hashes), 0, 0);
        return;
      }
      if hashes == [] {
        return true;
      }
      if pruneHeight.None? || blockHeights.None? {
        return false;
      }
      var prune, heights := pruneHeight.value, blockHeights.value;
      ghost var w := State();
      var start := 0;
      while start < |hashes|
        invariant 0 <= start <= |hashes|
        invariant ByRuns(src, w, hashes, heights, prune, 0) == ByRuns(src, State(), hashes, heights, prune, start)
      {
        ghost var before := State();
        var local := heights[start] >= prune;
        var end := start + 1;
        while end < |hashes| && (heights[end] >= prune) == local
          invariant start < end <= |hashes|
          invariant forall k :: start <= k < end ==> Local(heights, prune, k) == Local(heights, prune, start)
          invariant RunEnd(heights, prune, start, start + 1) == RunEnd(heights, prune, start, end)
        {
          end := end + 1;
        }
        if local {
          forall k | start <= k < end
            ensures heights[k] >= prune
          {
            assert Local(heights, prune, k) == Local(heights, prune, start);
          }
          var all := P2pForBlocks(hashes[start..end], hashes, heights, prune, start);
          if !all {
            return false;
          }
        } else {
          var all := PrunedForBlocks(hashes, heights, prune, start, end);
          if !all {
            return false;
          }
        }
        start := end;
      }
      ok := true;
    }

    /** The blocks of a pruned run: the helper first, then RPC. */
    method PrunedForBlocks(hashes: seq<Digest>, heights: seq<nat>, ghost prune: nat, start: nat, end: nat)
        returns (ok: bool)
      requires |hashes| == |heights| && start <= end <= |hashes|
      requires forall k :: start <= k < end ==> Local(heights, prune, k) == false
      modifies this
      ensures (ok, State()) == Each(src, old(State()), hashes, heights, prune, start, end)
    {
      hide FromHelper;
      for i := start to end
        invariant Each(src, old(State()), hashes, heights, prune, start, end)
              == Each(src, State(), hashes, heights, prune, i, end)
      {
        assert !Local(heights, prune, i);
        var block := BlockFromHelper(hashes[i], heights[i]);
        if block.Some? {
          delivered := delivered + [(hashes[i], block.value)];
        } else {
          asks := asks + [AskRpc(hashes[i], heights[i])];
          var read := src.rpc(hashes[i]);
          if read.None? {
            return false;
          }
          delivered := delivered + [(hashes[i], read.value)];
        }
      }
      ok := true;
    }
  }
}
