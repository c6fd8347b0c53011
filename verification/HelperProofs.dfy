/** The archival helper: what it may change, and what its learned ceiling does in a sequence of batches. */
module HelperProofs {
  import opened Bytes
  import opened Headers
  import opened Hashing
  import opened Routing
  import opened RoutingProofs

  function NoHelper(src: Sources): Sources {
    src.(helper := None)
  }

  function WithHelper(src: Sources, helper: (nat, Digest) -> HelperReply): Sources {
    src.(helper := Some(helper))
  }

  /** Block by block the same, except where a helper's bytes with the right header hash replace what RPC gives. */
  predicate Alike(src: Sources, a: seq<(Digest, bytes)>, b: seq<(Digest, bytes)>) {
    && |a| == |b|
    && forall k :: 0 <= k < |a| ==> AlikeAt(src, a[k], b[k])
  }

  predicate AlikeAt(src: Sources, x: (Digest, bytes), y: (Digest, bytes)) {
    x.0 == y.0 && (x.1 != y.1 ==> HasHash(src.H, x.0, x.1) && src.rpc(x.0) == Some(y.1))
  }

  lemma StepAlike(src: Sources, w: World, w0: World, hash: Digest, height: nat)
    requires w.p2pReplies == w0.p2pReplies && Alike(src, w.delivered, w0.delivered)
    ensures var (ok, v) := FetchPruned(src, w, hash, height);
            var (ok0, v0) := FetchPruned(NoHelper(src), w0, hash, height);
            ok0 ==> ok && v.p2pReplies == v0.p2pReplies && Alike(src, v.delivered, v0.delivered)
    ensures var (ok, v) := ReceiveLocal(src, w, hash);
            var (ok0, v0) := ReceiveLocal(NoHelper(src), w0, hash);
            ok0 ==> ok && v.p2pReplies == v0.p2pReplies && Alike(src, v.delivered, v0.delivered)
  {
    hide HasHash;
  }

  lemma {:induction false} EachAlike(src: Sources, w: World, w0: World, hashes: seq<Digest>, heights: seq<nat>,
      prune: nat, i: nat, upto: nat)
    requires |hashes| == |heights| && i <= upto <= |hashes|
    requires w.p2pReplies == w0.p2pReplies && Alike(src, w.delivered, w0.delivered)
    requires Each(NoHelper(src), w0, hashes, heights, prune, i, upto).0
    ensures var (ok, end) := Each(src, w, hashes, heights, prune, i, upto);
            ok && Alike(src, end.delivered, Each(NoHelper(src), w0, hashes, heights, prune, i, upto).1.delivered)
    decreases upto - i
  {
    hide FetchPruned, ReceiveLocal, Alike;
    if i == upto {
    } else {
      StepAlike(src, w, w0, hashes[i], heights[i]);
      var v := Fetched(src, w, hashes, heights, prune, i).1;
      var v0 := Fetched(NoHelper(src), w0, hashes, heights, prune, i).1;
      EachAlike(src, v, v0, hashes, heights, prune, i + 1, upto);
    }
  }

  /**
   Whatever the helper answers: a batch that succeeds without it succeeds with it, for
   the same hashes in the same order, and any block that differs is the helper's own and
   has the requested header hash.
   */
  lemma HelperNeverHurts(src: Sources, w: World, hashes: seq<Digest>, heights: seq<nat>, prune: nat)
    requires |hashes| == |heights| && ByRuns(NoHelper(src), w, hashes, heights, prune, 0).0
    ensures var (ok, end) := ByRuns(src, w, hashes, heights, prune, 0);
            ok && Alike(src, end.delivered, ByRuns(NoHelper(src), w, hashes, heights, prune, 0).1.delivered)
  {
    hide Each, ByRuns;
    RunsRefineEach(src, w, w, hashes, heights, prune, 0);
    RunsRefineEach(NoHelper(src), w, w, hashes, heights, prune, 0);
    EachAlike(src, w, w, hashes, heights, prune, 0, |hashes|);
  }

  /** Where the helper's reply for this hash would be taken, it is the block RPC gives. */
  ghost predicate Honest(src: Sources, hash: Digest) {
    src.helper.Some? ==>
      forall i {:trigger src.helper.value(i, hash)} ::
        var reply := src.helper.value(i, hash);
        reply.Gave? && HasHash(src.H, hash, reply.block) && src.rpc(hash).Some? ==> reply.block == src.rpc(hash).value
  }

  /** A batch in this state may ask the helper for a block at this height. */
  predicate MayBeAsked(w: World, height: nat, prune: nat) {
    height < prune && height < w.ceiling
  }

  /** A helper with the node's own blocks, wherever it may be asked: the deliveries are identical. */
  lemma HelperIsTransparent(src: Sources, w: World, hashes: seq<Digest>, heights: seq<nat>, prune: nat)
    requires |hashes| == |heights| && ByRuns(NoHelper(src), w, hashes, heights, prune, 0).0
    requires forall k :: 0 <= k < |hashes| && MayBeAsked(w, heights[k], prune) ==> Honest(src, hashes[k])
    ensures var (ok, end) := ByRuns(src, w, hashes, heights, prune, 0);
            ok && end.delivered == ByRuns(NoHelper(src), w, hashes, heights, prune, 0).1.delivered
  {
    hide Each, ByRuns;
    RunsRefineEach(src, w, w, hashes, heights, prune, 0);
    RunsRefineEach(NoHelper(src), w, w, hashes, heights, prune, 0);
    EachTransparent(src, w, w, hashes, heights, prune, 0, w.ceiling);
  }

  lemma StepTransparent(src: Sources, w: World, w0: World, hash: Digest, height: nat, top: nat)
    requires w.p2pReplies == w0.p2pReplies && w.delivered == w0.delivered && w.ceiling <= top
    ensures var (ok, v) := FetchPruned(src, w, hash, height);
            var (ok0, v0) := FetchPruned(NoHelper(src), w0, hash, height);
            ok0 && (height < top ==> Honest(src, hash)) ==>
              ok && v.p2pReplies == v0.p2pReplies && v.delivered == v0.delivered && v.ceiling <= top
    ensures var (ok, v) := ReceiveLocal(src, w, hash);
            var (ok0, v0) := ReceiveLocal(NoHelper(src), w0, hash);
            ok0 ==> ok && v.p2pReplies == v0.p2pReplies && v.delivered == v0.delivered && v.ceiling <= top
  {
    hide HasHash;
  }

  lemma {:induction false} EachTransparent(src: Sources, w: World, w0: World, hashes: seq<Digest>,
      heights: seq<nat>, prune: nat, i: nat, top: nat)
    requires |hashes| == |heights| && i <= |hashes|
    requires w.p2pReplies == w0.p2pReplies && w.delivered == w0.delivered && w.ceiling <= top
    requires Each(NoHelper(src), w0, hashes, heights, prune, i, |hashes|).0
    requires forall k :: 0 <= k < |hashes| && heights[k] < prune && heights[k] < top ==> Honest(src, hashes[k])
    ensures var (ok, end) := Each(src, w, hashes, heights, prune, i, |hashes|);
            ok && end.delivered == Each(NoHelper(src), w0, hashes, heights, prune, i, |hashes|).1.delivered
    decreases |hashes| - i
  {
    hide FetchPruned, ReceiveLocal, Honest;
    if i == |hashes| {
    } else {
      StepTransparent(src, w, w0, hashes[i], heights[i], top);
      var v := Fetched(src, w, hashes, heights, prune, i).1;
      var v0 := Fetched(NoHelper(src), w0, hashes, heights, prune, i).1;
      EachTransparent(src, v, v0, hashes, heights, prune, i + 1, top);
    }
  }

  /** A helper that gives RPC's blocks and knows no others. */
  function Mirror(rpc: Digest -> Option<bytes>): (nat, Digest) -> HelperReply {
    (i: nat, hash: Digest) => match rpc(hash)
                              case Some(block) => Gave(block)
                              case None => BlockNotFound
  }

  /** It is honest everywhere, and it is the one that supplies the blocks, when they are what was asked for. */
  lemma MirrorIsHonestAndUsed(src: Sources, w: World, hash: Digest, height: nat)
    ensures Honest(WithHelper(src, Mirror(src.rpc)), hash)
    ensures height < w.ceiling && src.rpc(hash).Some? && HasHash(src.H, hash, src.rpc(hash).value) ==>
              FromHelper(WithHelper(src, Mirror(src.rpc)), w, hash, height).0 == src.rpc(hash)
  {
    hide HasHash;
  }

  // ----- exactly when the deliveries are the same, for the helper there is

  /** The blocks taken from the helper, with the hashes they were taken for. */
  function Taken(src: Sources, w: World, hashes: seq<Digest>, heights: seq<nat>, prune: nat, i: nat)
      : seq<(Digest, bytes)>
    requires |hashes| == |heights| && i <= |hashes|
    decreases |hashes| - i
  {
    if i == |hashes| then []
    else
      var block := if heights[i] >= prune then None else FromHelper(src, w, hashes[i], heights[i]).0;
      var (ok, w') := Fetched(src, w, hashes, heights, prune, i);
      (if block.Some? then [(hashes[i], block.value)] else [])
      + (if ok then Taken(src, w', hashes, heights, prune, i + 1) else [])
  }

  /** What is taken has passed the check. */
  lemma {:induction false} TakenHasHash(src: Sources, w: World, hashes: seq<Digest>, heights: seq<nat>, prune: nat,
      i: nat, t: (Digest, bytes))
    requires |hashes| == |heights| && i <= |hashes| && t in Taken(src, w, hashes, heights, prune, i)
    ensures HasHash(src.H, t.0, t.1)
    decreases |hashes| - i
  {
    hide HasHash, FetchPruned, ReceiveLocal;
    if i == |hashes| {
    } else {
      var (ok, w') := Fetched(src, w, hashes, heights, prune, i);
      if ok && t in Taken(src, w', hashes, heights, prune, i + 1) {
        TakenHasHash(src, w', hashes, heights, prune, i + 1, t);
      }
    }
  }

  predicate AllFromRpc(src: Sources, taken: seq<(Digest, bytes)>) {
    forall t <- taken :: src.rpc(t.0) == Some(t.1)
  }

  /** The helper there is shows in the deliveries if and only if some reply that was taken is not RPC's block. */
  lemma ShowsExactly(src: Sources, w: World, hashes: seq<Digest>, heights: seq<nat>, prune: nat)
    requires |hashes| == |heights| && ByRuns(NoHelper(src), w, hashes, heights, prune, 0).0
    ensures ByRuns(src, w, hashes, heights, prune, 0).1.delivered
            == ByRuns(NoHelper(src), w, hashes, heights, prune, 0).1.delivered
       <==> AllFromRpc(src, Taken(src, w, hashes, heights, prune, 0))
  {
    hide Each, ByRuns, Taken;
    RunsRefineEach(src, w, w, hashes, heights, prune, 0);
    RunsRefineEach(NoHelper(src), w, w, hashes, heights, prune, 0);
    EachShowsExactly(src, w, w, hashes, heights, prune, 0);
  }

  lemma {:induction false} EachShowsExactly(src: Sources, w: World, w0: World, hashes: seq<Digest>, heights: seq<nat>,
      prune: nat, i: nat)
    requires |hashes| == |heights| && i <= |hashes|
    requires w.p2pReplies == w0.p2pReplies && w.delivered == w0.delivered
    requires Each(NoHelper(src), w0, hashes, heights, prune, i, |hashes|).0
    ensures Each(src, w, hashes, heights, prune, i, |hashes|).1.delivered
            == Each(NoHelper(src), w0, hashes, heights, prune, i, |hashes|).1.delivered
       <==> AllFromRpc(src, Taken(src, w, hashes, heights, prune, i))
    decreases |hashes| - i
  {
    hide FetchPruned, ReceiveLocal, FromHelper, AllFromRpc;
    if i == |hashes| {
      NoneTaken(src);
    } else {
      var (ok, v) := Fetched(src, w, hashes, heights, prune, i);
      var (ok0, v0) := Fetched(NoHelper(src), w0, hashes, heights, prune, i);
      var block := if heights[i] >= prune then None else FromHelper(src, w, hashes[i], heights[i]).0;
      var rest := Taken(src, v, hashes, heights, prune, i + 1);
      StepShows(src, w, w0, hashes[i], heights[i]);
      if v.delivered == v0.delivered {
        EachShowsExactly(src, v, v0, hashes, heights, prune, i + 1);
        if block.Some? {
          OneMoreTaken(src, (hashes[i], block.value), rest);
        } else {
          assert Taken(src, w, hashes, heights, prune, i) == rest;
        }
      } else {
        OneMoreTaken(src, (hashes[i], block.value), rest);
        EachExtends(src, v, hashes, heights, prune, i + 1);
        EachExtends(NoHelper(src), v0, hashes, heights, prune, i + 1);
        DifferStays(v.delivered, v0.delivered, Each(src, v, hashes, heights, prune, i + 1, |hashes|).1.delivered,
                    Each(NoHelper(src), v0, hashes, heights, prune, i + 1, |hashes|).1.delivered);
      }
    }
  }

  lemma DifferStays<T>(a: seq<T>, b: seq<T>, a': seq<T>, b': seq<T>)
    requires |a| == |b| && a != b && a <= a' && b <= b'
    ensures a' != b'
  {
    assert a'[..|a|] == a && b'[..|a|] == b;
  }

  lemma NoneTaken(src: Sources)
    ensures AllFromRpc(src, [])
  {
  }

  lemma OneMoreTaken(src: Sources, t: (Digest, bytes), rest: seq<(Digest, bytes)>)
    ensures AllFromRpc(src, [t] + rest) <==> src.rpc(t.0) == Some(t.1) && AllFromRpc(src, rest)
  {
    forall u <- rest
      ensures u in [t] + rest
    {
    }
    assert t in [t] + rest;
  }

  /** One block with and without the helper: the same delivery exactly when what was taken, if anything, is RPC's. */
  lemma StepShows(src: Sources, w: World, w0: World, hash: Digest, height: nat)
    requires w.p2pReplies == w0.p2pReplies && w.delivered == w0.delivered
    ensures var (ok, v) := FetchPruned(src, w, hash, height);
            var (ok0, v0) := FetchPruned(NoHelper(src), w0, hash, height);
            var block := FromHelper(src, w, hash, height).0;
            ok0 ==>
              && ok && v.p2pReplies == v0.p2pReplies && |v.delivered| == |v0.delivered|
              && (v.delivered == v0.delivered <==> block.None? || src.rpc(hash) == Some(block.value))
    ensures var (ok, v) := ReceiveLocal(src, w, hash);
            var (ok0, v0) := ReceiveLocal(NoHelper(src), w0, hash);
            ok == ok0 && v.p2pReplies == v0.p2pReplies && v.delivered == v0.delivered
  {
    hide HasHash;
    if src.rpc(hash).Some? {
      var block, mine := FromHelper(src, w, hash, height).0, src.rpc(hash).value;
      if block.Some? {
        LastDiffers(w.delivered, (hash, block.value), (hash, mine));
      }
    }
  }

  lemma LastDiffers<T>(s: seq<T>, x: T, y: T)
    ensures s + [x] == s + [y] <==> x == y
  {
    assert (s + [x])[|s|] == x && (s + [y])[|s|] == y;
  }

  // ----- exactly when no helper of a kind can show

  /** A helper that answers for one hash only. */
  function AnswersOnly(hash: Digest, block: bytes): (nat, Digest) -> HelperReply {
    (i, h) => if h == hash then Gave(block) else OtherError
  }

  lemma {:induction false} EachWithout(src: Sources, w: World, hashes: seq<Digest>, heights: seq<nat>, prune: nat,
      i: nat, k: nat)
    requires |hashes| == |heights| && i <= k < |hashes| && heights[k] < prune
    requires Each(NoHelper(src), w, hashes, heights, prune, i, |hashes|).0
    ensures src.rpc(hashes[k]).Some?
    ensures var d := Each(NoHelper(src), w, hashes, heights, prune, i, |hashes|).1.delivered;
            |d| > |w.delivered| + k - i && d[|w.delivered| + k - i] == (hashes[k], src.rpc(hashes[k]).value)
    decreases k - i
  {
    hide HasHash;
    var (ok, w') := Fetched(NoHelper(src), w, hashes, heights, prune, i);
    OneStep(NoHelper(src), w, hashes[i], heights[i]);
    if i < k {
      EachWithout(src, w', hashes, heights, prune, i + 1, k);
    } else {
      EachExtends(NoHelper(src), w', hashes, heights, prune, i + 1);
    }
  }

  lemma EachExtends(src: Sources, w: World, hashes: seq<Digest>, heights: seq<nat>, prune: nat, i: nat)
    requires |hashes| == |heights| && i <= |hashes|
    ensures w.delivered <= Each(src, w, hashes, heights, prune, i, |hashes|).1.delivered
  {
    hide Each;
    var n := EachDelivers(src, w, hashes, heights, prune, i, |hashes|);
  }

  lemma {:induction false} EachServesAnswer(src: Sources, w: World, hashes: seq<Digest>, heights: seq<nat>, prune: nat,
      i: nat, k: nat, b: bytes)
    requires |hashes| == |heights| && i <= k < |hashes| && heights[k] < prune && heights[k] < w.ceiling
    requires HasHash(src.H, hashes[k], b)
    requires src.helper == Some(AnswersOnly(hashes[k], b)) && Each(src, w, hashes, heights, prune, i, |hashes|).0
    ensures var d := Each(src, w, hashes, heights, prune, i, |hashes|).1.delivered;
            |d| > |w.delivered| + k - i && d[|w.delivered| + k - i] == (hashes[k], b)
    decreases k - i
  {
    hide HasHash;
    var (ok, w') := Fetched(src, w, hashes, heights, prune, i);
    OneStep(src, w, hashes[i], heights[i]);
    assert w'.ceiling == w.ceiling;
    if i < k {
      EachServesAnswer(src, w', hashes, heights, prune, i + 1, k, b);
    } else {
      EachExtends(src, w', hashes, heights, prune, i + 1);
    }
  }

  /** A kind of helper: whatever it gives is a block of this kind. */
  ghost predicate Gives(helper: (nat, Digest) -> HelperReply, kind: bytes -> bool) {
    forall i, hash :: helper(i, hash).Gave? ==> kind(helper(i, hash).block)
  }

  /** Of all blocks of a kind, only the one RPC gives has this hash. */
  ghost predicate Determines(src: Sources, kind: bytes -> bool, hash: Digest) {
    forall b {:trigger HasHash(src.H, hash, b)} ::
      kind(b) && HasHash(src.H, hash, b) && src.rpc(hash).Some? ==> src.rpc(hash).value == b
  }

  ghost predicate TransparentForAll(src: Sources, w: World, hashes: seq<Digest>, heights: seq<nat>, prune: nat,
      kind: bytes -> bool)
    requires |hashes| == |heights|
  {
    forall helper: (nat, Digest) -> HelperReply {:trigger WithHelper(src, helper)} ::
      Gives(helper, kind) ==>
        ByRuns(WithHelper(src, helper), w, hashes, heights, prune, 0).1.delivered
        == ByRuns(NoHelper(src), w, hashes, heights, prune, 0).1.delivered
  }

  /**
   Take any kind of block that helpers are trusted to give. No such helper ever shows in
   the deliveries if and only if, among blocks of that kind, the hash determines the block
   at every height where the helper may be asked.
   */
  lemma TransparentExactly(src: Sources, w: World, hashes: seq<Digest>, heights: seq<nat>, prune: nat,
      kind: bytes -> bool)
    requires |hashes| == |heights| && ByRuns(NoHelper(src), w, hashes, heights, prune, 0).0
    ensures TransparentForAll(src, w, hashes, heights, prune, kind)
       <==> forall k :: 0 <= k < |hashes| && MayBeAsked(w, heights[k], prune) ==> Determines(src, kind, hashes[k])
  {
    hide Each, ByRuns, HasHash;
    if forall k :: 0 <= k < |hashes| && MayBeAsked(w, heights[k], prune) ==> Determines(src, kind, hashes[k]) {
      forall helper: (nat, Digest) -> HelperReply | Gives(helper, kind)
        ensures ByRuns(WithHelper(src, helper), w, hashes, heights, prune, 0).1.delivered
             == ByRuns(NoHelper(src), w, hashes, heights, prune, 0).1.delivered
      {
        var with := WithHelper(src, helper);
        assert NoHelper(with) == NoHelper(src);
        forall k | 0 <= k < |hashes| && MayBeAsked(w, heights[k], prune)
          ensures Honest(with, hashes[k])
        {
          assert Determines(src, kind, hashes[k]);
        }
        HelperIsTransparent(with, w, hashes, heights, prune);
      }
    }
    if TransparentForAll(src, w, hashes, heights, prune, kind) {
      forall k | 0 <= k < |hashes| && MayBeAsked(w, heights[k], prune)
        ensures Determines(src, kind, hashes[k])
      {
        forall b | kind(b) && HasHash(src.H, hashes[k], b) && src.rpc(hashes[k]).Some?
          ensures src.rpc(hashes[k]).value == b
        {
          OtherBytesWouldShow(src, w, hashes, heights, prune, kind, k, b);
        }
      }
    }
  }

  lemma OtherBytesWouldShow(src: Sources, w: World, hashes: seq<Digest>, heights: seq<nat>, prune: nat,
      kind: bytes -> bool, k: nat, b: bytes)
    requires |hashes| == |heights| && ByRuns(NoHelper(src), w, hashes, heights, prune, 0).0
    requires k < |hashes| && heights[k] < prune && heights[k] < w.ceiling
    requires TransparentForAll(src, w, hashes, heights, prune, kind) && kind(b) && HasHash(src.H, hashes[k], b)
    ensures src.rpc(hashes[k]) == Some(b)
  {
    hide Each, ByRuns, HasHash;
    var with := WithHelper(src, AnswersOnly(hashes[k], b));
    assert NoHelper(with) == NoHelper(src);
    HelperNeverHurts(with, w, hashes, heights, prune);
    RunsRefineEach(with, w, w, hashes, heights, prune, 0);
    RunsRefineEach(NoHelper(src), w, w, hashes, heights, prune, 0);
    EachServesAnswer(with, w, hashes, heights, prune, 0, k, b);
    EachWithout(src, w, hashes, heights, prune, 0, k);
  }

  /** Each of these blocks is what RPC gives under the block's own hash. */
  predicate ServedByRpc(src: Sources, blocks: set<bytes>) {
    forall b <- blocks :: Parse(b).Ok? && src.rpc(BlockHash(src.H, Parse(b).value)) == Some(b)
  }

  lemma SharedBlocksDetermine(src: Sources, shared: set<bytes>, hash: Digest)
    requires ServedByRpc(src, shared)
    ensures Determines(src, b => b in shared, hash)
  {
    hide BlockHash, Parse;
  }

  /**
   Shared history: a helper that gives only blocks RPC also serves, each under its own hash,
   shows in no batch, at no height, and whatever else it answers or for which hash.
   */
  lemma SharedHistoryIsTransparent(src: Sources, w: World, hashes: seq<Digest>, heights: seq<nat>, prune: nat,
      shared: set<bytes>)
    requires |hashes| == |heights| && ByRuns(NoHelper(src), w, hashes, heights, prune, 0).0
    requires ServedByRpc(src, shared)
    ensures TransparentForAll(src, w, hashes, heights, prune, b => b in shared)
  {
    hide ByRuns, Determines, TransparentForAll, ServedByRpc;
    forall k | 0 <= k < |hashes|
      ensures Determines(src, b => b in shared, hashes[k])
    {
      SharedBlocksDetermine(src, shared, hashes[k]);
    }
    TransparentExactly(src, w, hashes, heights, prune, b => b in shared);
  }

  /** All byte strings are not such a kind: the right header with anything at all behind it is delivered. */
  lemma OnlyTheHeaderIsChecked(src: Sources, w: World, h: AnyHeader, tail: bytes, height: nat)
    requires h.SelfDescribing() && height < w.ceiling
    ensures var hash := BlockHash(src.H, h);
            var block := h.Serialize() + tail;
            FetchPruned(WithHelper(src, AnswersOnly(hash, block)), w, hash, height).1.delivered
                == w.delivered + [(hash, block)]
  {
    hide BlockHash, AnyHeader.Serialize, Parse;
    ParseFront(h, tail);
  }

  // ----- one reply of the helper

  /**
   Only the helper's bytes with the right header hash are taken; only "not found" moves the
   ceiling, and only down.
   */
  lemma OneReply(src: Sources, w: World, hash: Digest, height: nat)
    ensures var (block, v) := FromHelper(src, w, hash, height);
            var asked := src.helper.Some? && height < w.ceiling;
            && (block.Some? <==> asked && src.helper.value(w.helperCalls, hash).Gave?
                                 && HasHash(src.H, hash, src.helper.value(w.helperCalls, hash).block))
            && (block.Some? ==> block.value == src.helper.value(w.helperCalls, hash).block)
            && (v.ceiling != w.ceiling <==> asked && src.helper.value(w.helperCalls, hash).BlockNotFound?)
            && (v.ceiling != w.ceiling ==> v.ceiling == height < w.ceiling && v.unknown == w.unknown + [height])
            && v.delivered == w.delivered && v.p2pReplies == w.p2pReplies
            && v.helperCalls == w.helperCalls + (if asked then 1 else 0)
            && v.asks == w.asks + (if asked then [AskHelper(hash, height)] else [])
  {
    hide HasHash;
    assert w.asks + [] == w.asks;
  }

  // ----- the ceiling, one batch after another

  /**
   The ceiling is where it started or the last height reported unknown, and each report was
   lower than the one before.
   */
  predicate Learned(w: World) {
    && w.ceiling == (if w.unknown == [] then USIZE_MAX else w.unknown[|w.unknown| - 1])
    && (forall i, j :: 0 <= i < j < |w.unknown| ==> w.unknown[j] < w.unknown[i])
    && (forall i :: 0 <= i < |w.unknown| ==> w.unknown[i] < USIZE_MAX)
  }

  lemma StepLearns(src: Sources, w: World, hash: Digest, height: nat)
    requires Learned(w)
    ensures var v := FetchPruned(src, w, hash, height).1;
            Learned(v) && v.ceiling <= w.ceiling
            && (v.unknown == w.unknown || (height < w.ceiling && v.unknown == w.unknown + [height]))
    ensures var v := ReceiveLocal(src, w, hash).1; v.ceiling == w.ceiling && v.unknown == w.unknown
  {
    hide HasHash;
  }

  lemma {:induction false} CeilingOnlyFalls(src: Sources, w: World, hashes: seq<Digest>, heights: seq<nat>, prune: nat,
      i: nat, upto: nat)
    requires |hashes| == |heights| && i <= upto <= |hashes| && Learned(w)
    ensures var v := Each(src, w, hashes, heights, prune, i, upto).1;
            Learned(v) && v.ceiling <= w.ceiling && w.unknown <= v.unknown
    decreases upto - i
  {
    hide FetchPruned, ReceiveLocal;
    if i == upto {
    } else {
      StepLearns(src, w, hashes[i], heights[i]);
      var (ok, w') := Fetched(src, w, hashes, heights, prune, i);
      if ok {
        CeilingOnlyFalls(src, w', hashes, heights, prune, i + 1, upto);
      }
    }
  }

  /**
   While heights do not fall, within a batch and from batch to batch, the helper says
   "not found" at most once in all: nothing at or above that height is asked again.
   */
  lemma {:induction false} AtMostOneNotFound(src: Sources, w: World, hashes: seq<Digest>, heights: seq<nat>, prune: nat,
      i: nat, upto: nat)
    requires |hashes| == |heights| && i <= upto <= |hashes| && Learned(w) && Ascending(heights)
    requires |w.unknown| <= 1 && (w.unknown != [] ==> forall k :: i <= k < upto ==> heights[k] >= w.unknown[0])
    ensures var v := Each(src, w, hashes, heights, prune, i, upto).1;
            |v.unknown| <= 1 && Learned(v)
                && (v.unknown == w.unknown || (w.unknown == [] && v.unknown[0] in heights[i..upto]))
    decreases upto - i
  {
    hide FetchPruned, ReceiveLocal;
    if i == upto {
    } else {
      StepLearns(src, w, hashes[i], heights[i]);
      var (ok, w') := Fetched(src, w, hashes, heights, prune, i);
      assert heights[i..upto][0] == heights[i] && heights[i..upto][1..] == heights[i + 1..upto];
      if ok {
        AtMostOneNotFound(src, w', hashes, heights, prune, i + 1, upto);
      }
    }
  }

  /** Both results for a batch fetched by runs, and where the one "not found" was. */
  lemma CeilingOverABatch(src: Sources, w: World, hashes: seq<Digest>, heights: seq<nat>, prune: nat)
    requires |hashes| == |heights| && Learned(w)
    ensures var v := ByRuns(src, w, hashes, heights, prune, 0).1;
            Learned(v) && v.ceiling <= w.ceiling && w.unknown <= v.unknown
    ensures var v := ByRuns(src, w, hashes, heights, prune, 0).1;
            Ascending(heights) && AtMostOneBelow(w, heights) ==>
              |v.unknown| <= 1 && (v.unknown == w.unknown || (w.unknown == [] && v.unknown[0] in heights))
  {
    hide Each, ByRuns, Learned, Ascending, AtMostOneBelow;
    RunsRefineEach(src, w, w, hashes, heights, prune, 0);
    var v, e := ByRuns(src, w, hashes, heights, prune, 0).1, Each(src, w, hashes, heights, prune, 0, |hashes|).1;
    assert v.(asks := []).ceiling == e.(asks := []).ceiling && v.(asks := []).unknown == e.(asks := []).unknown;
    CeilingOnlyFalls(src, w, hashes, heights, prune, 0, |hashes|);
    SameLearned(v, e);
    if Ascending(heights) && AtMostOneBelow(w, heights) {
      OneBelowAt(w, heights);
      AtMostOneNotFound(src, w, hashes, heights, prune, 0, |hashes|);
      assert heights[0..|hashes|] == heights;
    }
  }

  lemma SameLearned(v: World, w: World)
    requires v.ceiling == w.ceiling && v.unknown == w.unknown
    ensures Learned(v) <==> Learned(w)
  {
  }

  lemma OneBelowAt(w: World, heights: seq<nat>)
    requires AtMostOneBelow(w, heights)
    ensures |w.unknown| <= 1 && (w.unknown != [] ==> forall k :: 0 <= k < |heights| ==> heights[k] >= w.unknown[0])
  {
  }

  /** At most one height has been reported unknown, and none of these is below it. */
  predicate AtMostOneBelow(w: World, heights: seq<nat>) {
    |w.unknown| <= 1 && (w.unknown != [] ==> forall k :: 0 <= k < |heights| ==> heights[k] >= w.unknown[0])
  }

  datatype Batch = Batch(hashes: seq<Digest>, heights: seq<nat>, prune: nat)

  predicate WellFormed(batches: seq<Batch>) {
    forall b <- batches :: |b.hashes| == |b.heights|
  }

  /**
   One batch after another, each with the heights and prune height read for it, whether or
   not the one before succeeded.
   */
  function AfterBatches(src: Sources, w: World, batches: seq<Batch>): World
    requires WellFormed(batches)
    decreases |batches|
  {
    if batches == [] then w
    else AfterBatches(src, ByRuns(src, w, batches[0].hashes, batches[0].heights, batches[0].prune, 0).1, batches[1..])
  }

  function AllHeights(batches: seq<Batch>): seq<nat> {
    if batches == [] then [] else batches[0].heights + AllHeights(batches[1..])
  }

  /**
   Over any sequence of batches the ceiling only falls, each "not found" strictly; and if
   the heights do not fall from one request to the next, "not found" is said at most once in all.
   */
  lemma {:induction false} CeilingOverAllBatches(src: Sources, w: World, batches: seq<Batch>)
    requires WellFormed(batches) && Learned(w)
    ensures var v := AfterBatches(src, w, batches);
            Learned(v) && v.ceiling <= w.ceiling && w.unknown <= v.unknown
    ensures Ascending(AllHeights(batches)) && AtMostOneBelow(w, AllHeights(batches)) ==>
              |AfterBatches(src, w, batches).unknown| <= 1
    decreases |batches|
  {
    hide ByRuns, Learned, Ascending, AtMostOneBelow;
    if batches == [] {
      NoMore(w);
    } else {
      var b := batches[0];
      var w' := ByRuns(src, w, b.hashes, b.heights, b.prune, 0).1;
      CeilingOverABatch(src, w, b.hashes, b.heights, b.prune);
      CeilingOverAllBatches(src, w', batches[1..]);
      if Ascending(AllHeights(batches)) && AtMostOneBelow(w, AllHeights(batches)) {
        FromBatchToBatch(w, w', b.heights, AllHeights(batches[1..]));
      }
    }
  }

  lemma NoMore(w: World)
    ensures AtMostOneBelow(w, []) ==> |w.unknown| <= 1
  {
  }

  lemma FromBatchToBatch(w: World, w': World, heights: seq<nat>, later: seq<nat>)
    requires Ascending(heights + later) && AtMostOneBelow(w, heights + later)
    ensures Ascending(heights) && Ascending(later) && AtMostOneBelow(w, heights)
    ensures |w'.unknown| <= 1 && (w'.unknown == w.unknown || (w.unknown == [] && w'.unknown[0] in heights))
            ==> AtMostOneBelow(w', later)
  {
    var all := heights + later;
    forall k | 0 <= k < |later|
      ensures later[k] == all[|heights| + k]
    {
    }
    forall k | 0 <= k < |heights|
      ensures heights[k] == all[k]
    {
    }
    forall i, j | 0 <= i < j < |later|
      ensures later[i] <= later[j]
    {
      assert all[|heights| + i] <= all[|heights| + j];
    }
    if |w'.unknown| == 1 && w'.unknown[0] in heights {
      var i :| 0 <= i < |heights| && heights[i] == w'.unknown[0];
      forall k | 0 <= k < |later|
        ensures later[k] >= w'.unknown[0]
      {
        assert all[i] <= all[|heights| + k];
      }
    }
  }

  /** The helper has every one of our blocks below the split, and answers for them. */
  ghost predicate HoldsBelow(src: Sources, hashes: seq<Digest>, heights: seq<nat>, split: nat)
    requires |hashes| == |heights|
  {
    src.helper.Some? &&
    forall k, i {:trigger src.helper.value(i, hashes[k])} :: 0 <= k < |hashes| && heights[k] < split ==>
      src.helper.value(i, hashes[k]).Gave? && HasHash(src.H, hashes[k], src.helper.value(i, hashes[k]).block)
  }

  predicate NoRpcBelow(asks: seq<Ask>, split: nat) {
    forall k :: 0 <= k < |asks| && asks[k].AskRpc? ==> asks[k].height >= split
  }

  /** Then the ceiling never drops below the split, and no block below it is ever fetched over RPC. */
  lemma SharedHistoryComesFromHelper(src: Sources, w: World, hashes: seq<Digest>, heights: seq<nat>, prune: nat,
      split: nat)
    requires |hashes| == |heights| && HoldsBelow(src, hashes, heights, split)
    requires w.ceiling >= split && NoRpcBelow(w.asks, split)
    ensures var v := ByRuns(src, w, hashes, heights, prune, 0).1; v.ceiling >= split && NoRpcBelow(v.asks, split)
  {
    hide Each, ByRuns, HoldsBelow, NoRpcBelow, Single;
    RunsRefineEach(src, w, w, hashes, heights, prune, 0);
    EachFromHelper(src, w, hashes, heights, prune, 0, |hashes|, split);
    var v, e := ByRuns(src, w, hashes, heights, prune, 0).1, Each(src, w, hashes, heights, prune, 0, |hashes|).1;
    assert v.(asks := []).ceiling == e.(asks := []).ceiling;
    SingleKeepsRpc(v.asks, split);
    SingleKeepsRpc(e.asks, split);
  }

  lemma {:induction false} SingleKeepsRpc(asks: seq<Ask>, split: nat)
    ensures NoRpcBelow(Single(asks), split) <==> NoRpcBelow(asks, split)
  {
    hide NoRpcBelow;
    if asks == [] {
    } else {
      var before, last := asks[..|asks| - 1], asks[|asks| - 1];
      SingleKeepsRpc(before, split);
      assert asks == before + [last];
      NoRpcBelowAppend(before, last, split);
      NoRpcBelowAppend(Single(before), last, split);
      assert Single(before) + [] == Single(before);
    }
  }

  lemma NoRpcBelowAppend(asks: seq<Ask>, a: Ask, split: nat)
    ensures NoRpcBelow(asks + [a], split) <==> NoRpcBelow(asks, split) && (a.AskRpc? ==> a.height >= split)
  {
    assert (asks + [a])[|asks|] == a;
    forall k | 0 <= k < |asks|
      ensures (asks + [a])[k] == asks[k]
    {
    }
  }

  lemma {:induction false} EachFromHelper(src: Sources, w: World, hashes: seq<Digest>, heights: seq<nat>, prune: nat,
      i: nat, upto: nat, split: nat)
    requires |hashes| == |heights| && i <= upto <= |hashes| && HoldsBelow(src, hashes, heights, split)
    requires w.ceiling >= split && NoRpcBelow(w.asks, split)
    ensures var v := Each(src, w, hashes, heights, prune, i, upto).1; v.ceiling >= split && NoRpcBelow(v.asks, split)
    decreases upto - i
  {
    hide FetchPruned, ReceiveLocal, HoldsBelow, NoRpcBelow;
    if i == upto {
    } else {
      StepBelowSplit(src, w, hashes, heights, i, split);
      var (ok, w') := Fetched(src, w, hashes, heights, prune, i);
      if ok {
        EachFromHelper(src, w', hashes, heights, prune, i + 1, upto, split);
      }
    }
  }

  lemma StepBelowSplit(src: Sources, w: World, hashes: seq<Digest>, heights: seq<nat>, k: nat, split: nat)
    requires |hashes| == |heights| && k < |hashes| && HoldsBelow(src, hashes, heights, split)
    requires w.ceiling >= split && NoRpcBelow(w.asks, split)
    ensures var v := FetchPruned(src, w, hashes[k], heights[k]).1; v.ceiling >= split && NoRpcBelow(v.asks, split)
    ensures var v := ReceiveLocal(src, w, hashes[k]).1; v.ceiling >= split && NoRpcBelow(v.asks, split)
  {
    hide HasHash;
    var reply := src.helper.value(w.helperCalls, hashes[k]);
  }
}
