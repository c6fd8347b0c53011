/** What the routing of Routing guarantees: order, sources, runs, and a helper that changes nothing but speed. */
module RoutingProofs {
  import opened Bytes
  import opened Headers
  import opened Hashing
  import opened Routing

  // ----- walking by runs refines walking block by block

  function Single(asks: seq<Ask>): seq<Ask> {
    if asks == [] then []
    else Single(asks[..|asks| - 1]) + (if asks[|asks| - 1].GetData? then [] else [asks[|asks| - 1]])
  }

  /** The same but for the batched p2p requests, which only the runs make. */
  predicate SameButGetData(w: World, v: World) {
    w.(asks := []) == v.(asks := []) && Single(w.asks) == Single(v.asks)
  }

  lemma SingleAppend(asks: seq<Ask>, a: Ask)
    ensures Single(asks + [a]) == Single(asks) + if a.GetData? then [] else [a]
  {
    assert (asks + [a])[..|asks|] == asks;
  }

  /** A step's result does not depend on the asks before it, to which it only adds. */
  lemma StepAdds(src: Sources, w: World, hash: Digest, height: nat, asks: seq<Ask>)
    ensures var (ok, w') := FetchPruned(src, w, hash, height);
            w.asks <= w'.asks && FetchPruned(src, w.(asks := asks), hash, height)
                == (ok, w'.(asks := asks + w'.asks[|w.asks|..]))
    ensures var (ok, w') := ReceiveLocal(src, w, hash);
            w.asks == w'.asks && ReceiveLocal(src, w.(asks := asks), hash) == (ok, w'.(asks := asks))
  {
    hide HasHash;
    var (block, w1) := FromHelper(src, w, hash, height);
    assert asks + [] == asks;
    if w1.asks == w.asks {
      assert (w.asks + [AskRpc(hash, height)])[|w.asks|..] == [AskRpc(hash, height)];
    } else {
      var more := [AskHelper(hash, height)];
      assert w1.asks[|w.asks|..] == more;
      assert (w1.asks + [AskRpc(hash, height)])[|w.asks|..] == more + [AskRpc(hash, height)];
      assert asks + more + [AskRpc(hash, height)] == asks + (more + [AskRpc(hash, height)]);
    }
  }

  lemma SingleConcat(asks: seq<Ask>, more: seq<Ask>)
    ensures Single(asks + more) == Single(asks) + Single(more)
  {
    if more == [] {
      assert asks + more == asks;
    } else {
      var last := more[|more| - 1];
      assert asks + more == (asks + more[..|more| - 1]) + [last];
      SingleAppend(asks + more[..|more| - 1], last);
      SingleConcat(asks, more[..|more| - 1]);
    }
  }

  lemma StepKeepsSame(src: Sources, w: World, v: World, hash: Digest, height: nat)
    requires SameButGetData(w, v)
    ensures var (ok, w') := FetchPruned(src, w, hash, height);
            var (ok', v') := FetchPruned(src, v, hash, height);
            ok == ok' && SameButGetData(w', v')
    ensures var (ok, w') := ReceiveLocal(src, w, hash);
            var (ok', v') := ReceiveLocal(src, v, hash);
            ok == ok' && SameButGetData(w', v')
  {
    hide FetchPruned, ReceiveLocal;
    assert w.(asks := []).(asks := v.asks) == v;
    assert v == w.(asks := v.asks);
    StepAdds(src, w, hash, height, v.asks);
    var w' := FetchPruned(src, w, hash, height).1;
    var more := w'.asks[|w.asks|..];
    assert w'.asks == w.asks + more;
    SingleConcat(w.asks, more);
    SingleConcat(v.asks, more);
  }

  lemma {:induction false} EachKeepsSame(src: Sources, w: World, v: World, hashes: seq<Digest>, heights: seq<nat>,
      prune: nat, i: nat, upto: nat)
    requires |hashes| == |heights| && i <= upto <= |hashes| && SameButGetData(w, v)
    ensures Each(src, w, hashes, heights, prune, i, upto).0 == Each(src, v, hashes, heights, prune, i, upto).0
    ensures SameButGetData(Each(src, w, hashes, heights, prune, i, upto).1,
          Each(src, v, hashes, heights, prune, i, upto).1)
    decreases upto - i
  {
    hide FetchPruned, ReceiveLocal, SameButGetData;
    if i == upto {
    } else {
      StepKeepsSame(src, w, v, hashes[i], heights[i]);
      var (ok, w') := Fetched(src, w, hashes, heights, prune, i);
      var (ok', v') := Fetched(src, v, hashes, heights, prune, i);
      EachKeepsSame(src, w', v', hashes, heights, prune, i + 1, upto);
    }
  }

  lemma {:induction false} EachSplits(src: Sources, w: World, hashes: seq<Digest>, heights: seq<nat>, prune: nat,
      i: nat, mid: nat, upto: nat)
    requires |hashes| == |heights| && i <= mid <= upto <= |hashes|
    ensures var (ok, w') := Each(src, w, hashes, heights, prune, i, mid);
            Each(src, w, hashes, heights, prune, i, upto)
                == if ok then Each(src, w', hashes, heights, prune, mid, upto) else (false, w')
    decreases mid - i
  {
    hide FetchPruned, ReceiveLocal;
    if i == mid {
    } else {
      var (ok, w') := Fetched(src, w, hashes, heights, prune, i);
      if ok {
        EachSplits(src, w', hashes, heights, prune, i + 1, mid, upto);
      }
    }
  }

  /** Same success, same deliveries, same learned ceiling, same single requests as the block-by-block walk. */
  lemma {:induction false} RunsRefineEach(src: Sources, w: World, v: World, hashes: seq<Digest>, heights: seq<nat>,
      prune: nat, start: nat)
    requires |hashes| == |heights| && start <= |hashes| && SameButGetData(w, v)
    ensures var (ok, w') := ByRuns(src, w, hashes, heights, prune, start);
            var (ok', v') := Each(src, v, hashes, heights, prune, start, |hashes|);
            ok == ok' && SameButGetData(w', v')
    decreases |hashes| - start
  {
    hide Each;
    if start < |hashes| {
      var end := RunEnd(heights, prune, start, start + 1);
      var w1 := if Local(heights, prune, start)
          then w.(asks := w.asks + [GetData(hashes[start..end], heights[start..end])]) else w;
      SingleAppend(w.asks, GetData(hashes[start..end], heights[start..end]));
      EachKeepsSame(src, w1, v, hashes, heights, prune, start, end);
      EachSplits(src, v, hashes, heights, prune, start, end, |hashes|);
      var (ok, w') := Each(src, w1, hashes, heights, prune, start, end);
      var (ok', v') := Each(src, v, hashes, heights, prune, start, end);
      if ok {
        RunsRefineEach(src, w', v', hashes, heights, prune, end);
      }
    } else {
      EachAtEnd(src, v, hashes, heights, prune);
    }
  }

  lemma EachAtEnd(src: Sources, v: World, hashes: seq<Digest>, heights: seq<nat>, prune: nat)
    requires |hashes| == |heights|
    ensures Each(src, v, hashes, heights, prune, |hashes|, |hashes|) == (true, v)
  {
  }

  // ----- order

  /** `after` extends `before` by the first n of the requested hashes, in order, one block each. */
  predicate Delivers(before: seq<(Digest, bytes)>, after: seq<(Digest, bytes)>, hashes: seq<Digest>, i: nat, n: nat)
    requires i + n <= |hashes|
  {
    before <= after && Names(after[|before|..]) == hashes[i..i + n]
  }

  function Names(blocks: seq<(Digest, bytes)>): seq<Digest> {
    seq(|blocks|, k requires 0 <= k < |blocks| => blocks[k].0)
  }

  lemma DeliversOneMore(a: seq<(Digest, bytes)>, b: (Digest, bytes), c: seq<(Digest, bytes)>, hashes: seq<Digest>,
      i: nat, n: nat)
    requires i + 1 + n <= |hashes| && b.0 == hashes[i] && Delivers(a + [b], c, hashes, i + 1, n)
    ensures Delivers(a, c, hashes, i, n + 1)
  {
    assert c[|a|..] == [b] + c[|a| + 1..];
    assert Names(c[|a|..]) == [b.0] + Names(c[|a| + 1..]);
    assert hashes[i..i + n + 1] == [hashes[i]] + hashes[i + 1..i + 1 + n];
  }

  lemma OneStep(src: Sources, w: World, hash: Digest, height: nat)
    ensures var (ok, w') := FetchPruned(src, w, hash, height);
            if ok then exists b :: w'.delivered == w.delivered + [(hash, b)] else w'.delivered == w.delivered
    ensures var (ok, w') := ReceiveLocal(src, w, hash);
            if ok then exists b :: w'.delivered == w.delivered + [(hash, b)] else w'.delivered == w.delivered
  {
    hide HasHash;
  }

  lemma {:induction false} EachDelivers(src: Sources, w: World, hashes: seq<Digest>, heights: seq<nat>, prune: nat,
      i: nat, upto: nat) returns (n: nat)
    requires |hashes| == |heights| && i <= upto <= |hashes|
    ensures var (ok, w') := Each(src, w, hashes, heights, prune, i, upto);
            i + n <= upto && (ok <==> i + n == upto) && Delivers(w.delivered, w'.delivered, hashes, i, n)
    decreases upto - i
  {
    hide FetchPruned, ReceiveLocal;
    n := 0;
    if i < upto {
      OneStep(src, w, hashes[i], heights[i]);
      var (ok, w') := Fetched(src, w, hashes, heights, prune, i);
      if ok {
        var m := EachDelivers(src, w', hashes, heights, prune, i + 1, upto);
        n := m + 1;
        var b :| w'.delivered == w.delivered + [(hashes[i], b)];
        DeliversOneMore(w.delivered, (hashes[i], b), Each(src, w', hashes, heights, prune, i + 1, upto).1.delivered,
            hashes, i, m);
      } else {
        assert hashes[i..i] == Names([]);
      }
    } else {
      assert hashes[i..i] == Names([]);
    }
  }

  /**
   On success the caller's function was called once per requested hash, in request order; on
   failure on a proper prefix.
   */
  lemma DeliversInOrder(src: Sources, w: World, hashes: seq<Digest>, heights: seq<nat>, prune: nat) returns (n: nat)
    requires |hashes| == |heights|
    ensures var (ok, w') := ByRuns(src, w, hashes, heights, prune, 0);
            n <= |hashes| && (ok <==> n == |hashes|) && Delivers(w.delivered, w'.delivered, hashes, 0, n)
  {
    hide Each, ByRuns;
    RunsRefineEach(src, w, w, hashes, heights, prune, 0);
    n := EachDelivers(src, w, hashes, heights, prune, 0, |hashes|);
  }

  // ----- what is delivered, and where a batch stops

  /** How many of the positions from `i` up to `k` come over the p2p connection. */
  function LocalBefore(heights: seq<nat>, prune: nat, i: nat, k: nat): nat
    requires i <= k <= |heights|
    decreases k - i
  {
    if i == k then 0 else (if heights[i] >= prune then 1 else 0) + LocalBefore(heights, prune, i + 1, k)
  }

  /** The connection's next reply for position `k`, in a walk that started at `i`. */
  function LocalReply(src: Sources, w: World, hashes: seq<Digest>, heights: seq<nat>, prune: nat, i: nat, k: nat)
      : Option<bytes>
    requires |hashes| == |heights| && i <= k < |hashes|
  {
    src.p2p(w.p2pReplies + LocalBefore(heights, prune, i, k), hashes[k])
  }

  /** These bytes start with a header, and it hashes to this. */
  predicate Proves(H: Hashes, hash: Digest, block: bytes) {
    Parse(block).Ok? && BlockHash(H, Parse(block).value) == hash
  }

  /** What was delivered for position `k` is the block asked for, from the source its height calls for. */
  ghost predicate Rightly(src: Sources, w: World, hashes: seq<Digest>, heights: seq<nat>, prune: nat, i: nat, k: nat,
      d: (Digest, bytes))
    requires |hashes| == |heights| && i <= k < |hashes|
  {
    && d.0 == hashes[k]
    && if heights[k] >= prune then
         LocalReply(src, w, hashes, heights, prune, i, k) == Some(d.1) && Proves(src.H, hashes[k], d.1)
       else
         || src.rpc(hashes[k]) == Some(d.1)
         || (&& src.helper.Some? && Proves(src.H, hashes[k], d.1)
             && exists j :: src.helper.value(j, hashes[k]) == Gave(d.1))
  }

  /** Position `k` cannot be delivered: no reply, or another block, or RPC's error. */
  predicate Stops(src: Sources, w: World, hashes: seq<Digest>, heights: seq<nat>, prune: nat, i: nat, k: nat)
    requires |hashes| == |heights| && i <= k < |hashes|
  {
    if heights[k] >= prune then
      var reply := LocalReply(src, w, hashes, heights, prune, i, k);
      reply.None? || !Proves(src.H, hashes[k], reply.value)
    else src.rpc(hashes[k]).None?
  }

  /** All of `got` was rightly delivered, for the positions from `i` on. */
  ghost predicate AllRightly(src: Sources, w: World, hashes: seq<Digest>, heights: seq<nat>, prune: nat, i: nat,
      got: seq<(Digest, bytes)>)
    requires |hashes| == |heights| && i + |got| <= |hashes|
  {
    forall k :: 0 <= k < |got| ==> Rightly(src, w, hashes, heights, prune, i, i + k, got[k])
  }

  lemma StepRightly(src: Sources, w: World, hashes: seq<Digest>, heights: seq<nat>, prune: nat, i: nat)
    requires |hashes| == |heights| && i < |hashes|
    ensures var (ok, v) := Fetched(src, w, hashes, heights, prune, i);
            && v.p2pReplies == w.p2pReplies + (if heights[i] >= prune then 1 else 0)
            && (ok ==> exists d :: v.delivered == w.delivered + [d] && Rightly(src, w, hashes, heights, prune, i, i, d))
            && (!ok ==> v.delivered == w.delivered && Stops(src, w, hashes, heights, prune, i, i))
  {
    hide Parse, BlockHash;
    if heights[i] >= prune {
      assert LocalReply(src, w, hashes, heights, prune, i, i) == src.p2p(w.p2pReplies, hashes[i]);
    } else if src.helper.Some? && src.helper.value(w.helperCalls, hashes[i]).Gave? {
      assert src.helper.value(w.helperCalls, hashes[i]) == Gave(src.helper.value(w.helperCalls, hashes[i]).block);
    }
  }

  /** Whatever was delivered was rightly so, up to the end or to a position that cannot be delivered. */
  lemma {:induction false} EachRightly(src: Sources, w: World, hashes: seq<Digest>, heights: seq<nat>, prune: nat,
      i: nat, upto: nat) returns (got: seq<(Digest, bytes)>)
    requires |hashes| == |heights| && i <= upto <= |hashes|
    ensures var (ok, v) := Each(src, w, hashes, heights, prune, i, upto);
            && v.delivered == w.delivered + got && i + |got| <= upto
            && AllRightly(src, w, hashes, heights, prune, i, got)
            && (ok <==> i + |got| == upto)
            && (!ok ==> Stops(src, w, hashes, heights, prune, i, i + |got|))
    decreases upto - i
  {
    hide Fetched, Rightly, Stops;
    got := [];
    if i == upto {
      assert w.delivered + got == w.delivered;
    } else {
      StepRightly(src, w, hashes, heights, prune, i);
      var (ok, w') := Fetched(src, w, hashes, heights, prune, i);
      if ok {
        var d :| w'.delivered == w.delivered + [d] && Rightly(src, w, hashes, heights, prune, i, i, d);
        var rest := EachRightly(src, w', hashes, heights, prune, i + 1, upto);
        got := [d] + rest;
        assert w.delivered + got == w'.delivered + rest;
        forall k | 0 <= k < |got|
          ensures Rightly(src, w, hashes, heights, prune, i, i + k, got[k])
        {
          if k > 0 {
            assert Rightly(src, w', hashes, heights, prune, i + 1, i + 1 + (k - 1), rest[k - 1]);
            SameFromNext(src, w, w', hashes, heights, prune, i, i + k, got[k]);
          }
        }
        if i + |got| < upto {
          SameFromNext(src, w, w', hashes, heights, prune, i, i + |got|, d);
        }
      } else {
        assert w.delivered + got == w.delivered;
      }
    }
  }

  lemma SameFromNext(src: Sources, w: World, w': World, hashes: seq<Digest>, heights: seq<nat>, prune: nat, i: nat,
      k: nat, d: (Digest, bytes))
    requires |hashes| == |heights| && i < k < |hashes|
    requires w'.p2pReplies == w.p2pReplies + (if heights[i] >= prune then 1 else 0)
    ensures Rightly(src, w', hashes, heights, prune, i + 1, k, d) ==> Rightly(src, w, hashes, heights, prune, i, k, d)
    ensures Stops(src, w', hashes, heights, prune, i + 1, k) ==> Stops(src, w, hashes, heights, prune, i, k)
  {
    hide Proves;
    var one := if heights[i] >= prune then 1 else 0;
    assert LocalBefore(heights, prune, i, k) == one + LocalBefore(heights, prune, i + 1, k);
  }

  /**
   A batch on a pruned node: each block delivered is the one asked for, the connection's
   reply at its position, with a header of that hash, if the node still holds it; RPC's, or a
   helper's with a header of that hash, if not. The batch fails exactly when it comes to a
   position that cannot be delivered, and a reply that is another block is such a position.
   */
  lemma BatchIsRight(src: Sources, w: World, hashes: seq<Digest>, heights: seq<nat>, prune: nat)
    returns (got: seq<(Digest, bytes)>)
    requires |hashes| == |heights|
    ensures var (ok, v) := ByRuns(src, w, hashes, heights, prune, 0);
            && v.delivered == w.delivered + got && |got| <= |hashes|
            && AllRightly(src, w, hashes, heights, prune, 0, got)
            && (ok <==> |got| == |hashes|)
            && (!ok ==> Stops(src, w, hashes, heights, prune, 0, |got|))
    ensures (exists k :: 0 <= k < |hashes| && heights[k] >= prune && Stops(src, w, hashes, heights, prune, 0, k)) ==>
              !ByRuns(src, w, hashes, heights, prune, 0).0
  {
    hide Each, ByRuns, Proves, LocalReply;
    RunsRefineEach(src, w, w, hashes, heights, prune, 0);
    got := EachRightly(src, w, hashes, heights, prune, 0, |hashes|);
    if ByRuns(src, w, hashes, heights, prune, 0).0 {
      forall k | 0 <= k < |hashes| && heights[k] >= prune
        ensures !Stops(src, w, hashes, heights, prune, 0, k)
      {
        assert Rightly(src, w, hashes, heights, prune, 0, 0 + k, got[k]);
      }
    }
  }

  /** The same on a node that is not pruned: everything comes over the connection, one reply a position. */
  lemma UnprunedBatchIsRight(src: Sources, w: World, hashes: seq<Digest>) returns (got: seq<(Digest, bytes)>)
    ensures var (ok, v) := LocalRun(src, w, hashes, Unread(hashes), 0, 0, |hashes|);
            && v.delivered == w.delivered + got && |got| <= |hashes|
            && (forall k :: 0 <= k < |got| ==>
                  && got[k].0 == hashes[k] && src.p2p(w.p2pReplies + k, hashes[k]) == Some(got[k].1)
                  && Proves(src.H, hashes[k], got[k].1))
            && (ok <==> |got| == |hashes|)
            && (!ok ==> var reply := src.p2p(w.p2pReplies + |got|, hashes[|got|]);
                        reply.None? || !Proves(src.H, hashes[|got|], reply.value))
  {
    hide Each, Proves;
    var heights := Unread(hashes);
    var asked := w.(asks := w.asks + [GetData(hashes[0..|hashes|], heights[0..|hashes|])]);
    got := EachRightly(src, asked, hashes, heights, 0, 0, |hashes|);
    forall k | 0 <= k < |got|
      ensures && got[k].0 == hashes[k] && src.p2p(w.p2pReplies + k, hashes[k]) == Some(got[k].1)
              && Proves(src.H, hashes[k], got[k].1)
    {
      assert Rightly(src, asked, hashes, heights, 0, 0, 0 + k, got[k]);
      AllLocalBefore(heights, 0, k);
    }
    if |got| < |hashes| {
      AllLocalBefore(heights, 0, |got|);
    }
  }

  lemma {:induction false} AllLocalBefore(heights: seq<nat>, i: nat, k: nat)
    requires i <= k <= |heights|
    ensures LocalBefore(heights, 0, i, k) == k - i
    decreases k - i
  {
    if i == k {
    } else {
      AllLocalBefore(heights, i + 1, k);
    }
  }

  // ----- sources

  /** The p2p connection is asked only for what the node still holds, the others only for what it does not. */
  predicate Placed(prune: nat, a: Ask) {
    match a
    case GetData(hashes, heights) => |hashes| == |heights| > 0 && forall k :: 0 <= k < |heights| ==> heights[k] >= prune
    case AskHelper(_, height) => height < prune
    case AskRpc(_, height) => height < prune
  }

  predicate AllPlaced(prune: nat, asks: seq<Ask>) {
    forall k :: 0 <= k < |asks| ==> Placed(prune, asks[k])
  }

  predicate NewPlaced(prune: nat, before: World, after: World) {
    before.asks <= after.asks && AllPlaced(prune, after.asks[|before.asks|..])
  }

  lemma PlacedJoins(prune: nat, a: World, b: World, c: World)
    requires NewPlaced(prune, a, b) && NewPlaced(prune, b, c)
    ensures NewPlaced(prune, a, c)
  {
    assert c.asks[|a.asks|..] == b.asks[|a.asks|..] + c.asks[|b.asks|..];
  }

  lemma StepPlaced(src: Sources, w: World, hash: Digest, height: nat, prune: nat)
    ensures height < prune ==> NewPlaced(prune, w, FetchPruned(src, w, hash, height).1)
    ensures NewPlaced(prune, w, ReceiveLocal(src, w, hash).1)
  {
    hide HasHash;
  }

  lemma {:induction false} EachPlaced(src: Sources, w: World, hashes: seq<Digest>, heights: seq<nat>, prune: nat,
      i: nat, upto: nat)
    requires |hashes| == |heights| && i <= upto <= |hashes|
    ensures NewPlaced(prune, w, Each(src, w, hashes, heights, prune, i, upto).1)
    decreases upto - i
  {
    hide FetchPruned, ReceiveLocal;
    if i == upto {
    } else {
      StepPlaced(src, w, hashes[i], heights[i], prune);
      var (ok, w') := Fetched(src, w, hashes, heights, prune, i);
      if ok {
        EachPlaced(src, w', hashes, heights, prune, i + 1, upto);
        PlacedJoins(prune, w, w', Each(src, w', hashes, heights, prune, i + 1, upto).1);
      }
    }
  }

  lemma {:induction false} AsksRespectPruneHeight(src: Sources, w: World, hashes: seq<Digest>, heights: seq<nat>,
      prune: nat, start: nat)
    requires |hashes| == |heights| && start <= |hashes|
    ensures NewPlaced(prune, w, ByRuns(src, w, hashes, heights, prune, start).1)
    decreases |hashes| - start
  {
    hide Each, NewPlaced;
    if start < |hashes| {
      var end := RunEnd(heights, prune, start, start + 1);
      var w1 := w;
      if Local(heights, prune, start) {
        w1 := w.(asks := w.asks + [GetData(hashes[start..end], heights[start..end])]);
        GetDataPlaced(w, hashes, heights, prune, start, end);
      } else {
        NothingNew(w, prune);
      }
      EachPlaced(src, w1, hashes, heights, prune, start, end);
      var (ok, w') := Each(src, w1, hashes, heights, prune, start, end);
      PlacedJoins(prune, w, w1, w');
      if ok {
        AsksRespectPruneHeight(src, w', hashes, heights, prune, end);
        PlacedJoins(prune, w, w', ByRuns(src, w', hashes, heights, prune, end).1);
      }
    } else {
      NothingNew(w, prune);
    }
  }

  lemma NothingNew(w: World, prune: nat)
    ensures NewPlaced(prune, w, w)
  {
  }

  lemma GetDataPlaced(w: World, hashes: seq<Digest>, heights: seq<nat>, prune: nat, start: nat, end: nat)
    requires |hashes| == |heights| && start < end <= |heights| && Local(heights, prune, start)
    requires forall k :: start <= k < end ==> Local(heights, prune, k) == Local(heights, prune, start)
    ensures NewPlaced(prune, w, w.(asks := w.asks + [GetData(hashes[start..end], heights[start..end])]))
  {
    var run := heights[start..end];
    forall k | 0 <= k < |run|
      ensures run[k] >= prune
    {
      assert Local(heights, prune, start + k) == Local(heights, prune, start);
    }
    assert (w.asks + [GetData(hashes[start..end], run)])[|w.asks|..] == [GetData(hashes[start..end], run)];
  }

  // ----- runs

  function Runs(heights: seq<nat>, prune: nat, start: nat): seq<(nat, nat)>
    requires start <= |heights|
    decreases |heights| - start
  {
    if start == |heights| then []
    else
      var end := RunEnd(heights, prune, start, start + 1);
      [(start, end)] + Runs(heights, prune, end)
  }

  /** Non-empty runs that follow one another from `start` to the end, each of one availability, neighbours differing. */
  predicate MaximalPartition(heights: seq<nat>, prune: nat, start: nat, runs: seq<(nat, nat)>)
    requires start <= |heights|
    decreases runs
  {
    if runs == [] then start == |heights|
    else
      && runs[0].0 == start < runs[0].1 <= |heights|
      && (forall k :: start <= k < runs[0].1 ==> Local(heights, prune, k) == Local(heights, prune, start))
      && (runs[0].1 < |heights| ==> Local(heights, prune, runs[0].1) != Local(heights, prune, start))
      && MaximalPartition(heights, prune, runs[0].1, runs[1..])
  }

  /** The runs are the maximal partition of the batch, and the only one. */
  lemma {:induction false} RunsExactly(heights: seq<nat>, prune: nat, start: nat, runs: seq<(nat, nat)>)
    requires start <= |heights|
    ensures MaximalPartition(heights, prune, start, runs) <==> runs == Runs(heights, prune, start)
    decreases |heights| - start
  {
    if start == |heights| {
    } else {
      var end := RunEnd(heights, prune, start, start + 1);
      if runs != [] {
        if runs[0].1 == end {
          RunsExactly(heights, prune, end, runs[1..]);
        }
        assert [runs[0]] + runs[1..] == runs;
        if MaximalPartition(heights, prune, start, runs) {
          SameEnd(heights, prune, start, runs[0].1, end);
        }
      }
    }
  }

  lemma SameEnd(heights: seq<nat>, prune: nat, start: nat, a: nat, b: nat)
    requires start < a <= |heights| && start < b <= |heights|
    requires forall k :: start <= k < a ==> Local(heights, prune, k) == Local(heights, prune, start)
    requires forall k :: start <= k < b ==> Local(heights, prune, k) == Local(heights, prune, start)
    requires a < |heights| ==> Local(heights, prune, a) != Local(heights, prune, start)
    requires b < |heights| ==> Local(heights, prune, b) != Local(heights, prune, start)
    ensures a == b
  {
  }

  predicate Ascending(heights: seq<nat>) {
    forall i, j :: 0 <= i < j < |heights| ==> heights[i] <= heights[j]
  }

  /** Heights that do not fall make at most two runs, the pruned one first. */
  lemma AscendingMakesTwoRuns(heights: seq<nat>, prune: nat)
    requires Ascending(heights)
    ensures |Runs(heights, prune, 0)| <= 2
    ensures |Runs(heights, prune, 0)| == 2 ==> var mid := Runs(heights, prune, 0)[0].1;
                                                  mid < |heights| && !Local(heights, prune, 0)
                                                      && Local(heights, prune, mid)
  {
    if heights != [] {
      var end := RunEnd(heights, prune, 0, 1);
      if end < |heights| {
        var end' := RunEnd(heights, prune, end, end + 1);
        assert Local(heights, prune, end) && !Local(heights, prune, 0);
        assert Runs(heights, prune, end') == [];
      }
    }
  }

  function GetDatas(asks: seq<Ask>): seq<seq<Digest>> {
    if asks == [] then []
    else GetDatas(asks[..|asks| - 1]) + (if asks[|asks| - 1].GetData? then [asks[|asks| - 1].hashes] else [])
  }

  function LocalRuns(hashes: seq<Digest>, heights: seq<nat>, prune: nat, start: nat): seq<seq<Digest>>
    requires |hashes| == |heights| && start <= |heights|
    decreases |heights| - start
  {
    if start == |heights| then []
    else
      var end := RunEnd(heights, prune, start, start + 1);
      (if Local(heights, prune, start) then [hashes[start..end]] else []) + LocalRuns(hashes, heights, prune, end)
  }

  lemma GetDatasAppend(asks: seq<Ask>, a: Ask)
    ensures GetDatas(asks + [a]) == GetDatas(asks) + if a.GetData? then [a.hashes] else []
  {
    assert (asks + [a])[..|asks|] == asks;
  }

  lemma StepMakesNoGetData(src: Sources, w: World, hash: Digest, height: nat)
    ensures GetDatas(FetchPruned(src, w, hash, height).1.asks) == GetDatas(w.asks)
    ensures GetDatas(ReceiveLocal(src, w, hash).1.asks) == GetDatas(w.asks)
  {
    hide HasHash, GetDatas;
    GetDatasAppend(w.asks, AskHelper(hash, height));
    GetDatasAppend(w.asks, AskRpc(hash, height));
    GetDatasAppend(w.asks + [AskHelper(hash, height)], AskRpc(hash, height));
  }

  lemma {:induction false} EachMakesNoGetData(src: Sources, w: World, hashes: seq<Digest>, heights: seq<nat>,
      prune: nat, i: nat, upto: nat)
    requires |hashes| == |heights| && i <= upto <= |hashes|
    ensures GetDatas(Each(src, w, hashes, heights, prune, i, upto).1.asks) == GetDatas(w.asks)
    decreases upto - i
  {
    hide FetchPruned, ReceiveLocal, GetDatas;
    if i == upto {
    } else {
      StepMakesNoGetData(src, w, hashes[i], heights[i]);
      var (ok, w') := Fetched(src, w, hashes, heights, prune, i);
      if ok {
        EachMakesNoGetData(src, w', hashes, heights, prune, i + 1, upto);
      }
    }
  }

  /** A batch that succeeds makes one p2p request per maximal run of held blocks, for that run's hashes in order. */
  lemma {:induction false} OneRequestPerLocalRun(src: Sources, w: World, hashes: seq<Digest>, heights: seq<nat>,
      prune: nat, start: nat)
    requires |hashes| == |heights| && start <= |hashes| && ByRuns(src, w, hashes, heights, prune, start).0
    ensures GetDatas(ByRuns(src, w, hashes, heights, prune, start).1.asks)
          == GetDatas(w.asks) + LocalRuns(hashes, heights, prune, start)
    decreases |hashes| - start
  {
    hide Each, GetDatas;
    if start == |hashes| {
    } else {
      var end := RunEnd(heights, prune, start, start + 1);
      var request := GetData(hashes[start..end], heights[start..end]);
      var w1 := if Local(heights, prune, start) then w.(asks := w.asks + [request]) else w;
      GetDatasAppend(w.asks, request);
      EachMakesNoGetData(src, w1, hashes, heights, prune, start, end);
      OneRequestPerLocalRun(src, Each(src, w1, hashes, heights, prune, start, end).1, hashes, heights, prune, end);
    }
  }
}
