/**
 The Bitcoin-style tree: a layer of odd length repeats its last node. One tree, three
 programs: the root with a branch, the root alone, and the miner's fold.
 `dsha` is any function to 32 bytes; a collision is always exhibited, never assumed away.
 */
module Merkle {
  import opened Bytes

  type Dsha = bytes -> Digest

  function Join(left: bytes, right: bytes): (b: bytes)
    ensures |b| == |left| + |right|
  {
    left + right
  }

  function Padded(layer: seq<Digest>): (p: seq<Digest>)
    requires |layer| > 1
    ensures |p| % 2 == 0 && layer <= p && |p| <= |layer| + 1
  {
    if |layer| % 2 == 1 then layer + [layer[|layer| - 1]] else layer
  }

  function Up(dsha: Dsha, p: seq<Digest>): (u: seq<Digest>)
    requires |p| % 2 == 0
    ensures |u| == |p| / 2
  {
    seq(|p| / 2, i requires 0 <= i < |p| / 2 => dsha(Join(p[2 * i], p[2 * i + 1])))
  }

  function Root(dsha: Dsha, layer: seq<Digest>): Digest
    requires layer != []
    decreases |layer|
  {
    if |layer| == 1 then layer[0] else Root(dsha, Up(dsha, Padded(layer)))
  }

  /** `index ^ 1`. */
  function Sibling(index: nat): nat {
    if index % 2 == 0 then index + 1 else index - 1
  }

  function Branch(dsha: Dsha, layer: seq<Digest>, index: nat): seq<Digest>
    requires index < |layer|
    decreases |layer|
  {
    if |layer| == 1 then []
    else [Padded(layer)[Sibling(index)]] + Branch(dsha, Up(dsha, Padded(layer)), index / 2)
  }

  /** `merkle_root_and_branch`, with the branch deepest pairing first. */
  method MerkleRootAndBranch(dsha: Dsha, leaves: seq<Digest>, index: nat) returns (root: Digest, branch: seq<Digest>)
    requires index < |leaves|
    ensures root == Root(dsha, leaves) && branch == Branch(dsha, leaves, index)
  {
    hide Up, Padded;
    branch := [];
    var layer := leaves;
    var i: nat := index;
    assert branch + Branch(dsha, layer, i) == Branch(dsha, layer, i);
    while |layer| > 1
      invariant i < |layer|
      invariant Root(dsha, layer) == Root(dsha, leaves)
      invariant branch + Branch(dsha, layer, i) == Branch(dsha, leaves, index)
      decreases |layer|
    {
      var p := Padded(layer);
      ghost var above := Branch(dsha, Up(dsha, p), i / 2);
      assert branch + ([p[Sibling(i)]] + above) == branch + [p[Sibling(i)]] + above;
      branch := branch + [p[Sibling(i)]];
      layer := Up(dsha, p);
      i := i / 2;
    }
    root := layer[0];
  }

  function Joined(node: Digest, sibling: Digest, index: nat): bytes {
    if index % 2 == 0 then Join(node, sibling) else Join(sibling, node)
  }

  /** What a verifier computes from a leaf, its branch, and the bits of its index. */
  function Fold(dsha: Dsha, node: Digest, branch: seq<Digest>, index: nat): Digest
    decreases |branch|
  {
    if branch == [] then node else Fold(dsha, dsha(Joined(node, branch[0], index)), branch[1..], index / 2)
  }

  /** The tree, layer by layer: of each two neighbours the left comes first, and a last one alone is its own right. */
  lemma {:induction false} RootByLayers(dsha: Dsha, leaves: seq<Digest>, layer: seq<Digest>)
    requires |leaves| > 1 && |layer| == (|leaves| + 1) / 2
    requires forall i :: 0 <= i < |layer| ==>
               var left: bytes := leaves[2 * i];
               layer[i] == dsha(left + if 2 * i + 1 < |leaves| then leaves[2 * i + 1] else left)
    ensures Root(dsha, leaves) == Root(dsha, layer)
  {
    var up := Up(dsha, Padded(leaves));
    forall i | 0 <= i < |layer|
      ensures up[i] == layer[i]
    {
      assert Padded(leaves)[2 * i] == leaves[2 * i];
    }
    assert up == layer;
  }

  lemma RootOfOne(dsha: Dsha, leaf: Digest)
    ensures Root(dsha, [leaf]) == leaf
  {
  }

  /** The branch proves the leaf. */
  lemma {:induction false} FoldGivesRoot(dsha: Dsha, leaves: seq<Digest>, index: nat)
    requires index < |leaves|
    ensures Fold(dsha, leaves[index], Branch(dsha, leaves, index), index) == Root(dsha, leaves)
    decreases |leaves|
  {
    if |leaves| == 1 {
    } else {
      var p := Padded(leaves);
      var up := Up(dsha, p);
      assert p[index] == leaves[index];
      assert up[index / 2] == dsha(Joined(leaves[index], p[Sibling(index)], index));
      FoldGivesRoot(dsha, up, index / 2);
      var rest := Branch(dsha, up, index / 2);
      assert ([p[Sibling(index)]] + rest)[1..] == rest;
    }
  }

  // ----- the miner's fold, and the root of transaction ids as shown

  /** The loop of `build_header`: the coinbase is leaf 0, so it always stands on the left. */
  method FoldCoinbase(dsha: Dsha, coinbaseHash: Digest, branches: seq<Digest>) returns (merkle: Digest)
    ensures merkle == Fold(dsha, coinbaseHash, branches, 0)
    ensures forall leaves: seq<Digest> ::
              leaves != [] && leaves[0] == coinbaseHash && Branch(dsha, leaves, 0) == branches ==>
                merkle == Root(dsha, leaves)
  {
    merkle := coinbaseHash;
    assert branches[0..] == branches;
    for k := 0 to |branches|
      invariant Fold(dsha, coinbaseHash, branches, 0) == Fold(dsha, merkle, branches[k..], 0)
    {
      assert branches[k..][1..] == branches[k + 1..];
      merkle := dsha(Join(merkle, branches[k]));
    }
    forall leaves: seq<Digest> | leaves != [] && leaves[0] == coinbaseHash && Branch(dsha, leaves, 0) == branches
      ensures merkle == Root(dsha, leaves)
    {
      FoldGivesRoot(dsha, leaves, 0);
    }
  }

  function Shown(ids: seq<Digest>): seq<Digest> {
    seq(|ids|, i requires 0 <= i < |ids| => Reverse(ids[i]))
  }

  /** `merkle_root` over ids in display order, the root returned in display order too. */
  method MerkleRootShown(dsha: Dsha, txids: seq<Digest>) returns (root: Option<Digest>)
    ensures root == if txids == [] then None else Some(Reverse(Root(dsha, Shown(txids))))
  {
    var layer := Shown(txids);
    if layer == [] {
      return None;
    }
    while |layer| > 1
      invariant |layer| > 0 && Root(dsha, layer) == Root(dsha, Shown(txids))
      decreases |layer|
    {
      layer := Up(dsha, Padded(layer));
    }
    root := Some(Reverse(layer[0]));
  }

  /** Ids are shown reversed, and so is the root: two of them, shown. */
  lemma ShownRootOfTwo(dsha: Dsha, a: Digest, b: Digest)
    ensures Root(dsha, Shown([a])) == Reverse(a)
    ensures var ra: bytes := Reverse(a);
            Root(dsha, Shown([a, b])) == dsha(ra + Reverse(b))
  {
    assert Shown([a]) == [Reverse(a)];
    assert Shown([a, b]) == [Reverse(a), Reverse(b)];
    var ra: bytes := Reverse(a);
    RootByLayers(dsha, [Reverse(a), Reverse(b)], [dsha(ra + Reverse(b))]);
  }

  // ----- binding

  predicate Collision(dsha: Dsha, pair: (bytes, bytes)) {
    pair.0 != pair.1 && dsha(pair.0) == dsha(pair.1)
  }

  /** The first pair of nodes, from the i-th on, that differ but hash alike. */
  function PairCollision(dsha: Dsha, p: seq<Digest>, q: seq<Digest>, i: nat): (c: Option<(bytes, bytes)>)
    requires |p| == |q| && |p| % 2 == 0 && i <= |p| / 2
    ensures c.Some? ==> Collision(dsha, c.value)
    ensures c.None? ==>
              forall k :: i <= k < |p| / 2 ==>
                !Collision(dsha, (Join(p[2 * k], p[2 * k + 1]), Join(q[2 * k], q[2 * k + 1])))
    decreases |p| / 2 - i
  {
    if i == |p| / 2 then None
    else
      var pair: (bytes, bytes) := (Join(p[2 * i], p[2 * i + 1]), Join(q[2 * i], q[2 * i + 1]));
      if Collision(dsha, pair) then Some(pair) else PairCollision(dsha, p, q, i + 1)
  }

  /** Searches two trees of one shape, layer by layer. */
  function TreeCollision(dsha: Dsha, xs: seq<Digest>, ys: seq<Digest>): (c: Option<(bytes, bytes)>)
    requires |xs| == |ys| > 0
    ensures c.Some? ==> Collision(dsha, c.value)
    decreases |xs|
  {
    if |xs| == 1 then None
    else
      var p, q := Padded(xs), Padded(ys);
      var c := PairCollision(dsha, p, q, 0);
      if c.Some? then c else TreeCollision(dsha, Up(dsha, p), Up(dsha, q))
  }

  lemma SplitNodes(a: Digest, b: Digest, c: Digest, d: Digest)
    requires Join(a, b) == Join(c, d)
    ensures a == c && b == d
  {
    assert Join(a, b)[..32] == a && Join(c, d)[..32] == c;
    assert Join(a, b)[32..] == b && Join(c, d)[32..] == d;
  }

  /** Equal layers come from equal layers, unless some pair collides. */
  lemma LayerBinds(dsha: Dsha, xs: seq<Digest>, ys: seq<Digest>)
    requires |xs| == |ys| > 1
    requires PairCollision(dsha, Padded(xs), Padded(ys), 0).None? && Up(dsha, Padded(xs)) == Up(dsha, Padded(ys))
    ensures xs == ys
  {
    hide PairCollision, Join;
    var p, q := Padded(xs), Padded(ys);
    forall i | 0 <= i < |xs|
      ensures xs[i] == ys[i]
    {
      var k := i / 2;
      assert Up(dsha, p)[k] == Up(dsha, q)[k];
      assert !Collision(dsha, (Join(p[2 * k], p[2 * k + 1]), Join(q[2 * k], q[2 * k + 1])));
      SplitNodes(p[2 * k], p[2 * k + 1], q[2 * k], q[2 * k + 1]);
      assert p[i] == q[i];
    }
  }

  /** Two leaf lists of one length with one root are the same list, or the search finds a collision. */
  lemma {:induction false} RootBindsLeaves(dsha: Dsha, xs: seq<Digest>, ys: seq<Digest>)
    requires |xs| == |ys| > 0 && Root(dsha, xs) == Root(dsha, ys)
    ensures xs == ys || TreeCollision(dsha, xs, ys).Some?
    decreases |xs|
  {
    hide PairCollision, Up, Padded;
    if |xs| == 1 {
      assert xs == [xs[0]] && ys == [ys[0]];
    } else {
      var p, q := Padded(xs), Padded(ys);
      RootBindsLeaves(dsha, Up(dsha, p), Up(dsha, q));
      if PairCollision(dsha, p, q, 0).None? && Up(dsha, p) == Up(dsha, q) {
        LayerBinds(dsha, xs, ys);
      }
    }
  }

  /** The length matters: repeating the last of an odd number of leaves gives the same root. */
  lemma RootForgetsDuplicate(dsha: Dsha, leaves: seq<Digest>)
    requires |leaves| > 1 && |leaves| % 2 == 1
    ensures Root(dsha, leaves + [leaves[|leaves| - 1]]) == Root(dsha, leaves)
  {
    assert Padded(leaves + [leaves[|leaves| - 1]]) == Padded(leaves);
  }

  function Depth(n: nat): nat {
    if n <= 1 then 0 else 1 + Depth((n + 1) / 2)
  }

  /** Follows a claimed branch beside the true tree, looking for inputs that differ but hash alike. */
  function BranchCollision(dsha: Dsha, leaves: seq<Digest>, index: nat, node: Digest, branch: seq<Digest>)
      : (c: Option<(bytes, bytes)>)
    requires index < |leaves| && |branch| == Depth(|leaves|)
    ensures c.Some? ==> Collision(dsha, c.value)
    decreases |leaves|
  {
    if |leaves| == 1 then None
    else
      var p := Padded(leaves);
      var k := index / 2;
      var pair: (bytes, bytes) := (Join(p[2 * k], p[2 * k + 1]), Joined(node, branch[0], index));
      if Collision(dsha, pair) then Some(pair)
      else BranchCollision(dsha, Up(dsha, p), k, dsha(pair.1), branch[1..])
  }

  /** A claimed pair that hashes to the node above is the true pair, unless the two collide. */
  lemma PairBinds(dsha: Dsha, p: seq<Digest>, index: nat, node: Digest, sibling: Digest)
    requires |p| % 2 == 0 && index < |p|
    requires var k := index / 2;
             var claimed := Joined(node, sibling, index);
             dsha(claimed) == Up(dsha, p)[k] && !Collision(dsha, (Join(p[2 * k], p[2 * k + 1]), claimed))
    ensures node == p[index] && sibling == p[Sibling(index)]
  {
    hide Join;
    var k := index / 2;
    if index % 2 == 0 {
      SplitNodes(p[2 * k], p[2 * k + 1], node, sibling);
    } else {
      SplitNodes(p[2 * k], p[2 * k + 1], sibling, node);
    }
  }

  /** Only the true leaf, with its true branch, folds to the root at its index, or a collision is found on the way. */
  lemma {:induction false} BranchIsSound(dsha: Dsha, leaves: seq<Digest>, index: nat, node: Digest, branch: seq<Digest>)
    requires index < |leaves| && |branch| == Depth(|leaves|)
    requires Fold(dsha, node, branch, index) == Root(dsha, leaves)
    ensures BranchCollision(dsha, leaves, index, node, branch).None? ==>
              node == leaves[index] && branch == Branch(dsha, leaves, index)
    decreases |leaves|
  {
    hide Up, Join, Joined, Padded, Collision;
    if |leaves| == 1 {
    } else {
      var p, k := Padded(leaves), index / 2;
      BranchIsSound(dsha, Up(dsha, p), k, dsha(Joined(node, branch[0], index)), branch[1..]);
      if BranchCollision(dsha, leaves, index, node, branch).None? {
        PairBinds(dsha, p, index, node, branch[0]);
        assert branch == [branch[0]] + branch[1..];
        assert p[index] == leaves[index];
      }
    }
  }
}
