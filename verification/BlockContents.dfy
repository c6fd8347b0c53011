/**
 What a header commits to beyond itself. A v2 header counts its block's transactions, so
 its Merkle root binds their ids; a v1 header does not, so it binds them only among blocks
 with one count. Hence what a block with a given hash can be, from whichever source.
 */
module BlockContents {
  import opened Bytes
  import opened Headers
  import opened Hashing
  import opened Commitment
  import opened TxWalk
  import opened Routing
  import Wire
  import Merkle
  import HelperProofs

  function DoubleSha(H: Hashes): bytes -> Digest {
    b => Sha256d(H, b)
  }

  function IdsOf(id: Ids, txs: seq<bytes>): seq<Digest> {
    seq(|txs|, i requires 0 <= i < |txs| => id(txs[i]))
  }

  /** The header's root is that of the transactions, and a v2 header counts them. */
  predicate Commits(H: Hashes, id: Ids, h: AnyHeader, txs: seq<bytes>) {
    && txs != [] && Merkle.Root(DoubleSha(H), IdsOf(id, txs)) == h.MerkleRoot()
    && (h.V2? ==> |txs| == h.v2.txcount)
  }

  /** Searching two lists of as many transactions finds two inputs that the tree hashes alike. */
  predicate TreesCollide(H: Hashes, id: Ids, xs: seq<bytes>, ys: seq<bytes>) {
    |xs| == |ys| > 0 && Merkle.TreeCollision(DoubleSha(H), IdsOf(id, xs), IdsOf(id, ys)).Some?
  }

  lemma HeaderBindsIds(H: Hashes, id: Ids, h: AnyHeader, xs: seq<bytes>, ys: seq<bytes>)
    requires Commits(H, id, h, xs) && Commits(H, id, h, ys) && |xs| == |ys|
    ensures IdsOf(id, xs) == IdsOf(id, ys) || TreesCollide(H, id, xs, ys)
  {
    hide Merkle.Root, Merkle.TreeCollision;
    Merkle.RootBindsLeaves(DoubleSha(H), IdsOf(id, xs), IdsOf(id, ys));
  }

  /** Equal ASIC inputs commit to the same transaction ids in the same order, or some hash collides. */
  lemma AsicInputCommitsToTransactions(H: Hashes, id: Ids, a: HeaderV2, b: HeaderV2, xs: seq<bytes>, ys: seq<bytes>)
    requires a.version < VERSION_HEADER_V2_FLAG && b.version < VERSION_HEADER_V2_FLAG
    requires AsicInput(H, a) == AsicInput(H, b)
    requires Commits(H, id, V2(a), xs) && Commits(H, id, V2(b), ys)
    ensures || IdsOf(id, xs) == IdsOf(id, ys) || TreesCollide(H, id, xs, ys)
            || StageCollision(H, a, b) || CrossCollision(H, a, b)
  {
    hide AsicInput, StageCollision, CrossCollision, IdsOf, TreesCollide, DoubleSha, Merkle.Root;
    AsicInputCommitsToHeader(H, a, b);
    if a == b {
      HeaderBindsIds(H, id, V2(a), xs, ys);
    }
  }

  // ----- headers of either format

  /** Two v2 headers use one mask, as all do without an XOR key. */
  predicate SameMask(H: Hashes, a: AnyHeader, b: AnyHeader) {
    a.V2? && b.V2? ==> MaskOf(H, a.v2.xorKey, a.v2.clearBits) == MaskOf(H, b.v2.xorKey, b.v2.clearBits)
  }

  /** The inputs that collide if two headers with one hash differ; across formats, the two hashes meet. */
  ghost predicate HeadersCollide(H: Hashes, a: AnyHeader, b: AnyHeader) {
    match (a, b)
    case (V1(x), V1(y)) =>
      || Collides(H.sha256, SerializeV1(x), SerializeV1(y))
      || Collides(H.sha256, H.sha256(SerializeV1(x)), H.sha256(SerializeV1(y)))
    case (V2(x), V2(y)) =>
      || StageCollision(H, x, y) || CrossCollision(H, x, y)
      || Collides(H.blake2b, AsicInput(H, x), AsicInput(H, y))
    case (V1(x), V2(y)) => Sha256d(H, SerializeV1(x)) == Reverse(StagesOf(H, y).blockHash)
    case (V2(x), V1(y)) => Sha256d(H, SerializeV1(y)) == Reverse(StagesOf(H, x).blockHash)
  }

  lemma BlockHashBindsHeader(H: Hashes, a: AnyHeader, b: AnyHeader)
    requires a.SelfDescribing() && b.SelfDescribing() && SameMask(H, a, b) && BlockHash(H, a) == BlockHash(H, b)
    ensures a == b || HeadersCollide(H, a, b)
  {
    hide SerializeV1, StagesOf, StageCollision, CrossCollision, AsicInput, MaskOf;
    match (a, b)
    case (V1(x), V1(y)) =>
      V1Decodes(x);
      V1Decodes(y);
    case (V2(x), V2(y)) => BlockHashCommitsToHeader(H, x, y);
    case _ =>
  }

  // ----- whole blocks

  /** Exactly a header of either format, a count, and that many whole transactions, which the header commits to. */
  ghost predicate IsBlock(H: Hashes, tx: Parser, id: Ids, block: bytes, h: AnyHeader, txs: seq<bytes>) {
    && h.SelfDescribing()
    && |txs| < 0x1_0000_0000_0000_0000 && Whole(tx, txs) && Commits(H, id, h, txs)
    && block == h.Serialize() + (Wire.VarInt(|txs|) + Flatten(txs))
  }

  /** The count a block carries behind its header. */
  function TxCount(block: bytes): Option<nat> {
    match Parse(block)
    case Err(_) => None
    case Ok(h) =>
      if |block| < h.Size() then None // the parse has already refused this
      else match Wire.ReadMinimalVarInt(block[h.Size()..])
           case None => None
           case Some((count, _)) => Some(count)
  }

  lemma CountIsRead(h: AnyHeader, n: u64, rest: bytes)
    requires h.SelfDescribing()
    ensures Parse(h.Serialize() + (Wire.VarInt(n) + rest)) == Ok(h)
    ensures TxCount(h.Serialize() + (Wire.VarInt(n) + rest)) == Some(n)
  {
    hide AnyHeader.Serialize, Parse, HeaderSize, Wire.VarInt, Wire.ReadVarInt;
    ParseFront(h, Wire.VarInt(n) + rest);
    Wire.Drop(h.Serialize(), Wire.VarInt(n) + rest);
    Wire.VarIntReads(n, rest);
  }

  /** Two transactions at one place that differ but have one id, as when only their witnesses differ. */
  predicate SameIdOtherBytes(id: Ids, xs: seq<bytes>, ys: seq<bytes>) {
    |xs| == |ys| && exists i :: 0 <= i < |xs| && xs[i] != ys[i] && id(xs[i]) == id(ys[i])
  }

  lemma SameIds(id: Ids, xs: seq<bytes>, ys: seq<bytes>)
    requires IdsOf(id, xs) == IdsOf(id, ys)
    ensures xs == ys || SameIdOtherBytes(id, xs, ys)
  {
    assert |IdsOf(id, xs)| == |xs| && |IdsOf(id, ys)| == |ys|;
    if xs != ys {
      var i :| 0 <= i < |xs| && xs[i] != ys[i];
      assert IdsOf(id, xs)[i] == IdsOf(id, ys)[i];
    }
  }

  /** How two blocks with one hash and one count could still differ. */
  ghost predicate Ambiguous(H: Hashes, id: Ids, a: AnyHeader, b: AnyHeader, xs: seq<bytes>, ys: seq<bytes>) {
    SameIdOtherBytes(id, xs, ys) || TreesCollide(H, id, xs, ys) || HeadersCollide(H, a, b)
  }

  /**
   What the check of the header's hash leaves open: two whole blocks that pass it for one
   hash are byte for byte the same exactly when they carry one count, or differ only in
   transactions of one id, or some hash collides. Under a v2 header the count is the same.
   */
  lemma HashDeterminesBlock(H: Hashes, tx: Parser, id: Ids, hash: Digest, mine: bytes, theirs: bytes,
      a: AnyHeader, b: AnyHeader, xs: seq<bytes>, ys: seq<bytes>)
    requires IsBlock(H, tx, id, mine, a, xs) && IsBlock(H, tx, id, theirs, b, ys) && SameMask(H, a, b)
    requires HasHash(H, hash, mine) && HasHash(H, hash, theirs)
    ensures (mine == theirs <==> TxCount(mine) == TxCount(theirs)) || Ambiguous(H, id, a, b, xs, ys)
    ensures b.V2? ==> mine == theirs || Ambiguous(H, id, a, b, xs, ys)
  {
    hide AnyHeader.Serialize, AnyHeader.SelfDescribing, Parse, BlockHash, SameMask, HeadersCollide, TxCount;
    hide Merkle.Root, DoubleSha, IdsOf, TreesCollide, Whole, Flatten, Wire.VarInt, SameIdOtherBytes;
    CountIsRead(a, |xs|, Flatten(xs));
    CountIsRead(b, |ys|, Flatten(ys));
    BlockHashBindsHeader(H, a, b);
    if a == b && |xs| == |ys| {
      HeaderBindsIds(H, id, a, xs, ys);
      if IdsOf(id, xs) == IdsOf(id, ys) {
        SameIds(id, xs, ys);
      }
    }
  }

  // ----- the count does matter

  /** The last transaction once more. */
  function Repeated(txs: seq<bytes>): seq<bytes>
    requires txs != []
  {
    txs + [txs[|txs| - 1]]
  }

  lemma RepeatedHasSameRoot(H: Hashes, id: Ids, txs: seq<bytes>)
    requires |txs| % 2 == 1 && |txs| > 1
    ensures Merkle.Root(DoubleSha(H), IdsOf(id, Repeated(txs))) == Merkle.Root(DoubleSha(H), IdsOf(id, txs))
  {
    hide Merkle.Root, DoubleSha;
    Merkle.RootForgetsDuplicate(DoubleSha(H), IdsOf(id, txs));
    assert IdsOf(id, Repeated(txs)) == IdsOf(id, txs) + [IdsOf(id, txs)[|txs| - 1]];
  }

  /** Another whole block of the same v1 header: an odd number of transactions, the last repeated and counted. */
  lemma RepeatedIsBlock(H: Hashes, tx: Parser, id: Ids, block: bytes, h: HeaderV1, txs: seq<bytes>)
    requires IsBlock(H, tx, id, block, V1(h), txs) && |txs| % 2 == 1 && 1 < |txs| < 0xFFFF_FFFF_FFFF_FFFF
    ensures var more := Repeated(txs);
            var other := V1(h).Serialize() + (Wire.VarInt(|more|) + Flatten(more));
            IsBlock(H, tx, id, other, V1(h), more) && other != block
  {
    hide AnyHeader.Serialize, AnyHeader.SelfDescribing, Parse, TxCount;
    hide Merkle.Root, DoubleSha, IdsOf, Flatten, Wire.VarInt;
    var more := Repeated(txs);
    RepeatedHasSameRoot(H, id, txs);
    CountIsRead(V1(h), |txs|, Flatten(txs));
    CountIsRead(V1(h), |more|, Flatten(more));
  }

  /** And if the helper gives that block, the caller gets it instead of RPC's. */
  lemma RepeatedIsDelivered(src: Sources, w: World, tx: Parser, id: Ids, block: bytes, h: HeaderV1, txs: seq<bytes>,
      height: nat)
    requires IsBlock(src.H, tx, id, block, V1(h), txs) && |txs| % 2 == 1 && 1 < |txs| < 0xFFFF_FFFF_FFFF_FFFF
    requires src.rpc(BlockHash(src.H, V1(h))) == Some(block) && height < w.ceiling
    ensures var more := Repeated(txs);
            var other := V1(h).Serialize() + (Wire.VarInt(|more|) + Flatten(more));
            var hash := BlockHash(src.H, V1(h));
            var with := HelperProofs.WithHelper(src, HelperProofs.AnswersOnly(hash, other));
            && IsBlock(src.H, tx, id, other, V1(h), more) && other != block
            && FetchPruned(with, w, hash, height).1.delivered == w.delivered + [(hash, other)]
            && FetchPruned(HelperProofs.NoHelper(src), w, hash, height).1.delivered == w.delivered + [(hash, block)]
  {
    hide AnyHeader.Serialize, BlockHash, Flatten, Wire.VarInt, FetchPruned, Whole, Commits;
    var more := Repeated(txs);
    RepeatedIsBlock(src.H, tx, id, block, h, txs);
    HelperProofs.OnlyTheHeaderIsChecked(src, w, V1(h), Wire.VarInt(|more|) + Flatten(more), height);
    WithoutHelper(src, w, BlockHash(src.H, V1(h)), height);
  }

  lemma WithoutHelper(src: Sources, w: World, hash: Digest, height: nat)
    requires src.rpc(hash).Some?
    ensures FetchPruned(HelperProofs.NoHelper(src), w, hash, height).1.delivered
         == w.delivered + [(hash, src.rpc(hash).value)]
  {
    hide HasHash;
  }

  // ----- what a helper that gives whole blocks can change

  /** Both are whole blocks, of either format, and v2 headers among them use one mask. */
  ghost predicate Comparable(H: Hashes, tx: Parser, id: Ids, mine: bytes, theirs: bytes) {
    exists a, b, xs, ys ::
      IsBlock(H, tx, id, mine, a, xs) && IsBlock(H, tx, id, theirs, b, ys) && SameMask(H, a, b)
  }

  /** Whole blocks that could differ although they have one hash and one count. */
  ghost predicate Confused(H: Hashes, tx: Parser, id: Ids, mine: bytes, theirs: bytes) {
    exists a, b, xs, ys ::
      IsBlock(H, tx, id, mine, a, xs) && IsBlock(H, tx, id, theirs, b, ys) && Ambiguous(H, id, a, b, xs, ys)
  }

  lemma PairShowsExactly(H: Hashes, tx: Parser, id: Ids, hash: Digest, mine: bytes, theirs: bytes)
    requires Comparable(H, tx, id, mine, theirs) && HasHash(H, hash, mine) && HasHash(H, hash, theirs)
    ensures (mine == theirs <==> TxCount(mine) == TxCount(theirs)) || Confused(H, tx, id, mine, theirs)
    ensures Parse(theirs).Ok?
    ensures Parse(theirs).value.V2? ==> mine == theirs || Confused(H, tx, id, mine, theirs)
  {
    hide HasHash, Ambiguous, SameMask, TxCount, Parse, AnyHeader.Serialize, AnyHeader.SelfDescribing;
    hide Whole, Commits, Flatten, Wire.VarInt;
    var a, b, xs, ys :| IsBlock(H, tx, id, mine, a, xs) && IsBlock(H, tx, id, theirs, b, ys) && SameMask(H, a, b);
    HashDeterminesBlock(H, tx, id, hash, mine, theirs, a, b, xs, ys);
    CountIsRead(b, |ys|, Flatten(ys));
  }

  predicate SameCounts(src: Sources, taken: seq<(Digest, bytes)>) {
    forall t <- taken :: src.rpc(t.0).Some? && TxCount(t.1) == TxCount(src.rpc(t.0).value)
  }

  ghost predicate SomeConfused(src: Sources, tx: Parser, id: Ids, taken: seq<(Digest, bytes)>) {
    exists t :: t in taken && src.rpc(t.0).Some? && Confused(src.H, tx, id, src.rpc(t.0).value, t.1)
  }

  /**
   Where what was taken from the helper are whole blocks that can be compared with RPC's, of
   either format: the deliveries are identical exactly when each block taken carries as many
   transactions as RPC's, unless a pair is confused, by transactions of one id or an explicit
   collision. Only a v1 block can carry another count.
   */
  lemma WholeBlocksShowExactly(src: Sources, w: World, hashes: seq<Digest>, heights: seq<nat>, prune: nat,
      tx: Parser, id: Ids)
    requires |hashes| == |heights| && ByRuns(HelperProofs.NoHelper(src), w, hashes, heights, prune, 0).0
    requires forall t <- HelperProofs.Taken(src, w, hashes, heights, prune, 0) ::
               && src.rpc(t.0).Some? && HasHash(src.H, t.0, src.rpc(t.0).value)
               && Comparable(src.H, tx, id, src.rpc(t.0).value, t.1)
    ensures var taken := HelperProofs.Taken(src, w, hashes, heights, prune, 0);
            var same := ByRuns(src, w, hashes, heights, prune, 0).1.delivered
                        == ByRuns(HelperProofs.NoHelper(src), w, hashes, heights, prune, 0).1.delivered;
            && ((same <==> SameCounts(src, taken)) || SomeConfused(src, tx, id, taken))
            && (same || SomeConfused(src, tx, id, taken)
                || exists t :: t in taken && Parse(t.1).Ok? && Parse(t.1).value.V1? && src.rpc(t.0) != Some(t.1))
  {
    hide ByRuns, HelperProofs.Taken, HasHash, Comparable, Confused, TxCount, Parse;
    HelperProofs.ShowsExactly(src, w, hashes, heights, prune);
    var taken := HelperProofs.Taken(src, w, hashes, heights, prune, 0);
    forall t <- taken
      ensures && src.rpc(t.0).Some? && Parse(t.1).Ok?
              && ((src.rpc(t.0) == Some(t.1) <==> TxCount(t.1) == TxCount(src.rpc(t.0).value))
                  || SomeConfused(src, tx, id, taken))
              && (Parse(t.1).value.V2? ==> src.rpc(t.0) == Some(t.1) || SomeConfused(src, tx, id, taken))
    {
      HelperProofs.TakenHasHash(src, w, hashes, heights, prune, 0, t);
      PairShowsExactly(src.H, tx, id, t.0, src.rpc(t.0).value, t.1);
    }
  }
}
