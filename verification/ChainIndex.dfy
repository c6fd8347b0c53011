/**
 The server's in-memory chain, how it is rebuilt from the database, and the point
 where its header format changes.
 */
module ChainIndex {
  import opened Bytes
  import opened Headers
  import opened Hashing

  datatype NewHeader = NewHeader(header: AnyHeader, hash: Digest, height: nat)

  // ----- database rows

  /**
   The scan of the `headers` column family: keys of either header size are yielded,
   anything else there (the one-byte tip key) is skipped.
   */
  class HeaderIterator {
    const keys: seq<bytes>
    var pos: nat
    var done: bool

    ghost predicate Valid()
      reads this
    {
      pos <= |keys| && (done ==> pos == |keys|)
    }

    constructor (keys: seq<bytes>)
      ensures Valid() && this.keys == keys && Left() == HeaderKeys(keys)
    {
      this.keys := keys;
      pos := 0;
      done := false;
      new;
      assert keys[0..] == keys;
    }

    /** The rows still to come. */
    ghost function Left(): seq<bytes>
      requires Valid()
      reads this
    {
      HeaderKeys(keys[pos..])
    }

    method Next() returns (row: Option<bytes>)
      requires Valid()
      modifies this
      ensures Valid()
      ensures row == if old(Left()) == [] then None else Some(old(Left())[0])
      ensures Left() == if old(Left()) == [] then [] else old(Left())[1..]
    {
      while !done
        invariant Valid() && Left() == old(Left())
        decreases |keys| - pos, !done
      {
        if pos == |keys| {
          done := true;
        } else {
          var key := keys[pos];
          ghost var left := keys[pos..];
          assert left[0] == key && left[1..] == keys[pos + 1..];
          pos := pos + 1;
          if IsHeaderKey(key) {
            return Some(key);
          }
        }
      }
      row := None;
    }
  }

  predicate IsHeaderKey(key: bytes) {
    |key| == HEADER_V1_SIZE || |key| == HEADER_V2_SIZE
  }

  function HeaderKeys(keys: seq<bytes>): seq<bytes> {
    if keys == [] then [] else (if IsHeaderKey(keys[0]) then [keys[0]] else []) + HeaderKeys(keys[1..])
  }

  /** The rows yielded are the keys of 80 or 164 bytes, each as often as it is there, and no others. */
  lemma {:induction false} HeaderKeysExactly(keys: seq<bytes>, k: bytes)
    ensures multiset(HeaderKeys(keys))[k] == if |k| == 80 || |k| == 164 then multiset(keys)[k] else 0
  {
    if keys == [] {
    } else {
      HeaderKeysExactly(keys[1..], k);
      assert keys == [keys[0]] + keys[1..];
    }
  }

  /** And in the order of the scan. */
  lemma HeaderKeysAppend(xs: seq<bytes>, ys: seq<bytes>)
    ensures HeaderKeys(xs + ys) == HeaderKeys(xs) + HeaderKeys(ys)
  {
    if xs == [] {
      assert xs + ys == ys;
    } else {
      assert (xs + ys)[1..] == xs[1..] + ys;
      HeaderKeysAppend(xs[1..], ys);
    }
  }

  /** Keys the indexer wrote: a header row decodes. */
  predicate WellWritten(keys: seq<bytes>) {
    forall k :: k in keys && IsHeaderKey(k) ==> ParseExact(k).Ok?
  }

  /** The headers the database holds, in iteration order. */
  function Stored(keys: seq<bytes>): seq<AnyHeader>
    requires WellWritten(keys)
  {
    if keys == [] then []
    else (if IsHeaderKey(keys[0]) then [ParseExact(keys[0]).value] else []) + Stored(keys[1..])
  }

  lemma StoredHasRow(keys: seq<bytes>, h: AnyHeader)
    requires WellWritten(keys) && h.Serialize() in keys && (h.V2? ==> h.SelfDescribing())
    ensures h in Stored(keys)
  {
    hide AnyHeader.Serialize, AnyHeader.SelfDescribing, ParseExact;
    if keys[0] == h.Serialize() {
      ExactRoundTrip(h);
    } else {
      StoredHasRow(keys[1..], h);
    }
  }

  // ----- following the links back from the tip

  /** The header map `load` collects: of rows with one hash, the last stays. */
  function ByHash(H: Hashes, hs: seq<AnyHeader>): map<Digest, AnyHeader> {
    if hs == [] then map[]
    else ByHash(H, hs[..|hs| - 1])[BlockHash(H, hs[|hs| - 1]) := hs[|hs| - 1]]
  }

  predicate DistinctHashes(H: Hashes, hs: seq<AnyHeader>) {
    forall a, b :: a in hs && b in hs && BlockHash(H, a) == BlockHash(H, b) ==> a == b
  }

  lemma ByHashFinds(H: Hashes, hs: seq<AnyHeader>, h: AnyHeader)
    requires DistinctHashes(H, hs) && h in hs
    ensures BlockHash(H, h) in ByHash(H, hs) && ByHash(H, hs)[BlockHash(H, h)] == h
  {
    hide BlockHash;
    var last := hs[|hs| - 1];
    if BlockHash(H, h) != BlockHash(H, last) {
      ByHashFinds(H, hs[..|hs| - 1], h);
    }
  }

  lemma ByHashHolds(H: Hashes, hs: seq<AnyHeader>, d: Digest)
    requires d in ByHash(H, hs)
    ensures exists h :: h in hs && BlockHash(H, h) == d
  {
    hide BlockHash;
    if d != BlockHash(H, hs[|hs| - 1]) {
      ByHashHolds(H, hs[..|hs| - 1], d);
      var h :| h in hs[..|hs| - 1] && BlockHash(H, h) == d;
      assert h in hs;
    }
  }

  /** `chain` stands on `bottom`, each header naming the one below it, and ends at the tip. */
  predicate Links(H: Hashes, bottom: Digest, chain: seq<AnyHeader>, tip: Digest) {
    && tip == (if chain == [] then bottom else BlockHash(H, chain[|chain| - 1]))
    && (chain != [] ==> chain[0].Prev() == bottom)
    && (forall i :: 0 < i < |chain| ==> chain[i].Prev() == BlockHash(H, chain[i - 1]))
  }

  /** A chain of links from the genesis, which it does not meet again. */
  predicate IsChain(H: Hashes, genesis: Digest, chain: seq<AnyHeader>, tip: Digest) {
    Links(H, genesis, chain, tip) && forall i :: 0 <= i < |chain| ==> BlockHash(H, chain[i]) != genesis
  }

  /** No header occurs twice above the genesis: following the links from a repeat would meet the genesis twice. */
  lemma {:induction false} ChainHasNoRepeats(H: Hashes, genesis: Digest, chain: seq<AnyHeader>, tip: Digest, i: nat,
      j: nat)
    requires IsChain(H, genesis, chain, tip) && DistinctHashes(H, chain) && i < j < |chain|
    ensures BlockHash(H, chain[i]) != BlockHash(H, chain[j])
  {
    hide BlockHash;
    if BlockHash(H, chain[i]) == BlockHash(H, chain[j]) {
      assert chain[i] == chain[j];
      assert chain[j].Prev() == BlockHash(H, chain[j - 1]) != genesis;
      if i > 0 {
        ChainHasNoRepeats(H, genesis, chain, tip, i - 1, j - 1);
      }
    }
  }

  // ----- the chain

  function Hashed(H: Hashes, hs: seq<AnyHeader>): seq<(Digest, AnyHeader)> {
    seq(|hs|, i requires 0 <= i < |hs| => (BlockHash(H, hs[i]), hs[i]))
  }

  /** Headers for the heights above the genesis. */
  function Numbered(H: Hashes, hs: seq<AnyHeader>): (new_: seq<NewHeader>)
    ensures |new_| == |hs|
  {
    seq(|hs|, i requires 0 <= i < |hs| => NewHeader(hs[i], BlockHash(H, hs[i]), i + 1))
  }

  lemma NumberedFits(H: Hashes, hs: seq<AnyHeader>)
    ensures Entries(Numbered(H, hs)) == Hashed(H, hs) && Consecutive(H, Numbered(H, hs), 1)
    ensures hs != [] ==> Numbered(H, hs)[0].height == 1
  {
    hide BlockHash;
  }

  /** Consecutive heights from `first`, each entry carrying its own hash. */
  predicate Consecutive(H: Hashes, new_: seq<NewHeader>, first: nat) {
    forall i :: 0 <= i < |new_| ==> new_[i].height == first + i && new_[i].hash == BlockHash(H, new_[i].header)
  }

  function Entries(new_: seq<NewHeader>): seq<(Digest, AnyHeader)> {
    seq(|new_|, i requires 0 <= i < |new_| => (new_[i].hash, new_[i].header))
  }

  predicate Distinct(pairs: seq<(Digest, AnyHeader)>) {
    forall i, j :: 0 <= i < j < |pairs| ==> pairs[i].0 != pairs[j].0
  }

  predicate Inverse(heights: map<Digest, nat>, pairs: seq<(Digest, AnyHeader)>) {
    && (forall i :: 0 <= i < |pairs| ==> pairs[i].0 in heights && heights[pairs[i].0] == i)
    && (forall d :: d in heights ==> heights[d] < |pairs| && pairs[heights[d]].0 == d)
  }

  /** The hashes of the truncated headers leave the height map. */
  method DrainFrom(heights: map<Digest, nat>, pairs: seq<(Digest, AnyHeader)>, first: nat) returns (m: map<Digest, nat>)
    requires Inverse(heights, pairs) && first <= |pairs|
    ensures Inverse(m, pairs[..first])
  {
    m := heights;
    for i := first to |pairs|
      invariant forall k :: 0 <= k < |pairs| && !(first <= k < i) ==> pairs[k].0 in m && m[pairs[k].0] == k
      invariant forall d :: d in m ==> m[d] < |pairs| && !(first <= m[d] < i) && pairs[m[d]].0 == d
    {
      m := m - {pairs[i].0};
    }
  }

  lemma InverseGrows(heights: map<Digest, nat>, all: seq<(Digest, AnyHeader)>, n: nat)
    requires n < |all| && Inverse(heights, all[..n]) && Distinct(all)
    ensures Inverse(heights[all[n].0 := n], all[..n + 1])
  {
    var pairs, more := all[..n], heights[all[n].0 := n];
    forall d | d in more
      ensures more[d] < n + 1 && all[..n + 1][more[d]].0 == d
    {
      if d != all[n].0 {
        assert pairs[heights[d]].0 == d;
      }
    }
    forall i | 0 <= i < n
      ensures all[i].0 in more && more[all[i].0] == i
    {
      assert pairs[i].0 == all[i].0;
    }
  }

  /** The links from the tip down to the genesis, as a list from the top; `None` where one is missing. */
  method FollowLinks(H: Hashes, hs: seq<AnyHeader>, genesis: Digest, tip: Digest, ghost bottom: Digest,
      ghost active: seq<AnyHeader>)
    returns (found: Option<seq<AnyHeader>>)
    requires DistinctHashes(H, hs) && Links(H, bottom, active, tip) && forall h :: h in active ==> h in hs
    requires forall i :: 0 <= i < |active| ==> BlockHash(H, active[i]) != genesis
    requires bottom == genesis || forall h :: h in hs ==> BlockHash(H, h) != bottom
    ensures found == if bottom == genesis then Some(Reverse(active)) else None
  {
    hide BlockHash, DistinctHashes, ByHash;
    var headerMap := ByHash(H, hs);
    var blockhash := tip;
    var headers: seq<AnyHeader> := [];
    ghost var r: nat := |active|;
    assert active[r..] == [];
    while blockhash != genesis
      invariant r <= |active| && blockhash == (if r == 0 then bottom else BlockHash(H, active[r - 1]))
      invariant headers == Reverse(active[r..])
      decreases r
    {
      if blockhash !in headerMap {
        if r > 0 {
          ByHashFinds(H, hs, active[r - 1]);
        }
        return None;
      }
      if r == 0 {
        ByHashHolds(H, hs, bottom);
      }
      ByHashFinds(H, hs, active[r - 1]);
      var header := headerMap[blockhash];
      blockhash := header.Prev();
      assert active[r - 1..] == [active[r - 1]] + active[r..];
      headers := headers + [header];
      r := r - 1;
    }
    assert active[0..] == active;
    found := Some(headers);
  }

  class Chain {
    const H: Hashes
    var headers: seq<(Digest, AnyHeader)>
    var heights: map<Digest, nat>

    ghost predicate Valid()
      reads this
    {
      && |headers| > 0
      && (forall i :: 0 <= i < |headers| ==> headers[i].0 == BlockHash(H, headers[i].1))
      && Inverse(heights, headers)
    }

    constructor (H: Hashes, genesis: AnyHeader)
      ensures Valid() && this.H == H && headers == [(BlockHash(H, genesis), genesis)]
    {
      this.H := H;
      headers := [(BlockHash(H, genesis), genesis)];
      heights := map[BlockHash(H, genesis) := 0];
    }

    function Height(): nat
      requires |headers| > 0
      reads this
    {
      |headers| - 1
    }

    function Tip(): Digest
      requires |headers| > 0
      reads this
    {
      headers[|headers| - 1].0
    }

    function GetBlockHeader(height: nat): Option<AnyHeader>
      reads this
    {
      if height < |headers| then Some(headers[height].1) else None
    }

    /** Truncate from the first new height, then append. The program asserts what is required here. */
    method Update(new_: seq<NewHeader>)
      requires Valid()
      requires new_ != [] ==> new_[0].height <= |headers| && Consecutive(H, new_, new_[0].height)
      requires new_ != [] ==> Distinct(headers[..new_[0].height] + Entries(new_))
      modifies this
      ensures Valid()
      ensures headers == if new_ == [] then old(headers) else old(headers)[..new_[0].height] + Entries(new_)
    {
      hide BlockHash, Inverse, Distinct;
      if new_ == [] {
        return;
      }
      var first := new_[0].height;
      heights := DrainFrom(heights, headers, first);
      headers := headers[..first];
      ghost var all := headers + Entries(new_);
      assert all[..first] == headers;
      for j := 0 to |new_|
        invariant headers == all[..first + j] && Inverse(heights, headers)
      {
        InverseGrows(heights, all, first + j);
        heights := heights[new_[j].hash := new_[j].height];
        headers := headers + [(new_[j].hash, new_[j].header)];
        assert headers == all[..first + j + 1];
      }
      assert all[..first + |new_|] == all;
    }

    /** Unwinding n blocks keeps exactly the prefix up to height - n, or the genesis alone. */
    method DropLastHeaders(n: nat)
      requires Valid()
      modifies this
      ensures Valid()
      ensures headers == old(headers)[..Max(|old(headers)| - 1 - n, 0) + 1]
    {
      hide BlockHash;
      if n == 0 {
        return;
      }
      var newHeight := Max(|headers| - 1 - n, 0);
      var h := headers[newHeight].1;
      var entry := NewHeader(h, BlockHash(H, h), newHeight);
      assert headers[..newHeight] + Entries([entry]) == headers[..newHeight + 1];
      InverseIsDistinct(heights, headers);
      Update([entry]);
    }

    /**
     Rebuild from headers in any order, stale branches among them: follow the links from
     the tip to the genesis, then append in height order. `active` is what the links make,
     down to `bottom`: the genesis, or a header that is missing, where the program panics.
     */
    method Load(hs: seq<AnyHeader>, tip: Digest, ghost bottom: Digest, ghost active: seq<AnyHeader>)
        returns (loaded: bool)
      requires Valid()
      requires DistinctHashes(H, hs) && Links(H, bottom, active, tip) && forall h :: h in active ==> h in hs
      requires forall i :: 0 <= i < |active| ==> BlockHash(H, active[i]) != headers[0].0
      requires bottom == headers[0].0 || forall h :: h in hs ==> BlockHash(H, h) != bottom
      modifies this
      ensures Valid() && loaded == (bottom == old(headers)[0].0)
      ensures headers == if active == [] || !loaded then old(headers) else [old(headers)[0]] + Hashed(H, active)
    {
      hide BlockHash, Inverse, Distinct, Numbered, Consecutive, Entries, Hashed;
      var found := FollowLinks(H, hs, headers[0].0, tip, bottom, active);
      if found.None? {
        return false;
      }
      ReverseTwice(active);
      var byHeight := Reverse(found.value);
      NumberedFits(H, byHeight);
      if active != [] {
        LoadedIsDistinct(H, headers[0], active, tip);
        assert headers[..1] == [headers[0]];
      }
      Update(Numbered(H, byHeight));
      loaded := true;
    }
  }

  function Max(a: int, b: int): int {
    if a < b then b else a
  }

  lemma InverseIsDistinct(heights: map<Digest, nat>, pairs: seq<(Digest, AnyHeader)>)
    requires Inverse(heights, pairs)
    ensures forall n :: 0 <= n <= |pairs| ==> Distinct(pairs[..n])
  {
  }

  lemma LoadedIsDistinct(H: Hashes, first: (Digest, AnyHeader), active: seq<AnyHeader>, tip: Digest)
    requires IsChain(H, first.0, active, tip) && DistinctHashes(H, active)
    ensures Distinct([first] + Hashed(H, active))
  {
    hide BlockHash;
    var pairs := [first] + Hashed(H, active);
    forall i, j | 0 <= i < j < |pairs|
      ensures pairs[i].0 != pairs[j].0
    {
      if i > 0 {
        ChainHasNoRepeats(H, first.0, active, tip, i - 1, j - 1);
      }
    }
  }

  // ----- reopening the database

  method ReadRows(keys: seq<bytes>) returns (rows: seq<bytes>)
    ensures rows == HeaderKeys(keys)
  {
    hide HeaderKeys, IsHeaderKey;
    var iter := new HeaderIterator(keys);
    rows := [];
    var row := iter.Next();
    while row.Some?
      invariant iter.Valid() && fresh(iter)
      invariant HeaderKeys(keys) == rows + (if row.Some? then [row.value] + iter.Left() else [])
      decreases |HeaderKeys(keys)| - |rows|
    {
      rows := rows + [row.value];
      row := iter.Next();
    }
  }

  lemma RowsDecode(keys: seq<bytes>)
    requires WellWritten(keys)
    ensures |Stored(keys)| == |HeaderKeys(keys)|
    ensures forall i :: 0 <= i < |Stored(keys)| ==> ParseExact(HeaderKeys(keys)[i]) == Ok(Stored(keys)[i])
  {
    hide ParseExact;
    if keys == [] {
    } else {
      RowsDecode(keys[1..]);
    }
  }

  /**
   `Index::load`: scan the rows, decode each by its length, rebuild to the tip, and unwind
   what is to be re-indexed.
   */
  method Reopen(chain: Chain, keys: seq<bytes>, tip: Digest, reindexLast: nat, ghost active: seq<AnyHeader>)
    requires chain.Valid() && |chain.headers| == 1
    requires WellWritten(keys) && DistinctHashes(chain.H, Stored(keys))
    requires IsChain(chain.H, chain.headers[0].0, active, tip)
    requires forall h :: h in active ==> h.Serialize() in keys && (h.V2? ==> h.SelfDescribing())
    modifies chain
    ensures chain.Valid()
    ensures var all := [old(chain.headers[0])] + Hashed(chain.H, active);
            chain.headers == all[..Max(|active| - reindexLast, 0) + 1]
  {
    hide BlockHash, AnyHeader.Serialize, AnyHeader.SelfDescribing, ParseExact;
    var rows := ReadRows(keys);
    RowsDecode(keys);
    var hs := seq(|rows|, i requires 0 <= i < |rows| => ParseExact(rows[i]).value);
    assert hs == Stored(keys);
    forall h | h in active
      ensures h in hs
    {
      StoredHasRow(keys, h);
    }
    var _ := chain.Load(hs, tip, chain.headers[0].0, active);
    chain.DropLastHeaders(reindexLast);
  }

  // ----- where the format changes

  predicate V2At(headers: seq<(Digest, AnyHeader)>, height: nat)
    requires height < |headers|
  {
    headers[height].1.IsV2()
  }

  /** `has_v2_headers`: the tip alone is looked at. */
  predicate TipIsV2(headers: seq<(Digest, AnyHeader)>) {
    |headers| > 0 && V2At(headers, |headers| - 1)
  }

  predicate IsForkHeight(headers: seq<(Digest, AnyHeader)>, height: nat) {
    height < |headers| && V2At(headers, height) && (height > 0 ==> !V2At(headers, height - 1))
  }

  /** `fork_point`: bisection between the genesis and the tip, on any chain at all. */
  method ForkPoint(chain: Chain) returns (fork: Option<(nat, Digest)>)
    requires chain.Valid()
    ensures fork.Some? <==> TipIsV2(chain.headers)
    ensures fork.Some? ==> IsForkHeight(chain.headers, fork.value.0)
    ensures fork.Some? ==> fork.value.1 == BlockHash(chain.H, chain.headers[fork.value.0].1)
  {
    hide BlockHash;
    if !chain.headers[|chain.headers| - 1].1.IsV2() {
      return None;
    }
    var lo, hi := 0, chain.Height();
    while lo < hi
      invariant 0 <= lo <= hi < |chain.headers|
      invariant V2At(chain.headers, hi) && (lo > 0 ==> !V2At(chain.headers, lo - 1))
    {
      var mid := lo + (hi - lo) / 2;
      match chain.GetBlockHeader(mid) {
        case Some(h) =>
          if h.IsV2() {
            hi := mid;
          } else {
            lo := mid + 1;
          }
        case None =>
          lo := mid + 1;
      }
    }
    fork := Some((lo, BlockHash(chain.H, chain.headers[lo].1)));
  }

  /** Once v2, always v2. */
  predicate Monotone(headers: seq<(Digest, AnyHeader)>) {
    forall i, j :: 0 <= i < j < |headers| && V2At(headers, i) ==> V2At(headers, j)
  }

  /** On a chain that switches once, the height the bisection reports is the first v2 height, and the only candidate. */
  lemma ForkHeightIsFirst(headers: seq<(Digest, AnyHeader)>, height: nat, k: nat)
    requires Monotone(headers) && IsForkHeight(headers, height) && k < |headers|
    ensures V2At(headers, k) <==> k >= height
    ensures IsForkHeight(headers, k) ==> k == height
  {
  }
}
