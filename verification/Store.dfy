/**
 The wallet's on-disk header store: fixed-width records, re-verified from a pinned
 checkpoint on every load. Linkage, difficulty, proof of work and median time are
 one abstract step, `add`, that a header may fail.
 */
module Store {
  import opened Bytes
  import opened Headers
  import opened HashPaths
  import opened Walk
  import opened Hex

  datatype Rules<!S> = Rules(pin: S, add: (S, AnyHeader) -> Option<S>)

  predicate Storable(net: Network, h: AnyHeader) {
    h.SelfDescribing() && h.Size() <= RecordLength(net)
  }

  predicate AllStorable(net: Network, hs: seq<AnyHeader>) {
    forall i :: 0 <= i < |hs| ==> Storable(net, hs[i])
  }

  /** `toRecord`: the header, zero-padded to the record size. */
  function ToRecord(net: Network, h: AnyHeader): (r: bytes)
    requires Storable(net, h)
    ensures |r| == RecordLength(net)
  {
    h.Serialize() + Zeros(RecordLength(net) - h.Size())
  }

  function Records(net: Network, hs: seq<AnyHeader>): bytes
    requires AllStorable(net, hs)
  {
    if hs == [] then [] else ToRecord(net, hs[0]) + Records(net, hs[1..])
  }

  /** The header a record holds, if its bytes are a header at all; the padding is not looked at. */
  function FromRecord(record: bytes): Option<AnyHeader> {
    match JavaRead(record, 0)
    case Err(_) => None
    case Ok(j) => Some(View(j))
  }

  /** The file is whole records, and they read as `hs`. */
  predicate Holds(net: Network, file: bytes, hs: seq<AnyHeader>) {
    if hs == [] then file == []
    else
      && |file| >= RecordLength(net)
      && FromRecord(file[..RecordLength(net)]) == Some(hs[0])
      && Holds(net, file[RecordLength(net)..], hs[1..])
  }

  // ----- the verifying prefix of a list of headers

  function Accepted<S>(rules: Rules<S>, s: S, hs: seq<AnyHeader>): (r: (nat, S))
    ensures r.0 <= |hs|
  {
    if hs == [] then (0, s)
    else match rules.add(s, hs[0])
         case None => (0, s)
         case Some(s') => var (n, end) := Accepted(rules, s', hs[1..]); (n + 1, end)
  }

  /**
   The longest prefix each of whose headers is added to the state the ones before it lead to:
   `trace` are those states, and the next header, if there is one, is refused.
   */
  lemma {:induction false} AcceptedIsLongest<S>(rules: Rules<S>, s: S, hs: seq<AnyHeader>) returns (trace: seq<S>)
    ensures var (n, end) := Accepted(rules, s, hs);
            && |trace| == n + 1 && trace[0] == s && trace[n] == end
            && (forall i :: 0 <= i < n ==> rules.add(trace[i], hs[i]) == Some(trace[i + 1]))
            && (n < |hs| ==> rules.add(end, hs[n]).None?)
  {
    trace := [s];
    if hs == [] {
    } else if rules.add(s, hs[0]).Some? {
      var s' := rules.add(s, hs[0]).value;
      var rest := AcceptedIsLongest(rules, s', hs[1..]);
      trace := [s] + rest;
      var n := Accepted(rules, s, hs).0;
      forall i | 0 <= i < n
        ensures rules.add(trace[i], hs[i]) == Some(trace[i + 1])
      {
        if i > 0 {
          assert rules.add(rest[i - 1], hs[1..][i - 1]) == Some(rest[i]);
        }
      }
    }
  }

  predicate Verifies<S(==)>(rules: Rules<S>, s: S, hs: seq<AnyHeader>, end: S) {
    Accepted(rules, s, hs) == (|hs|, end)
  }

  lemma {:induction false} AcceptedAppend<S>(rules: Rules<S>, s: S, hs: seq<AnyHeader>, mid: S, xs: seq<AnyHeader>)
    requires Verifies(rules, s, hs, mid)
    ensures var (n, end) := Accepted(rules, mid, xs); Accepted(rules, s, hs + xs) == (|hs| + n, end)
  {
    if hs == [] {
      assert hs + xs == xs;
    } else {
      assert (hs + xs)[1..] == hs[1..] + xs;
      AcceptedAppend(rules, rules.add(s, hs[0]).value, hs[1..], mid, xs);
    }
  }

  lemma {:induction false} AcceptedPrefix<S>(rules: Rules<S>, s: S, hs: seq<AnyHeader>, n: nat)
    requires n <= Accepted(rules, s, hs).0
    ensures Accepted(rules, s, hs[..n]).0 == n
    ensures n == Accepted(rules, s, hs).0 ==> Accepted(rules, s, hs[..n]) == Accepted(rules, s, hs)
  {
    if n == 0 {
    } else {
      assert hs[..n][1..] == hs[1..][..n - 1];
      AcceptedPrefix(rules, rules.add(s, hs[0]).value, hs[1..], n - 1);
    }
  }

  // ----- what a load recovers from any file

  /** The headers of the longest prefix of whole records that verifies from `s`, and the state after them. */
  function Walked<S>(net: Network, rules: Rules<S>, s: S, file: bytes): (seq<AnyHeader>, S)
    decreases |file|
  {
    if |file| < RecordLength(net) then ([], s)
    else match FromRecord(file[..RecordLength(net)])
         case None => ([], s)
         case Some(h) =>
           match rules.add(s, h)
           case None => ([], s)
           case Some(s') => var (hs, end) := Walked(net, rules, s', file[RecordLength(net)..]); ([h] + hs, end)
  }

  /** `walkTo`: read record after record until one is missing or refused. */
  method WalkTo<S>(net: Network, rules: Rules<S>, file: bytes) returns (count: nat, state: S)
    ensures (count, state) == (|Walked(net, rules, rules.pin, file).0|, Walked(net, rules, rules.pin, file).1)
  {
    hide FromRecord;
    var r := RecordLength(net);
    state := rules.pin;
    count := 0;
    var offset := 0;
    assert file[0..] == file;
    while offset + r <= |file|
      invariant 0 <= offset <= |file|
      invariant |Walked(net, rules, rules.pin, file).0| == count + |Walked(net, rules, state, file[offset..]).0|
      invariant Walked(net, rules, rules.pin, file).1 == Walked(net, rules, state, file[offset..]).1
      decreases |file| - offset
    {
      var record := file[offset..offset + r];
      assert record == file[offset..][..r];
      assert file[offset..][r..] == file[offset + r..];
      var h := FromRecord(record);
      if h.None? {
        return;
      }
      var next := rules.add(state, h.value);
      if next.None? {
        return;
      }
      state := next.value;
      offset := offset + r;
      count := count + 1;
    }
  }

  lemma Times(i: nat, r: nat)
    ensures (i + 1) * r == i * r + r
  {
  }

  lemma RecordReads(net: Network, h: AnyHeader)
    requires Storable(net, h)
    ensures FromRecord(ToRecord(net, h)) == Some(h)
  {
    hide AnyHeader.Serialize, AnyHeader.SelfDescribing, JavaRead, View, Parse;
    var r := ToRecord(net, h);
    assert r[0..] == r;
    ParseFront(h, Zeros(RecordLength(net) - h.Size()));
    JavaReadsTheSameHeader(r, 0);
  }

  /** The header's own bytes, then zeros. */
  lemma RecordIsPadded(net: Network, h: AnyHeader)
    requires Storable(net, h)
    ensures h.Serialize() <= ToRecord(net, h)
    ensures forall i :: h.Size() <= i < RecordLength(net) ==> ToRecord(net, h)[i] == 0
  {
    hide AnyHeader.Serialize;
    assert ToRecord(net, h)[..h.Size()] == h.Serialize();
  }

  /** The record is as long as the longest header the network carries, and no longer. */
  lemma RecordLengthFits(net: Network, h: HeaderV1, v: HeaderV2)
    ensures RecordLength(net) == if net == Testnet4 || net == Regtest then |V2(v).Serialize()| else |V1(h).Serialize()|
    ensures SupportsV2(net) <==> RecordLength(net) == |V2(v).Serialize()|
    ensures |V1(h).Serialize()| <= RecordLength(net)
  {
  }

  /** What the store writes, it reads back. */
  lemma {:induction false} RecordsHold(net: Network, hs: seq<AnyHeader>)
    requires AllStorable(net, hs)
    ensures Holds(net, Records(net, hs), hs)
  {
    hide ToRecord, FromRecord, Storable;
    if hs == [] {
    } else {
      RecordReads(net, hs[0]);
      RecordsHold(net, hs[1..]);
      var b := Records(net, hs);
      assert b[..RecordLength(net)] == ToRecord(net, hs[0]);
      assert b[RecordLength(net)..] == Records(net, hs[1..]);
    }
  }

  lemma {:induction false} HoldsLength(net: Network, file: bytes, hs: seq<AnyHeader>)
    requires Holds(net, file, hs)
    ensures |file| == |hs| * RecordLength(net)
  {
    hide FromRecord;
    if hs == [] {
    } else {
      HoldsLength(net, file[RecordLength(net)..], hs[1..]);
      Times(|hs| - 1, RecordLength(net));
    }
  }

  lemma {:induction false} HoldsAppend(net: Network, a: bytes, hs: seq<AnyHeader>, b: bytes, xs: seq<AnyHeader>)
    requires Holds(net, a, hs) && Holds(net, b, xs)
    ensures Holds(net, a + b, hs + xs)
  {
    hide FromRecord;
    var r := RecordLength(net);
    if hs == [] {
      assert a + b == b && hs + xs == xs;
    } else {
      assert (a + b)[..r] == a[..r] && (a + b)[r..] == a[r..] + b && (hs + xs)[1..] == hs[1..] + xs;
      HoldsAppend(net, a[r..], hs[1..], b, xs);
    }
  }

  lemma SliceAfter(file: bytes, r: nat, i: nat, j: nat)
    requires r <= |file| && i <= j <= |file| - r
    ensures file[r..][i..j] == file[i + r..j + r]
  {
  }

  /** The record at a height is found by multiplying. */
  lemma {:induction false} HoldsAt(net: Network, file: bytes, hs: seq<AnyHeader>, i: nat)
    requires Holds(net, file, hs) && i < |hs|
    ensures i * RecordLength(net) + RecordLength(net) <= |file|
    ensures FromRecord(file[i * RecordLength(net)..i * RecordLength(net) + RecordLength(net)]) == Some(hs[i])
  {
    hide FromRecord;
    var r := RecordLength(net);
    if i == 0 {
      assert file[0 * r..0 * r + r] == file[..r];
    } else {
      HoldsAt(net, file[r..], hs[1..], i - 1);
      Times(i - 1, r);
      SliceAfter(file, r, (i - 1) * r, (i - 1) * r + r);
    }
  }

  /** Records that verify are walked over; what follows them is walked from the state they lead to. */
  lemma {:induction false} WalkPast<S>(net: Network, rules: Rules<S>, s: S, file: bytes, hs: seq<AnyHeader>, mid: S,
      rest: bytes)
    requires Holds(net, file, hs) && Verifies(rules, s, hs, mid)
    ensures var (xs, end) := Walked(net, rules, mid, rest); Walked(net, rules, s, file + rest) == (hs + xs, end)
  {
    hide FromRecord;
    var r := RecordLength(net);
    var (xs, end) := Walked(net, rules, mid, rest);
    if hs == [] {
      assert file + rest == rest && hs + xs == xs;
    } else {
      assert (file + rest)[..r] == file[..r] && (file + rest)[r..] == file[r..] + rest;
      WalkPast(net, rules, rules.add(s, hs[0]).value, file[r..], hs[1..], mid, rest);
      assert [hs[0]] + (hs[1..] + xs) == hs + xs;
    }
  }

  /** There is no whole record here, or it is no header, or it does not verify. */
  predicate EndsWalk<S>(net: Network, rules: Rules<S>, s: S, rest: bytes) {
    || |rest| < RecordLength(net)
    || FromRecord(rest[..RecordLength(net)]).None?
    || rules.add(s, FromRecord(rest[..RecordLength(net)]).value).None?
  }

  /** Any file at all: what a load keeps is whole records that verify from the pin, and the next one would not have. */
  lemma {:induction false} WalkedIsLongest<S>(net: Network, rules: Rules<S>, s: S, file: bytes)
    ensures var (hs, end) := Walked(net, rules, s, file);
            var n := |hs| * RecordLength(net);
            n <= |file| && Holds(net, file[..n], hs) && Verifies(rules, s, hs, end)
                && EndsWalk(net, rules, end, file[n..])
    decreases |file|
  {
    hide FromRecord;
    var r := RecordLength(net);
    if EndsWalk(net, rules, s, file) {
      assert file[0 * r..] == file;
    } else {
      var h := FromRecord(file[..r]).value;
      var s' := rules.add(s, h).value;
      WalkedIsLongest(net, rules, s', file[r..]);
      var (xs, end) := Walked(net, rules, s', file[r..]);
      var n := |xs| * r;
      Times(|xs|, r);
      assert ([h] + xs)[1..] == xs;
      assert file[..n + r][..r] == file[..r] && file[..n + r][r..] == file[r..][..n];
      assert file[r..][n..] == file[n + r..];
    }
  }

  /** Undamaged records are all kept; a torn or refused record after them costs itself and what is above it only. */
  lemma DamageKeepsWhatIsBelow<S>(net: Network, rules: Rules<S>, file: bytes, hs: seq<AnyHeader>, end: S, rest: bytes)
    requires Holds(net, file, hs) && Verifies(rules, rules.pin, hs, end)
    requires EndsWalk(net, rules, end, rest)
    ensures Walked(net, rules, rules.pin, file + rest) == (hs, end)
  {
    WalkPast(net, rules, rules.pin, file, hs, end, rest);
    assert hs + [] == hs;
  }

  lemma CutBeyond(a: bytes, b: bytes, k: nat)
    requires |a| <= k <= |a| + |b|
    ensures (a + b)[..k] == a + b[..k - |a|]
  {
  }

  lemma RecordsCons(net: Network, hs: seq<AnyHeader>)
    requires AllStorable(net, hs) && hs != []
    ensures AllStorable(net, hs[1..]) && Records(net, hs) == ToRecord(net, hs[0]) + Records(net, hs[1..])
  {
    hide Storable;
  }

  lemma Regroup(a: bytes, x: bytes, y: bytes)
    ensures a + (x + y) == (a + x) + y
  {
  }

  /** A prefix of the records is some of them whole, then part of one. */
  lemma {:induction false} RecordsCut(net: Network, hs: seq<AnyHeader>, k: nat) returns (n: nat, torn: bytes)
    requires AllStorable(net, hs) && k <= |Records(net, hs)|
    ensures n <= |hs| && |torn| < RecordLength(net) && Records(net, hs)[..k] == Records(net, hs[..n]) + torn
  {
    hide ToRecord, Storable, Records;
    var r := RecordLength(net);
    if k < r {
      n, torn := 0, Records(net, hs)[..k];
      NoRecords(net);
    } else {
      if hs == [] {
        NoRecords(net);
      }
      RecordsCons(net, hs);
      var m;
      m, torn := RecordsCut(net, hs[1..], k - r);
      n := m + 1;
      CutBeyond(ToRecord(net, hs[0]), Records(net, hs[1..]), k);
      RecordsCons(net, hs[..n]);
      assert hs[..n][1..] == hs[1..][..m];
      Regroup(ToRecord(net, hs[0]), Records(net, hs[1..][..m]), torn);
    }
  }

  lemma NoRecords(net: Network)
    ensures Records(net, []) == []
  {
  }

  /** A process killed at any byte of an append: the store comes back holding the old headers and some of the new. */
  lemma KilledWhileAppending<S>(net: Network, rules: Rules<S>, file: bytes, hs: seq<AnyHeader>, end: S,
      xs: seq<AnyHeader>, k: nat)
    returns (n: nat)
    requires Holds(net, file, hs) && Verifies(rules, rules.pin, hs, end)
    requires AllStorable(net, xs) && Accepted(rules, end, xs).0 == |xs| && k <= |Records(net, xs)|
    ensures n <= |xs| && Walked(net, rules, rules.pin, file + Records(net, xs)[..k]).0 == hs + xs[..n]
  {
    hide Storable, Holds, Records, Walked, Accepted;
    var torn;
    n, torn := RecordsCut(net, xs, k);
    RecordsHold(net, xs[..n]);
    HoldsAppend(net, file, hs, Records(net, xs[..n]), xs[..n]);
    AcceptedPrefix(rules, end, xs, n);
    AcceptedAppend(rules, rules.pin, hs, end, xs[..n]);
    assert file + Records(net, xs)[..k] == (file + Records(net, xs[..n])) + torn;
    DamageKeepsWhatIsBelow(net, rules, file + Records(net, xs[..n]), hs + xs[..n],
                           Accepted(rules, end, xs[..n]).1, torn);
  }

  /** The first header that does not fit a record of this network. */
  function FirstTooLong(net: Network, hs: seq<AnyHeader>): (m: nat)
    ensures m <= |hs|
    ensures forall i :: 0 <= i < m ==> hs[i].Size() <= RecordLength(net)
    ensures m < |hs| ==> hs[m].Size() > RecordLength(net)
  {
    if hs == [] || hs[0].Size() > RecordLength(net) then 0 else FirstTooLong(net, hs[1..]) + 1
  }

  lemma TooLongHere(net: Network, hs: seq<AnyHeader>, i: nat)
    requires i < |hs| && i <= FirstTooLong(net, hs) && hs[i].Size() > RecordLength(net)
    ensures FirstTooLong(net, hs) == i
  {
  }

  lemma FitsHere(net: Network, hs: seq<AnyHeader>, i: nat)
    requires i < |hs| && hs[i].SelfDescribing() && i <= FirstTooLong(net, hs) && hs[i].Size() <= RecordLength(net)
    ensures Storable(net, hs[i]) && i < FirstTooLong(net, hs)
  {
  }

  lemma NothingYet<S>(net: Network, rules: Rules<S>, s: S, hs: seq<AnyHeader>)
    ensures hs[..0] == [] && AllStorable(net, hs[..0]) && Records(net, hs[..0]) == []
          && Accepted(rules, s, hs[..0]) == (0, s)
  {
  }

  lemma AcceptedHead<S>(rules: Rules<S>, s: S, hs: seq<AnyHeader>)
    requires hs != []
    ensures rules.add(s, hs[0]).None? ==> Accepted(rules, s, hs) == (0, s)
    ensures rules.add(s, hs[0]).Some? ==>
              Accepted(rules, s, hs).0 > 0 && (|hs| == 1 ==> Accepted(rules, s, hs) == (1, rules.add(s, hs[0]).value))
  {
  }

  /** What one more header does to the accepted prefix of a batch. */
  lemma AcceptedNext<S>(rules: Rules<S>, s: S, batch: seq<AnyHeader>, i: nat, end: S)
    requires i < |batch| && Accepted(rules, s, batch[..i]) == (i, end) && i <= Accepted(rules, s, batch).0
    ensures rules.add(end, batch[i]).None? ==> Accepted(rules, s, batch).0 == i
    ensures rules.add(end, batch[i]).Some? ==>
              i < Accepted(rules, s, batch).0
                  && Accepted(rules, s, batch[..i + 1]) == (i + 1, rules.add(end, batch[i]).value)
  {
    hide Accepted;
    assert batch == batch[..i] + batch[i..] && batch[..i + 1] == batch[..i] + [batch[i]];
    AcceptedHead(rules, end, batch[i..]);
    AcceptedHead(rules, end, [batch[i]]);
    AcceptedAppend(rules, s, batch[..i], end, batch[i..]);
    AcceptedAppend(rules, s, batch[..i], end, [batch[i]]);
  }

  // ----- the store

  datatype Ending = Done | Rejected | TooLong

  class HeaderStore<S(==)> {
    const net: Network
    const rules: Rules<S>
    const startHeight: int
    var file: bytes
    var state: S // of the verified chain
    var height: int // of the verified chain
    ghost var headers: seq<AnyHeader> // those held, from startHeight up

    ghost predicate Valid()
      reads this
    {
      && Holds(net, file, headers)
      && Verifies(rules, rules.pin, headers, state)
      && height == startHeight - 1 + |headers|
    }

    function GetOffset(h: int): int {
      (h - startHeight) * RecordLength(net)
    }

    /** Opening the store: cut a partial record, walk the rest from the pin, and cut the file to what verified. */
    constructor (net: Network, rules: Rules<S>, startHeight: int, stored: bytes)
      ensures this.net == net && this.rules == rules && this.startHeight == startHeight
      ensures Valid() && (headers, state) == Walked(net, rules, rules.pin, stored)
      ensures |headers| * RecordLength(net) <= |stored| && file == stored[..|headers| * RecordLength(net)]
    {
      hide Walked, Holds, Accepted;
      var r := RecordLength(net);
      var records := |stored| / r;
      var whole := stored[..records * r];
      assert stored == whole + stored[records * r..];
      CutKeepsWalk(net, rules, rules.pin, whole, stored[records * r..], records);
      var count, s := WalkTo(net, rules, whole);
      WalkedIsLongest(net, rules, rules.pin, whole);
      this.net := net;
      this.rules := rules;
      this.startHeight := startHeight;
      file := whole[..count * r];
      state := s;
      height := startHeight - 1 + count;
      headers := Walked(net, rules, rules.pin, whole).0;
      assert whole[..count * r] == stored[..count * r];
    }

    /**
     Headers are added while they verify; those that did are written where they belong,
     whatever came after them. A header that verifies but does not fit a record throws out
     of the loop, with the chain already advanced over it and nothing written.
     */
    method Append(batch: seq<AnyHeader>) returns (ending: Ending)
      requires Valid() && forall h :: h in batch ==> h.SelfDescribing()
      modifies this
      ensures var n, m := Accepted(rules, old(state), batch).0, FirstTooLong(net, batch);
              if m < n then
                && ending == TooLong && file == old(file) && headers == old(headers)
                && state == Accepted(rules, old(state), batch[..m + 1]).1 && height == old(height) + m + 1
              else
                && ending == (if n < |batch| then Rejected else Done)
                && headers == old(headers) + batch[..n]
      ensures Valid() <==> ending != TooLong
    {
      hide Holds, ToRecord, Storable, Records, Accepted, FirstTooLong, AllStorable;
      var offset := GetOffset(height + 1);
      HoldsLength(net, file, headers);
      ghost var n, m := Accepted(rules, state, batch).0, FirstTooLong(net, batch);
      ghost var before := state;
      var written: bytes := [];
      var i := 0;
      var rejected := false;
      NothingYet(net, rules, state, batch);
      while i < |batch| && !rejected
        invariant unchanged(this`file, this`headers)
        invariant 0 <= i <= n && i <= m && height == old(height) + i
        invariant AllStorable(net, batch[..i]) && written == Records(net, batch[..i])
        invariant Accepted(rules, before, batch[..i]) == (i, state)
        invariant rejected ==> i == n < |batch|
        decreases |batch| - i, !rejected
      {
        AcceptedNext(rules, before, batch, i, state);
        var next := rules.add(state, batch[i]);
        if next.None? {
          rejected := true;
        } else {
          state := next.value;
          height := height + 1;
          if batch[i].Size() > RecordLength(net) {
            TooLongHere(net, batch, i);
            return TooLong;
          }
          FitsHere(net, batch, i);
          RecordsSnoc(net, batch[..i], batch[i]);
          written := written + ToRecord(net, batch[i]);
          assert batch[..i] + [batch[i]] == batch[..i + 1];
          i := i + 1;
        }
      }
      assert batch[..|batch|] == batch;
      RecordsHold(net, batch[..i]);
      HoldsAppend(net, file, headers, written, batch[..i]);
      AcceptedAppend(rules, rules.pin, headers, before, batch[..i]);
      assert file[..offset] == file;
      file := file[..offset] + written;
      headers := headers + batch[..i];
      ending := if rejected then Rejected else Done;
    }

    method GetHeader(h: int) returns (r: Option<AnyHeader>)
      requires Valid()
      ensures r == if startHeight <= h <= height then Some(headers[h - startHeight]) else None
    {
      hide Holds, FromRecord;
      var offset := GetOffset(h);
      HoldsLength(net, file, headers);
      if offset < 0 || |file| < offset + RecordLength(net) {
        BeyondFile(h - startHeight, |headers|, RecordLength(net));
        return None;
      }
      BeyondFile(h - startHeight, |headers|, RecordLength(net));
      HoldsAt(net, file, headers, h - startHeight);
      r := FromRecord(file[offset..offset + RecordLength(net)]);
    }
  }

  /** Loading the file of a store again gives the headers and the state it has, so the same header at every height. */
  lemma ReloadIsSame<S>(store: HeaderStore<S>)
    requires store.Valid()
    ensures Walked(store.net, store.rules, store.rules.pin, store.file) == (store.headers, store.state)
    ensures |store.headers| * RecordLength(store.net) == |store.file|
  {
    hide Holds, Walked, Accepted;
    HoldsLength(store.net, store.file, store.headers);
    assert store.file + [] == store.file;
    DamageKeepsWhatIsBelow(store.net, store.rules, store.file, store.headers, store.state, []);
  }

  /** `HeaderStore.load` on what any run of appends and loads has left. */
  method Reload<S(==)>(store: HeaderStore<S>) returns (again: HeaderStore<S>)
    requires store.Valid()
    ensures fresh(again) && again.Valid()
    ensures again.net == store.net && again.rules == store.rules && again.startHeight == store.startHeight
    ensures again.file == store.file && again.headers == store.headers
    ensures again.state == store.state && again.height == store.height
  {
    ReloadIsSame(store);
    again := new HeaderStore(store.net, store.rules, store.startHeight, store.file);
    assert store.file[..|store.file|] == store.file;
  }

  /** What the wallet has parsed from a response fits its records, so appending it never throws. */
  lemma ParsedHeadersFit(net: Network, chunk: BlockHeaders, count: nat)
    requires ParsedChunk(net, chunk, count).Ok?
    ensures AllStorable(net, ParsedChunk(net, chunk, count).value)
    ensures FirstTooLong(net, ParsedChunk(net, chunk, count).value) == |ParsedChunk(net, chunk, count).value|
  {
    hide SplitFrom, HexToBytes, Run, AnyHeader.SelfDescribing;
    if chunk.headers.None? {
      SplitMeansRun(net, HexToBytes(chunk.hex.value).value, 0, count);
    } else {
      ListedHeadersFit(net, chunk.headers.value, count);
    }
  }

  lemma {:induction false} ListedHeadersFit(net: Network, list: seq<Option<string>>, count: nat)
    requires count <= |list| && ParseList(net, list, count).Ok?
    ensures AllStorable(net, ParseList(net, list, count).value)
  {
    hide SplitFrom, HexToBytes, Run, AnyHeader.SelfDescribing;
    if count == 0 {
    } else {
      ListedHeadersFit(net, list, count - 1);
      SplitMeansRun(net, HexToBytes(list[count - 1].value).value, 0, 1);
    }
  }

  lemma BeyondFile(i: int, n: nat, r: nat)
    requires r == 80 || r == 164
    ensures i * r < 0 || n * r < i * r + r <==> i < 0 || i >= n
  {
  }

  lemma {:induction false} CutKeepsWalk<S>(net: Network, rules: Rules<S>, s: S, whole: bytes, torn: bytes, n: nat)
    requires |torn| < RecordLength(net) && |whole| == n * RecordLength(net)
    ensures Walked(net, rules, s, whole + torn) == Walked(net, rules, s, whole)
    decreases n
  {
    hide FromRecord;
    var r := RecordLength(net);
    if n == 0 {
    } else {
      Times(n - 1, r);
      assert (whole + torn)[..r] == whole[..r] && (whole + torn)[r..] == whole[r..] + torn;
      match FromRecord(whole[..r])
      case None =>
      case Some(h) =>
        if rules.add(s, h).Some? {
          CutKeepsWalk(net, rules, rules.add(s, h).value, whole[r..], torn, n - 1);
        }
    }
  }

  lemma {:induction false} RecordsSnoc(net: Network, hs: seq<AnyHeader>, h: AnyHeader)
    requires AllStorable(net, hs) && Storable(net, h)
    ensures AllStorable(net, hs + [h]) && Records(net, hs + [h]) == Records(net, hs) + ToRecord(net, h)
  {
    hide ToRecord, Storable;
    if hs == [] {
      assert hs + [h] == [h];
    } else {
      assert (hs + [h])[1..] == hs[1..] + [h];
      RecordsSnoc(net, hs[1..], h);
    }
  }
}
