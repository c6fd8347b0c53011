/**
 Walking the transactions of a block whose header is 80 or 164 bytes: the count and the
 transactions start where the header says it ends, not at a fixed offset.
 */
module TxWalk {
  import opened Bytes
  import opened Headers
  import opened Wire

  /** Reads one transaction at the front of the bytes: how many bytes it took. */
  type Parser = bytes -> Option<nat>

  /** A visitor answers, from everything it has seen, whether to break. */
  type Stop = seq<bytes> -> bool

  datatype WalkError = TooShort | BadCount | BadTransaction(index: nat) | VisitBreak

  /** Every transaction takes at least a byte, and reading it looks at no byte after its own. */
  ghost predicate ReadsFront(tx: Parser) {
    && (forall b: bytes :: tx(b).Some? ==> 0 < tx(b).value <= |b|)
    && (forall b: bytes, c: bytes ::
          tx(b).Some? && tx(b).value <= |c| && c[..tx(b).value] == b[..tx(b).value] ==> tx(c) == tx(b))
  }

  lemma Takes(tx: Parser, b: bytes)
    requires ReadsFront(tx) && tx(b).Some?
    ensures 0 < tx(b).value <= |b| && tx(b[..tx(b).value]) == tx(b)
  {
    var n := tx(b).value;
    assert b[..n][..n] == b[..n];
  }

  class Visitor {
    const stop: Stop
    var announced: Option<nat>
    var seen: seq<bytes>

    constructor (stop: Stop)
      ensures this.stop == stop && announced == None && seen == []
    {
      this.stop, announced, seen := stop, None, [];
    }

    method BlockBegin(total: nat)
      modifies this`announced
      ensures announced == Some(total)
    {
      announced := Some(total);
    }

    method Transaction(t: bytes) returns (broke: bool)
      modifies this`seen
      ensures seen == old(seen) + [t] && broke == stop(seen)
    {
      seen := seen + [t];
      broke := stop(seen);
    }
  }

  /** All that a walk does to its visitor, and how it ends. */
  datatype Outcome = Outcome(announced: Option<nat>, seen: seq<bytes>, error: Option<WalkError>)

  /** The transactions handed over by `count` turns, the first of them numbered `i`. */
  function Turns(tx: Parser, stop: Stop, b: bytes, i: nat, count: nat, seen: seq<bytes>)
      : (seq<bytes>, Option<WalkError>)
    requires ReadsFront(tx)
    decreases count
  {
    if count == 0 then (seen, None)
    else match tx(b)
         case None => (seen, Some(BadTransaction(i)))
         case Some(n) =>
           var more := seen + [b[..n]];
           if stop(more) then (more, Some(VisitBreak)) else Turns(tx, stop, b[n..], i + 1, count - 1, more)
  }

  function WalkFrom(tx: Parser, stop: Stop, body: bytes): Outcome
    requires ReadsFront(tx)
  {
    match ReadMinimalVarInt(body)
    case None => Outcome(None, [], Some(BadCount))
    case Some((count, next)) =>
      var (seen, error) := Turns(tx, stop, body[next..], 0, count, []);
      Outcome(Some(count), seen, error)
  }

  function Walk(tx: Parser, stop: Stop, block: bytes, header: AnyHeader): Outcome
    requires ReadsFront(tx)
  {
    if |block| <= header.Size() then Outcome(None, [], Some(TooShort)) else WalkFrom(tx, stop, block[header.Size()..])
  }

  /** The walk that takes every header for 80 bytes. */
  function FixedWalk(tx: Parser, stop: Stop, block: bytes): Outcome
    requires ReadsFront(tx)
  {
    if |block| < HEADER_V1_SIZE then Outcome(None, [], Some(TooShort)) else WalkFrom(tx, stop, block[HEADER_V1_SIZE..])
  }

  method VisitBlockTxs(tx: Parser, block: bytes, header: AnyHeader, visitor: Visitor) returns (error: Option<WalkError>)
    requires ReadsFront(tx) && visitor.announced == None && visitor.seen == []
    modifies visitor
    ensures Outcome(visitor.announced, visitor.seen, error) == Walk(tx, visitor.stop, block, header)
  {
    hide ReadsFront, VarInt, ReadVarInt;
    var consumed := header.Size();
    if |block| <= consumed {
      return Some(TooShort);
    }
    ghost var body := block[consumed..];
    var total := ReadMinimalVarInt(block[consumed..]);
    if total.None? {
      return Some(BadCount);
    }
    consumed := consumed + total.value.1;
    assert block[consumed..] == body[total.value.1..];
    visitor.BlockBegin(total.value.0);
    ghost var want := Turns(tx, visitor.stop, body[total.value.1..], 0, total.value.0, []);
    for i := 0 to total.value.0
      invariant consumed <= |block|
      invariant visitor.announced == Some(total.value.0)
      invariant Turns(tx, visitor.stop, block[consumed..], i, total.value.0 - i, visitor.seen) == want
    {
      var rest := block[consumed..];
      var n := tx(rest);
      if n.None? {
        return Some(BadTransaction(i));
      }
      Takes(tx, rest);
      var broke := visitor.Transaction(rest[..n.value]);
      if broke {
        return Some(VisitBreak);
      }
      consumed := consumed + n.value;
      assert block[consumed..] == rest[n.value..];
    }
    error := None;
  }

  // ----- what is visited

  predicate Whole(tx: Parser, txs: seq<bytes>) {
    forall t <- txs :: tx(t) == Some(|t|)
  }

  /** After the header: a count in its shortest form, that many transactions, and anything after them. */
  predicate Carries(tx: Parser, body: bytes, txs: seq<bytes>) {
    |txs| < 0x1_0000_0000_0000_0000 && Whole(tx, txs) && VarInt(|txs|) + Flatten(txs) <= body
  }

  /** How many of `txs` a visitor that has `seen` takes before it has had enough. */
  function Taken(stop: Stop, seen: seq<bytes>, txs: seq<bytes>): (k: nat)
    ensures k <= |txs|
    decreases |txs|
  {
    if txs == [] then 0
    else if stop(seen + [txs[0]]) then 1
    else Taken(stop, seen + [txs[0]], txs[1..]) + 1
  }

  /** The visitor breaks at the first point where it would, and takes everything if there is none. */
  lemma {:induction false} TakenIsFirstStop(stop: Stop, seen: seq<bytes>, txs: seq<bytes>)
    ensures var k := Taken(stop, seen, txs);
            && (forall j :: 0 < j < k ==> !stop(seen + txs[..j]))
            && (k < |txs| ==> k > 0 && stop(seen + txs[..k]))
    decreases |txs|
  {
    if txs == [] {
    } else {
      assert seen + txs[..1] == seen + [txs[0]];
      if !stop(seen + [txs[0]]) {
        var more, rest := seen + [txs[0]], txs[1..];
        TakenIsFirstStop(stop, more, rest);
        var k := Taken(stop, more, rest);
        forall j | 0 < j < k + 1
          ensures !stop(seen + txs[..j])
        {
          assert more + rest[..j - 1] == seen + txs[..j];
        }
        assert more + rest[..k] == seen + txs[..k + 1];
      }
    }
  }

  lemma OneTurn(tx: Parser, stop: Stop, t: bytes, more: bytes, i: nat, count: nat, seen: seq<bytes>)
    requires ReadsFront(tx) && tx(t) == Some(|t|) && count > 0
    ensures Turns(tx, stop, t + more, i, count, seen)
         == if stop(seen + [t]) then (seen + [t], Some(VisitBreak))
            else Turns(tx, stop, more, i + 1, count - 1, seen + [t])
  {
    assert t[..|t|] == t;
    assert (t + more)[..|t|] == t;
    assert (t + more)[|t|..] == more;
  }

  lemma NoTurns(tx: Parser, stop: Stop, b: bytes, i: nat, seen: seq<bytes>)
    requires ReadsFront(tx)
    ensures Turns(tx, stop, b, i, 0, seen) == (seen, None)
  {
  }

  lemma FlattenNone(rest: bytes)
    ensures Flatten([]) + rest == rest
  {
  }

  lemma FlattenCons(txs: seq<bytes>, rest: bytes)
    requires txs != []
    ensures Flatten(txs) + rest == txs[0] + (Flatten(txs[1..]) + rest)
  {
  }

  lemma {:induction false} TurnsTake(tx: Parser, stop: Stop, txs: seq<bytes>, rest: bytes, i: nat, seen: seq<bytes>)
    requires ReadsFront(tx) && Whole(tx, txs)
    ensures var k := Taken(stop, seen, txs);
            Turns(tx, stop, Flatten(txs) + rest, i, |txs|, seen)
            == (seen + txs[..k], if k > 0 && stop(seen + txs[..k]) then Some(VisitBreak) else None)
    decreases |txs|
  {
    hide ReadsFront, Flatten, Turns;
    if txs == [] {
      NoTurns(tx, stop, Flatten(txs) + rest, i, seen);
      assert seen + txs[..0] == seen;
    } else {
      var t := txs[0];
      FlattenCons(txs, rest);
      OneTurn(tx, stop, t, Flatten(txs[1..]) + rest, i, |txs|, seen);
      assert seen + txs[..1] == seen + [t];
      if !stop(seen + [t]) {
        TurnsTake(tx, stop, txs[1..], rest, i + 1, seen + [t]);
        var k := Taken(stop, seen + [t], txs[1..]);
        assert seen + [t] + txs[1..][..k] == seen + txs[..k + 1];
      }
    }
  }

  lemma BodyTakes(tx: Parser, stop: Stop, txs: seq<bytes>, rest: bytes)
    requires ReadsFront(tx) && Whole(tx, txs) && |txs| < 0x1_0000_0000_0000_0000
    ensures WalkFrom(tx, stop, VarInt(|txs|) + (Flatten(txs) + rest)) == Expected(stop, txs)
  {
    hide ReadsFront, VarInt, ReadVarInt, Turns, Flatten, Taken;
    VarIntReads(|txs|, Flatten(txs) + rest);
    Drop(VarInt(|txs|), Flatten(txs) + rest);
    TurnsTake(tx, stop, txs, rest, 0, []);
    assert [] + txs[..Taken(stop, [], txs)] == txs[..Taken(stop, [], txs)];
  }

  /** The count, then the transactions in order up to the one the visitor breaks at. */
  function Expected(stop: Stop, txs: seq<bytes>): Outcome {
    var seen := txs[..Taken(stop, [], txs)];
    Outcome(Some(|txs|), seen, if seen != [] && stop(seen) then Some(VisitBreak) else None)
  }

  /** On a block of either version, read back from its own bytes, the visitor gets what it should. */
  lemma VisitsInOrder(tx: Parser, stop: Stop, h: AnyHeader, txs: seq<bytes>, rest: bytes)
    requires ReadsFront(tx) && Whole(tx, txs) && |txs| < 0x1_0000_0000_0000_0000 && h.SelfDescribing()
    ensures var block := h.Serialize() + (VarInt(|txs|) + (Flatten(txs) + rest));
            Parse(block) == Ok(h) && Walk(tx, stop, block, h) == Expected(stop, txs)
  {
    hide ReadsFront, AnyHeader.Serialize, VarInt, WalkFrom, AnyHeader.SelfDescribing, Parse, Expected, HeaderSize;
    var body := VarInt(|txs|) + (Flatten(txs) + rest);
    ParseFront(h, body);
    Drop(h.Serialize(), body);
    BodyTakes(tx, stop, txs, rest);
  }

  predicate Patient(stop: Stop, txs: seq<bytes>) {
    forall j :: 0 < j <= |txs| ==> !stop(txs[..j])
  }

  lemma {:induction false} TurnsRead(tx: Parser, stop: Stop, b: bytes, i: nat, count: nat, seen: seq<bytes>)
    returns (txs: seq<bytes>, rest: bytes)
    requires ReadsFront(tx) && Turns(tx, stop, b, i, count, seen).1.None?
    ensures Turns(tx, stop, b, i, count, seen).0 == seen + txs && |txs| == count
    ensures Whole(tx, txs) && b == Flatten(txs) + rest
    decreases count
  {
    hide ReadsFront, Flatten;
    if count == 0 {
      txs, rest := [], b;
      FlattenNone(b);
      assert seen + txs == seen;
    } else {
      Takes(tx, b);
      var n := tx(b).value;
      var t := b[..n];
      var more: seq<bytes>;
      more, rest := TurnsRead(tx, stop, b[n..], i + 1, count - 1, seen + [t]);
      txs := [t] + more;
      assert seen + [t] + more == seen + txs;
      assert txs[1..] == more;
      FlattenCons(txs, rest);
      assert b == t + b[n..];
    }
  }

  /**
   A walk succeeds with these transactions exactly when they are what follows the header,
   whole, and the visitor never breaks.
   */
  lemma WalksExactly(tx: Parser, stop: Stop, block: bytes, h: AnyHeader, txs: seq<bytes>)
    requires ReadsFront(tx)
    ensures Walk(tx, stop, block, h).error.None? && Walk(tx, stop, block, h).seen == txs
       <==> |block| > h.Size() && Carries(tx, block[h.Size()..], txs) && Patient(stop, txs)
  {
    hide ReadsFront, VarInt, ReadVarInt, Turns, Flatten, AnyHeader.Size, Whole;
    if |block| > h.Size() {
      var body := block[h.Size()..];
      if Carries(tx, body, txs) && Patient(stop, txs) {
        CarriedIsWalked(tx, stop, body, txs);
      }
      if WalkFrom(tx, stop, body).error.None? && WalkFrom(tx, stop, body).seen == txs {
        WalkedIsCarried(tx, stop, body, txs);
      }
    }
  }

  lemma CarriedIsWalked(tx: Parser, stop: Stop, body: bytes, txs: seq<bytes>)
    requires ReadsFront(tx) && Carries(tx, body, txs) && Patient(stop, txs)
    ensures WalkFrom(tx, stop, body) == Outcome(Some(|txs|), txs, None)
  {
    hide ReadsFront, WalkFrom, Carries;
    WalkOfCarried(tx, stop, body, txs);
    PatientTakesAll(stop, txs);
  }

  lemma PatientTakesAll(stop: Stop, txs: seq<bytes>)
    ensures Patient(stop, txs) <==> Expected(stop, txs) == Outcome(Some(|txs|), txs, None)
  {
    hide Taken;
    TakenIsFirstStop(stop, [], txs);
    var k := Taken(stop, [], txs);
    forall j | 0 <= j <= |txs|
      ensures [] + txs[..j] == txs[..j]
    {
    }
    assert txs[..|txs|] == txs;
    if k < |txs| {
      assert stop([] + txs[..k]);
    }
    if Expected(stop, txs) == Outcome(Some(|txs|), txs, None) {
      assert |txs[..k]| == k;
    }
  }

  lemma WalkedIsCarried(tx: Parser, stop: Stop, body: bytes, txs: seq<bytes>)
    requires ReadsFront(tx)
    requires WalkFrom(tx, stop, body).error.None? && WalkFrom(tx, stop, body).seen == txs
    ensures Carries(tx, body, txs) && Patient(stop, txs)
  {
    hide ReadsFront, VarInt, ReadMinimalVarInt, Turns, Flatten, Whole, Expected, Patient;
    var (count, next) := ReadMinimalVarInt(body).value;
    MinimalVarIntIs(body);
    var got, rest := TurnsRead(tx, stop, body[next..], 0, count, []);
    assert [] + got == got;
    assert VarInt(count) + Flatten(txs) + rest == VarInt(count) + (Flatten(txs) + rest) == body;
    BodyTakes(tx, stop, txs, rest);
    assert WalkFrom(tx, stop, body) == Outcome(Some(count), txs, None);
    PatientTakesAll(stop, txs);
  }

  predicate Never(seen: seq<bytes>) {
    false
  }

  /** On any bytes at all, a visitor that breaks at the i-th transaction has seen exactly the first i of those there. */
  lemma {:induction false} BreakSeesPrefix(tx: Parser, stop: Stop, b: bytes, i: nat, count: nat, seen: seq<bytes>)
    requires ReadsFront(tx)
    ensures var (got, error) := Turns(tx, stop, b, i, count, seen);
            var (all, end) := Turns(tx, Never, b, i, count, seen);
            && seen <= got <= all
            && (forall j :: |seen| < j < |got| ==> !stop(got[..j]))
            && (error == Some(VisitBreak) ==> |got| > |seen| && stop(got))
            && (error != Some(VisitBreak) ==> got == all && error == end)
    decreases count
  {
    hide ReadsFront;
    if count > 0 && tx(b).Some? {
      Takes(tx, b);
      var n := tx(b).value;
      var more := seen + [b[..n]];
      BreakSeesPrefix(tx, stop, b[n..], i + 1, count - 1, more);
      var (got, error) := Turns(tx, stop, b, i, count, seen);
      if !stop(more) {
        assert got[..|more|] == more;
      }
    }
  }

  // ----- the fixed-offset walk

  /** On a version 1 header the two walks treat the visitor alike and fail alike, whatever the block holds. */
  lemma SameAsFixedOnV1(tx: Parser, stop: Stop, block: bytes)
    requires ReadsFront(tx) && Parse(block).Ok? && Parse(block).value.V1?
    ensures var ours := Walk(tx, stop, block, Parse(block).value);
            var fixed := FixedWalk(tx, stop, block);
            && ours.announced == fixed.announced && ours.seen == fixed.seen
            && (ours.error == fixed.error || (|block| == HEADER_V1_SIZE && ours.error.Some? && fixed.error.Some?))
  {
    hide ReadsFront, Turns, VarInt, HeaderSize, Parse;
    if |block| == HEADER_V1_SIZE {
      assert block[HEADER_V1_SIZE..] == [];
    }
  }

  /**
   The library's walk, on its own terms: 80 bytes of header, a count, and a transaction at a
   time off what remains. On a version 1 block it does to its visitor what the server's does.
   */
  method VisitFixed(tx: Parser, block: bytes, visitor: Visitor) returns (error: Option<WalkError>)
    requires ReadsFront(tx) && visitor.announced == None && visitor.seen == []
    modifies visitor
    ensures Outcome(visitor.announced, visitor.seen, error) == FixedWalk(tx, visitor.stop, block)
    ensures Parse(block).Ok? && Parse(block).value.V1? ==>
              var ours := Walk(tx, visitor.stop, block, Parse(block).value);
              && visitor.announced == ours.announced && visitor.seen == ours.seen
              && (error == ours.error || (|block| == HEADER_V1_SIZE && error.Some? && ours.error.Some?))
  {
    hide ReadsFront, VarInt, ReadVarInt, Parse;
    if Parse(block).Ok? && Parse(block).value.V1? {
      SameAsFixedOnV1(tx, visitor.stop, block);
    }
    if |block| < HEADER_V1_SIZE {
      return Some(TooShort);
    }
    var remaining := block[HEADER_V1_SIZE..];
    var total := ReadMinimalVarInt(remaining);
    if total.None? {
      return Some(BadCount);
    }
    remaining := remaining[total.value.1..];
    visitor.BlockBegin(total.value.0);
    ghost var want := Turns(tx, visitor.stop, remaining, 0, total.value.0, []);
    var left := total.value.0;
    while left > 0
      invariant 0 <= left <= total.value.0
      invariant visitor.announced == Some(total.value.0)
      invariant Turns(tx, visitor.stop, remaining, total.value.0 - left, left, visitor.seen) == want
    {
      var n := tx(remaining);
      if n.None? {
        return Some(BadTransaction(total.value.0 - left));
      }
      Takes(tx, remaining);
      var broke := visitor.Transaction(remaining[..n.value]);
      if broke {
        return Some(VisitBreak);
      }
      remaining := remaining[n.value..];
      left := left - 1;
    }
    error := None;
  }

  /**
   On a version 2 block the fixed walk takes the second nonce for the count: with a zero low
   byte it reports an empty block.
   */
  lemma FixedLosesV2(tx: Parser, stop: Stop, h: HeaderV2, txs: seq<bytes>, rest: bytes)
    requires ReadsFront(tx) && Whole(tx, txs) && |txs| < 0x1_0000_0000_0000_0000 && h.version < VERSION_HEADER_V2_FLAG
    ensures var block := V2(h).Serialize() + (VarInt(|txs|) + (Flatten(txs) + rest));
            && Walk(tx, stop, block, V2(h)) == Expected(stop, txs)
            && (h.nonce2 % 0x100 == 0 ==> FixedWalk(tx, stop, block) == Outcome(Some(0), [], None))
            && (0 < h.nonce2 % 0x100 < 0xFD ==> FixedWalk(tx, stop, block).announced == Some(h.nonce2 % 0x100))
  {
    hide ReadsFront, Whole, Walk, FixedWalk, Expected, VarInt, Flatten, AnyHeader.Serialize;
    VisitsInOrder(tx, stop, V2(h), txs, rest);
    FixedReadsNonce(tx, stop, h, VarInt(|txs|) + (Flatten(txs) + rest));
  }

  lemma FixedReadsNonce(tx: Parser, stop: Stop, h: HeaderV2, body: bytes)
    requires ReadsFront(tx)
    ensures var fixed := FixedWalk(tx, stop, V2(h).Serialize() + body);
            && (h.nonce2 % 0x100 == 0 ==> fixed == Outcome(Some(0), [], None))
            && (0 < h.nonce2 % 0x100 < 0xFD ==> fixed.announced == Some(h.nonce2 % 0x100))
  {
    hide ReadsFront, SerializeV1, WireV2, ReadMinimalVarInt;
    NonceAt80(h, body);
    var b := (WireV2(h) + body)[HEADER_V1_SIZE..];
    if b[0] < 0xFD {
      ShortCount(b);
    }
  }

  lemma NonceAt80(h: HeaderV2, body: bytes)
    ensures (WireV2(h) + body)[80] == h.nonce2 % 0x100
  {
    hide SerializeV1, Tail;
    TailSlices(h, Tail(h));
    assert Tail(h)[0..4][0] == h.nonce2 % 0x100;
    assert WireV2(h)[80] == Tail(h)[0];
  }

  lemma ShortCount(b: bytes)
    requires b != [] && b[0] < 0xFD
    ensures ReadMinimalVarInt(b) == Some((b[0], 1))
  {
  }

  // ----- looking one transaction up

  type Ids = bytes -> Digest

  function Looking(id: Ids, wanted: Digest): Stop {
    seen => seen != [] && id(seen[|seen| - 1]) == wanted
  }

  function FirstWith(id: Ids, wanted: Digest, txs: seq<bytes>): (found: Option<bytes>)
    ensures found.Some? ==>
              exists k :: 0 <= k < |txs| && txs[k] == found.value && id(txs[k]) == wanted
                          && forall j :: 0 <= j < k ==> id(txs[j]) != wanted
    ensures found.None? ==> forall t <- txs :: id(t) != wanted
  {
    if txs == [] then None
    else if id(txs[0]) == wanted then Some(txs[0])
    else
      var found := FirstWith(id, wanted, txs[1..]);
      assert forall k :: 0 <= k < |txs| - 1 ==> txs[1..][k] == txs[k + 1];
      found
  }

  /**
   The tracker's search of a block: a break is how the visitor says it has found the
   transaction, so an error is not a failure.
   */
  method Lookup(tx: Parser, id: Ids, wanted: Digest, block: bytes) returns (r: Result<Option<bytes>, ParseError>)
    requires ReadsFront(tx)
    ensures r.Err? <==> Parse(block).Err?
    ensures r.Ok? ==>
              var size := Parse(block).value.Size();
              forall txs: seq<bytes> ::
                |block| > size && Carries(tx, block[size..], txs) ==> r.value == FirstWith(id, wanted, txs)
    ensures r.Ok? && r.value.Some? ==> id(r.value.value) == wanted
  {
    hide ReadsFront, Parse, Carries;
    var header := Parse(block);
    if header.Err? {
      return Err(header.error);
    }
    var visitor := new Visitor(Looking(id, wanted));
    var error := VisitBlockTxs(tx, block, header.value, visitor);
    var found := if Looking(id, wanted)(visitor.seen) then Some(visitor.seen[|visitor.seen| - 1]) else None;
    forall txs: seq<bytes> | |block| > header.value.Size() && Carries(tx, block[header.value.Size()..], txs)
      ensures found == FirstWith(id, wanted, txs)
    {
      WalkOfCarried(tx, visitor.stop, block[header.value.Size()..], txs);
      LookingStopsAtFirst(id, wanted, [], txs);
      assert [] + txs[..Taken(visitor.stop, [], txs)] == txs[..Taken(visitor.stop, [], txs)];
    }
    r := Ok(found);
  }

  lemma WalkOfCarried(tx: Parser, stop: Stop, body: bytes, txs: seq<bytes>)
    requires ReadsFront(tx) && Carries(tx, body, txs)
    ensures WalkFrom(tx, stop, body) == Expected(stop, txs)
  {
    hide ReadsFront, VarInt, WalkFrom, Flatten, Whole, Expected;
    var front := VarInt(|txs|) + Flatten(txs);
    var rest := body[|front|..];
    assert body == front + rest == VarInt(|txs|) + (Flatten(txs) + rest);
    BodyTakes(tx, stop, txs, rest);
  }

  lemma LookingAt(id: Ids, wanted: Digest, seen: seq<bytes>, t: bytes)
    ensures Looking(id, wanted)(seen + [t]) <==> id(t) == wanted
  {
  }

  lemma {:induction false} LookingStopsAtFirst(id: Ids, wanted: Digest, seen: seq<bytes>, txs: seq<bytes>)
    requires !Looking(id, wanted)(seen)
    ensures var got := seen + txs[..Taken(Looking(id, wanted), seen, txs)];
            FirstWith(id, wanted, txs) == if Looking(id, wanted)(got) then Some(got[|got| - 1]) else None
    decreases |txs|
  {
    hide Looking;
    var stop := Looking(id, wanted);
    if txs == [] {
      assert seen + txs[..0] == seen;
      return;
    }
    LookingAt(id, wanted, seen, txs[0]);
    if stop(seen + [txs[0]]) {
      assert seen + txs[..1] == seen + [txs[0]];
    } else {
      var more, rest := seen + [txs[0]], txs[1..];
      LookingStopsAtFirst(id, wanted, more, rest);
      var k := Taken(stop, more, rest);
      assert more + rest[..k] == seen + txs[..k + 1];
    }
  }
}
