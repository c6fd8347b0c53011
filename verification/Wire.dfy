/**
 The p2p `headers` message: a count, then each header followed by a transaction
 count that is always zero. The Python reader slices it; the server decodes it.
 */
module Wire {
  import opened Bytes
  import opened Headers

  datatype WireError = RanOut | BadTxCount | Trailing | Header(e: ParseError)

  function VarInt(n: u64): (b: bytes)
    ensures |b| >= 1
  {
    if n < 0xFD then [n]
    else if n <= 0xFFFF then [0xFD] + LE16(n)
    else if n <= 0xFFFF_FFFF then [0xFE] + LE32(n)
    else [0xFF] + LE64(n)
  }

  /** The value at `o` and the offset after it; `None` where the bytes end first. */
  function ReadVarInt(b: bytes, o: nat): (r: Option<(u64, nat)>)
    ensures r.Some? ==> o < r.value.1 <= |b|
  {
    if o >= |b| then None
    else if b[o] < 0xFD then Some((b[o], o + 1))
    else if b[o] == 0xFD then (if o + 3 > |b| then None else Some((FromLE16(b[o + 1..o + 3]), o + 3)))
    else if b[o] == 0xFE then (if o + 5 > |b| then None else Some((FromLE32(b[o + 1..o + 5]), o + 5)))
    else (if o + 9 > |b| then None else Some((FromLE64(b[o + 1..o + 9]), o + 9)))
  }

  /** `header_length`: 80 or 164, from the version at the offset. */
  function HeaderLength(b: bytes, o: nat): (n: nat)
    requires o + 4 <= |b|
    ensures n == HEADER_V1_SIZE || n == HEADER_V2_SIZE
  {
    if HasV2Flag(FromLE32(b[o..o + 4])) then HEADER_V2_SIZE else HEADER_V1_SIZE
  }

  /** One entry of the message at `o`: the header's bytes and the offset after its transaction count. */
  function ReadEntry(payload: bytes, o: nat): (r: Result<(bytes, nat), WireError>)
    ensures r.Ok? ==> o < r.value.1 <= |payload|
  {
    if o + 4 > |payload| then Err(RanOut)
    else
      var length := HeaderLength(payload, o);
      if o + length > |payload| then Err(RanOut)
      else match ReadVarInt(payload, o + length)
           case None => Err(RanOut)
           case Some((txcount, next)) =>
             if txcount != 0 then Err(BadTxCount) else Ok((payload[o..o + length], next))
  }

  /** What `count` turns of the loop collect from `o`, and where they stop. */
  function ReadEntries(payload: bytes, o: nat, count: nat): Result<(seq<bytes>, nat), WireError>
    decreases count
  {
    if count == 0 then Ok(([], o))
    else match ReadEntry(payload, o)
         case Err(e) => Err(e)
         case Ok((h, next)) =>
           match ReadEntries(payload, next, count - 1)
           case Err(e) => Err(e)
           case Ok((rest, end)) => Ok(([h] + rest, end))
  }

  function Split(payload: bytes): Result<seq<bytes>, WireError> {
    match ReadVarInt(payload, 0)
    case None => Err(RanOut)
    case Some((count, o)) =>
      match ReadEntries(payload, o, count)
      case Err(e) => Err(e)
      case Ok((out, end)) => if end != |payload| then Err(Trailing) else Ok(out)
  }

  /** `split_headers`, moving an offset through the payload. */
  method SplitHeaders(payload: bytes) returns (r: Result<seq<bytes>, WireError>)
    ensures r == Split(payload)
  {
    var first := ReadVarInt(payload, 0);
    if first.None? {
      return Err(RanOut);
    }
    var (count, o) := first.value;
    ghost var start := o;
    var out: seq<bytes> := [];
    var i := 0;
    assert forall rest: seq<bytes> :: out + rest == rest;
    while i < count
      invariant 0 <= i <= count
      invariant ReadEntries(payload, start, count) == match ReadEntries(payload, o, count - i)
                                                      case Err(e) => Err(e)
                                                      case Ok((rest, end)) => Ok((out + rest, end))
    {
      var entry := ReadEntry(payload, o);
      if entry.Err? {
        return Err(entry.error);
      }
      ghost var before := out;
      out := out + [entry.value.0];
      o := entry.value.1;
      i := i + 1;
      assert forall rest: seq<bytes> :: before + ([entry.value.0] + rest) == out + rest;
    }
    assert out + [] == out;
    if o != |payload| {
      return Err(Trailing);
    }
    r := Ok(out);
  }

  // ----- the server's decoder

  /** The server's variable-length integers must also be written in their shortest form. */
  function ReadMinimalVarInt(b: bytes): (r: Option<(u64, nat)>)
    ensures r.Some? ==> 0 < r.value.1 <= |b|
  {
    match ReadVarInt(b, 0)
    case None => None
    case Some((n, next)) => if next == |VarInt(n)| then Some((n, next)) else None
  }

  function DecodeEntry(raw: bytes): Result<(AnyHeader, bytes), WireError> {
    match Parse(raw)
    case Err(e) => Err(Header(e))
    case Ok(h) =>
      if h.Size() > |raw| then Err(RanOut) // the parse has already refused this
      else
        match ReadMinimalVarInt(raw[h.Size()..])
        case None => Err(RanOut)
        case Some((txcount, next)) =>
          if txcount != 0 then Err(BadTxCount) else Ok((h, raw[h.Size()..][next..]))
  }

  function DecodeEntries(raw: bytes, count: nat): Result<(seq<AnyHeader>, bytes), WireError>
    decreases count
  {
    if count == 0 then Ok(([], raw))
    else match DecodeEntry(raw)
         case Err(e) => Err(e)
         case Ok((h, next)) =>
           match DecodeEntries(next, count - 1)
           case Err(e) => Err(e)
           case Ok((rest, end)) => Ok(([h] + rest, end))
  }

  /** The headers of the message and whatever bytes follow them. */
  function Decode(payload: bytes): Result<(seq<AnyHeader>, bytes), WireError> {
    match ReadMinimalVarInt(payload)
    case None => Err(RanOut)
    case Some((count, o)) => DecodeEntries(payload[o..], count)
  }

  method ReadHeadersMessage(payload: bytes) returns (r: Result<(seq<AnyHeader>, bytes), WireError>)
    ensures r == Decode(payload)
  {
    var first := ReadMinimalVarInt(payload);
    if first.None? {
      return Err(RanOut);
    }
    var len := first.value.0;
    var raw := payload[first.value.1..];
    ghost var start := raw;
    var headers: seq<AnyHeader> := [];
    assert forall rest: seq<AnyHeader> :: headers + rest == rest;
    for i := 0 to len
      invariant DecodeEntries(start, len) == match DecodeEntries(raw, len - i)
                                             case Err(e) => Err(e)
                                             case Ok((rest, end)) => Ok((headers + rest, end))
    {
      var entry := DecodeEntry(raw);
      if entry.Err? {
        return Err(entry.error);
      }
      ghost var before := headers;
      headers := headers + [entry.value.0];
      raw := entry.value.1;
      assert forall rest: seq<AnyHeader> :: before + ([entry.value.0] + rest) == headers + rest;
    }
    assert headers + [] == headers;
    r := Ok((headers, raw));
  }

  // ----- framing

  function Entries(hs: seq<AnyHeader>): bytes {
    if hs == [] then [] else hs[0].Serialize() + ([0] + Entries(hs[1..]))
  }

  /** The message that carries `hs`. */
  function Frame(hs: seq<AnyHeader>): bytes
    requires |hs| < 0x1_0000_0000_0000_0000
  {
    VarInt(|hs|) + Entries(hs)
  }

  function Serialized(hs: seq<AnyHeader>): seq<bytes> {
    seq(|hs|, i requires 0 <= i < |hs| => hs[i].Serialize())
  }

  lemma Drop(a: bytes, b: bytes)
    ensures (a + b)[..|a|] == a && (a + b)[|a|..] == b
  {
  }

  lemma VarIntReads(n: u64, rest: bytes)
    ensures ReadVarInt(VarInt(n) + rest, 0) == Some((n, |VarInt(n)|))
  {
    var b := VarInt(n) + rest;
    if n < 0xFD {
    } else if n <= 0xFFFF {
      LE16Decodes(n);
      assert b[1..3] == LE16(n);
    } else if n <= 0xFFFF_FFFF {
      LE32Decodes(n);
      assert b[1..5] == LE32(n);
    } else {
      LE64Decodes(n);
      assert b[1..9] == LE64(n);
    }
  }

  /** One byte up to 252; above that a marker for the width, then the value in 2, 4 or 8 bytes. */
  lemma VarIntBytes(n: u64)
    ensures n <= 252 ==> VarInt(n) == [n]
    ensures 252 < n < 0x1_0000 ==> VarInt(n)[0] == 0xFD && |VarInt(n)| == 3 && FromLE16(VarInt(n)[1..]) == n
    ensures 0xFFFF < n < 0x1_0000_0000 ==> VarInt(n)[0] == 0xFE && |VarInt(n)| == 5 && FromLE32(VarInt(n)[1..]) == n
    ensures 0xFFFF_FFFF < n ==> VarInt(n)[0] == 0xFF && |VarInt(n)| == 9 && FromLE64(VarInt(n)[1..]) == n
  {
    hide LE16, LE32, LE64, FromLE16, FromLE32, FromLE64;
    if 252 < n < 0x1_0000 {
      LE16Decodes(n);
      assert VarInt(n)[1..] == LE16(n);
    } else if 0xFFFF < n < 0x1_0000_0000 {
      LE32Decodes(n);
      assert VarInt(n)[1..] == LE32(n);
    } else if 0xFFFF_FFFF < n {
      LE64Decodes(n);
      assert VarInt(n)[1..] == LE64(n);
    }
  }

  lemma MinimalVarIntIs(b: bytes)
    requires ReadMinimalVarInt(b).Some?
    ensures var (n, next) := ReadMinimalVarInt(b).value; b == VarInt(n) + b[next..] && next == |VarInt(n)|
  {
    if b[0] < 0xFD {
    } else if b[0] == 0xFD {
      LE16Encodes(b[1..3]);
    } else if b[0] == 0xFE {
      LE32Encodes(b[1..5]);
    } else {
      LE32Encodes(b[1..9][..4]);
      LE32Encodes(b[1..9][4..]);
      LE64Encodes(b[1..9]);
    }
  }

  lemma LE64Encodes(b: bytes)
    requires |b| == 8
    ensures LE64(FromLE64(b)) == b
  {
    LE32Encodes(b[..4]);
    LE32Encodes(b[4..]);
    var lo, hi := FromLE32(b[..4]), FromLE32(b[4..]);
    assert FromLE64(b) % 0x1_0000_0000 == lo && FromLE64(b) / 0x1_0000_0000 == hi;
    assert b == b[..4] + b[4..];
  }

  // ----- the server accepts exactly the framed messages

  lemma EntryDecodes(h: AnyHeader, rest: bytes)
    requires h.SelfDescribing()
    ensures DecodeEntry(h.Serialize() + ([0] + rest)) == Ok((h, rest))
  {
    hide AnyHeader.Serialize, Parse, HeaderSize;
    ParseFront(h, [0] + rest);
    Drop(h.Serialize(), [0] + rest);
    VarIntReads(0, rest);
    assert ([0] + rest)[1..] == rest;
    assert VarInt(0) == [0];
  }

  lemma EntryEncodes(raw: bytes)
    requires DecodeEntry(raw).Ok?
    ensures var (h, rest) := DecodeEntry(raw).value;
            h.SelfDescribing() && raw == h.Serialize() + ([0] + rest) && |rest| < |raw|
  {
    hide AnyHeader.Serialize, Parse, HeaderSize;
    ParseBack(raw);
    var h := Parse(raw).value;
    MinimalVarIntIs(raw[h.Size()..]);
    assert raw == raw[..h.Size()] + raw[h.Size()..];
  }

  lemma {:induction false} EntriesDecode(hs: seq<AnyHeader>, rest: bytes)
    requires AllSelfDescribing(hs)
    ensures DecodeEntries(Entries(hs) + rest, |hs|) == Ok((hs, rest))
  {
    hide AnyHeader.Serialize, DecodeEntry;
    if hs == [] {
      assert Entries(hs) + rest == rest;
    } else {
      var more := Entries(hs[1..]) + rest;
      assert Entries(hs) + rest == hs[0].Serialize() + ([0] + more);
      EntryDecodes(hs[0], more);
      EntriesDecode(hs[1..], rest);
      assert [hs[0]] + hs[1..] == hs;
    }
  }

  lemma {:induction false} EntriesEncode(raw: bytes, count: nat)
    requires DecodeEntries(raw, count).Ok?
    ensures var (hs, rest) := DecodeEntries(raw, count).value;
            |hs| == count && AllSelfDescribing(hs) && raw == Entries(hs) + rest
    decreases count
  {
    hide AnyHeader.Serialize, DecodeEntry;
    if count == 0 {
    } else {
      var (h, next) := DecodeEntry(raw).value;
      EntryEncodes(raw);
      EntriesEncode(next, count - 1);
      var (tail, rest) := DecodeEntries(next, count - 1).value;
      assert ([h] + tail)[1..] == tail;
      assert Entries([h] + tail) + rest == h.Serialize() + ([0] + (Entries(tail) + rest));
    }
  }

  /** The server accepts a payload exactly when it is the framing of self-describing headers, plus what follows. */
  lemma {:induction false} DecodeExactly(payload: bytes, hs: seq<AnyHeader>, rest: bytes)
    requires |hs| < 0x1_0000_0000_0000_0000
    ensures Decode(payload) == Ok((hs, rest)) <==> AllSelfDescribing(hs) && payload == Frame(hs) + rest
  {
    hide *;
    if Decode(payload) == Ok((hs, rest)) {
      DecodeEncodes(payload, hs, rest);
    }
    if AllSelfDescribing(hs) && payload == Frame(hs) + rest {
      DecodeDecodes(hs, rest);
    }
  }

  lemma DecodeEncodes(payload: bytes, hs: seq<AnyHeader>, rest: bytes)
    requires Decode(payload) == Ok((hs, rest)) && |hs| < 0x1_0000_0000_0000_0000
    ensures AllSelfDescribing(hs) && payload == Frame(hs) + rest
  {
    hide DecodeEntries, VarInt, ReadMinimalVarInt, Entries, AllSelfDescribing;
    MinimalVarIntIs(payload);
    var (count, o) := ReadMinimalVarInt(payload).value;
    EntriesEncode(payload[o..], count);
    assert VarInt(|hs|) + (Entries(hs) + rest) == Frame(hs) + rest;
  }

  lemma DecodeDecodes(hs: seq<AnyHeader>, rest: bytes)
    requires AllSelfDescribing(hs) && |hs| < 0x1_0000_0000_0000_0000
    ensures Decode(Frame(hs) + rest) == Ok((hs, rest))
  {
    hide DecodeEntries, VarInt, ReadVarInt, Entries, AllSelfDescribing;
    assert Frame(hs) + rest == VarInt(|hs|) + (Entries(hs) + rest);
    VarIntReads(|hs|, Entries(hs) + rest);
    Drop(VarInt(|hs|), Entries(hs) + rest);
    EntriesDecode(hs, rest);
  }

  // ----- the Python reader gives back the same headers

  lemma EntryAtOffset(h: AnyHeader, before: bytes, rest: bytes)
    requires h.SelfDescribing()
    ensures var p := before + (h.Serialize() + ([0] + rest));
            ReadEntry(p, |before|) == Ok((h.Serialize(), |before| + h.Size() + 1))
  {
    hide AnyHeader.Serialize, AnyHeader.SelfDescribing;
    var s, o := h.Serialize(), |before|;
    var p := before + (s + ([0] + rest));
    SizeInFront(h);
    assert p[o..o + 4] == s[0..4];
    assert p[o..o + h.Size()] == s;
    assert p[o + h.Size()] == 0;
  }

  lemma {:induction false} EntriesAtOffset(hs: seq<AnyHeader>, before: bytes)
    requires AllSelfDescribing(hs)
    ensures ReadEntries(before + Entries(hs), |before|, |hs|) == Ok((Serialized(hs), |before| + |Entries(hs)|))
  {
    hide AnyHeader.Serialize, ReadEntry, AnyHeader.SelfDescribing;
    if hs == [] {
      assert Serialized(hs) == [];
    } else {
      var more := Entries(hs[1..]);
      EntryAtOffset(hs[0], before, more);
      var before' := before + (hs[0].Serialize() + [0]);
      assert before + Entries(hs) == before' + more;
      EntriesAtOffset(hs[1..], before');
      assert before + Entries(hs) == before + (hs[0].Serialize() + ([0] + more));
      assert |before'| == |before| + hs[0].Size() + 1;
      assert Serialized(hs) == [hs[0].Serialize()] + Serialized(hs[1..]);
    }
  }

  lemma SplitReadsFrame(hs: seq<AnyHeader>)
    requires |hs| < 0x1_0000_0000_0000_0000 && AllSelfDescribing(hs)
    ensures Split(Frame(hs)) == Ok(Serialized(hs))
  {
    hide ReadEntries, VarInt, ReadVarInt, AnyHeader.SelfDescribing;
    VarIntReads(|hs|, Entries(hs));
    EntriesAtOffset(hs, VarInt(|hs|));
  }

  /** Every slice the Python reader returns is one whole header, whatever the payload. */
  lemma {:induction false} EntriesAreHeaders(payload: bytes, o: nat, count: nat, k: nat)
    requires ReadEntries(payload, o, count).Ok? && k < count
    ensures var out := ReadEntries(payload, o, count).value.0;
            |out| == count && Parse(out[k]).Ok? && Parse(out[k]).value.Serialize() == out[k]
    decreases count
  {
    hide AnyHeader.Serialize, Parse, HeaderSize, ReadVarInt;
    var (h, next) := ReadEntry(payload, o).value;
    if k == 0 {
      EntryIsHeader(payload, o);
      if count > 1 {
        EntriesAreHeaders(payload, next, count - 1, 0);
      }
    } else {
      EntriesAreHeaders(payload, next, count - 1, k - 1);
    }
  }

  lemma EntryIsHeader(payload: bytes, o: nat)
    requires ReadEntry(payload, o).Ok?
    ensures var s := ReadEntry(payload, o).value.0; Parse(s).Ok? && Parse(s).value.Serialize() == s
  {
    hide AnyHeader.Serialize, ParseV1;
    var s := ReadEntry(payload, o).value.0;
    assert s[0..4] == payload[o..o + 4];
    assert s[..|s|] == s;
    assert Parse(s).Ok?;
    ParseBack(s);
  }

  // ----- the two readers agree

  /** The length read at `o` is written in its shortest form. */
  predicate ShortestAt(b: bytes, o: nat) {
    var r := ReadVarInt(b, o);
    r.Some? ==> r.value.1 == o + |VarInt(r.value.0)|
  }

  predicate EntriesShortest(payload: bytes, o: nat, count: nat)
    decreases count
  {
    if count == 0 || ReadEntry(payload, o).Err? then true
    else
      && ShortestAt(payload, o + |ReadEntry(payload, o).value.0|)
      && EntriesShortest(payload, ReadEntry(payload, o).value.1, count - 1)
  }

  /** So are all lengths that the Python reader reads on its way through the payload. */
  predicate Shortest(payload: bytes) {
    var first := ReadVarInt(payload, 0);
    && ShortestAt(payload, 0)
    && (first.Some? ==> EntriesShortest(payload, first.value.1, first.value.0))
  }

  lemma ZeroAt(b: bytes, o: nat)
    requires ReadVarInt(b, o).Some? && ReadVarInt(b, o).value.0 == 0 && ShortestAt(b, o)
    ensures b[o..] == [0] + b[o + 1..] && ReadVarInt(b, o).value.1 == o + 1
  {
  }

  /** An entry the Python reader slices off is the entry the server decodes. */
  lemma EntryDecodesToo(payload: bytes, o: nat)
    requires o <= |payload| && ReadEntry(payload, o).Ok? && ShortestAt(payload, o + |ReadEntry(payload, o).value.0|)
    ensures var (s, next) := ReadEntry(payload, o).value;
            && Parse(s).Ok? && Parse(s).value.SelfDescribing() && Parse(s).value.Serialize() == s
            && DecodeEntry(payload[o..]) == Ok((Parse(s).value, payload[next..]))
  {
    hide AnyHeader.Serialize, AnyHeader.SelfDescribing, Parse, DecodeEntry, ReadVarInt, VarInt, ShortestAt;
    var (s, next) := ReadEntry(payload, o).value;
    EntryIsHeader(payload, o);
    ParseBack(s);
    ZeroAt(payload, o + |s|);
    assert payload[o..] == s + payload[o + |s|..];
    EntryDecodes(Parse(s).value, payload[next..]);
  }

  lemma {:induction false} EntriesDecodeToo(payload: bytes, o: nat, count: nat) returns (hs: seq<AnyHeader>)
    requires o <= |payload| && ReadEntries(payload, o, count).Ok? && EntriesShortest(payload, o, count)
    ensures var (out, end) := ReadEntries(payload, o, count).value;
            && o <= end <= |payload| && out == Serialized(hs) && AllSelfDescribing(hs)
            && DecodeEntries(payload[o..], count) == Ok((hs, payload[end..]))
    decreases count
  {
    hide AnyHeader.Serialize, AnyHeader.SelfDescribing, Parse, DecodeEntry, ReadEntry, ShortestAt;
    if count == 0 {
      hs := [];
    } else {
      var (s, next) := ReadEntry(payload, o).value;
      EntryEnds(payload, o);
      EntryDecodesToo(payload, o);
      var rest := EntriesDecodeToo(payload, next, count - 1);
      var h := Parse(s).value;
      hs := [h] + rest;
      assert Serialized(hs) == [s] + Serialized(rest);
    }
  }

  lemma EntryEnds(payload: bytes, o: nat)
    requires ReadEntry(payload, o).Ok?
    ensures o < ReadEntry(payload, o).value.1 <= |payload|
  {
  }

  lemma FrontIsShortest(n: u64, rest: bytes)
    ensures ShortestAt(VarInt(n) + rest, 0)
  {
    hide VarInt, ReadVarInt;
    VarIntReads(n, rest);
  }

  lemma {:induction false} FramedEntriesAreShortest(hs: seq<AnyHeader>, before: bytes)
    requires AllSelfDescribing(hs)
    ensures EntriesShortest(before + Entries(hs), |before|, |hs|)
  {
    hide AnyHeader.Serialize, ReadEntry, AnyHeader.SelfDescribing, ShortestAt;
    if hs == [] {
    } else {
      var s, more := hs[0].Serialize(), Entries(hs[1..]);
      var payload := before + Entries(hs);
      assert payload == before + (s + ([0] + more));
      EntryAtOffset(hs[0], before, more);
      var before' := before + (s + [0]);
      assert payload == before' + more;
      FramedEntriesAreShortest(hs[1..], before');
      ZeroIsShortest(payload, |before| + |s|);
    }
  }

  lemma ZeroIsShortest(b: bytes, o: nat)
    requires o < |b| && b[o] == 0
    ensures ShortestAt(b, o)
  {
  }

  lemma FrameIsShortest(hs: seq<AnyHeader>)
    requires |hs| < 0x1_0000_0000_0000_0000 && AllSelfDescribing(hs)
    ensures Shortest(Frame(hs))
  {
    hide VarInt, ReadVarInt, ShortestAt, EntriesShortest, Entries, AllSelfDescribing;
    VarIntReads(|hs|, Entries(hs));
    FrontIsShortest(|hs|, Entries(hs));
    FramedEntriesAreShortest(hs, VarInt(|hs|));
  }

  lemma {:induction false} SerializedIsInjective(hs: seq<AnyHeader>, xs: seq<AnyHeader>)
    requires AllSelfDescribing(hs) && AllSelfDescribing(xs) && Serialized(hs) == Serialized(xs)
    ensures hs == xs
  {
    hide AnyHeader.Serialize, AnyHeader.SelfDescribing, Parse;
    assert |Serialized(hs)| == |hs| && |Serialized(xs)| == |xs|;
    forall i | 0 <= i < |hs|
      ensures hs[i] == xs[i]
    {
      assert Serialized(hs)[i] == Serialized(xs)[i];
      ParseAlone(hs[i]);
      ParseAlone(xs[i]);
    }
  }

  /**
   A payload the Python reader splits, with lengths in shortest form, is one the server
   decodes, to the same headers.
   */
  lemma SplitDecodes(payload: bytes, hs: seq<AnyHeader>)
    requires Split(payload) == Ok(Serialized(hs)) && AllSelfDescribing(hs) && Shortest(payload)
    ensures Decode(payload) == Ok((hs, []))
  {
    hide DecodeEntries, ReadEntries, VarInt, ReadVarInt, EntriesShortest, AllSelfDescribing, Serialized;
    var (count, o) := ReadVarInt(payload, 0).value;
    var xs := EntriesDecodeToo(payload, o, count);
    SerializedIsInjective(hs, xs);
    assert payload[|payload|..] == [];
  }

  /**
   One message, two readers: the server decodes a payload, to its end, into these headers
   exactly when the Python reader slices it into their bytes and all its lengths are in
   shortest form.
   */
  lemma ReadersAgree(payload: bytes, hs: seq<AnyHeader>)
    requires |hs| < 0x1_0000_0000_0000_0000
    ensures Decode(payload) == Ok((hs, []))
       <==> Split(payload) == Ok(Serialized(hs)) && AllSelfDescribing(hs) && Shortest(payload)
  {
    hide *;
    DecodeExactly(payload, hs, []);
    if Decode(payload) == Ok((hs, [])) {
      assert payload == Frame(hs);
      SplitReadsFrame(hs);
      FrameIsShortest(hs);
    }
    if Split(payload) == Ok(Serialized(hs)) && AllSelfDescribing(hs) && Shortest(payload) {
      SplitDecodes(payload, hs);
    }
  }
}
