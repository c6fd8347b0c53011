/** Hexadecimal text: the decoder, the lower-case encoder, and the two-character parse the walk uses. */
module Hex {
  import opened Bytes

  function Digit(c: char): (d: Option<nat>)
    ensures d.Some? ==> d.value < 16
  {
    if '0' <= c <= '9' then Some(c as int - '0' as int)
    else if 'a' <= c <= 'f' then Some(c as int - 'a' as int + 10)
    else if 'A' <= c <= 'F' then Some(c as int - 'A' as int + 10)
    else None
  }

  /** `Integer.parseInt` of two characters in base 16, which takes a sign before a digit. */
  function ParsePair(c: char, d: char): Option<int> {
    match (Digit(c), Digit(d))
    case (Some(hi), Some(lo)) => Some(16 * hi + lo)
    case (None, Some(lo)) => if c == '-' then Some(0 - lo as int) else if c == '+' then Some(lo) else None
    case (_, None) => None
  }

  predicate IsHex(s: string) {
    |s| % 2 == 0 && forall i :: 0 <= i < |s| ==> Digit(s[i]).Some?
  }

  function ByteAt(s: string, i: nat): byte
    requires IsHex(s) && 2 * i + 1 < |s|
  {
    16 * Digit(s[2 * i]).value + Digit(s[2 * i + 1]).value
  }

  function HexToBytes(s: string): (r: Option<bytes>)
    ensures r.Some? <==> IsHex(s)
    ensures r.Some? ==> 2 * |r.value| == |s|
  {
    if IsHex(s) then Some(seq(|s| / 2, i requires 0 <= i < |s| / 2 => ByteAt(s, i))) else None
  }

  function LowerDigit(d: nat): char
    requires d < 16
  {
    "0123456789abcdef"[d]
  }

  function ToHex(b: bytes): (s: string)
    ensures |s| == 2 * |b|
  {
    seq(2 * |b|, i requires 0 <= i < 2 * |b| => LowerDigit(if i % 2 == 0 then b[i / 2] / 16 else b[i / 2] % 16))
  }

  lemma DigitOfLower(d: nat)
    requires d < 16
    ensures Digit(LowerDigit(d)) == Some(d)
  {
  }

  /** The high digit comes first, in lower case. */
  lemma HexOfOneByte(b: byte)
    ensures ToHex([b])[0] == "0123456789abcdef"[b / 16] && ToHex([b])[1] == "0123456789abcdef"[b % 16]
  {
  }

  lemma HexRoundTrip(b: bytes)
    ensures HexToBytes(ToHex(b)) == Some(b)
  {
    var s := ToHex(b);
    forall i | 0 <= i < |s|
      ensures Digit(s[i]) == Some(if i % 2 == 0 then b[i / 2] / 16 else b[i / 2] % 16)
    {
      DigitOfLower(if i % 2 == 0 then b[i / 2] / 16 else b[i / 2] % 16);
    }
    forall i | 0 <= i < |b|
      ensures ByteAt(s, i) == b[i]
    {
      assert 2 * i / 2 == i && (2 * i + 1) / 2 == i;
    }
    assert HexToBytes(s).value == b;
  }

  lemma ToHexAppend(a: bytes, b: bytes)
    ensures ToHex(a + b) == ToHex(a) + ToHex(b)
  {
    forall i | 0 <= i < 2 * |a + b|
      ensures ToHex(a + b)[i] == (ToHex(a) + ToHex(b))[i]
    {
      if i >= 2 * |a| {
        assert (i - 2 * |a|) / 2 == i / 2 - |a|;
      }
    }
  }
}
