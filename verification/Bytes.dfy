/**
 Byte strings, fixed-width integers in little-endian order, and what the other modules
 share: result types, a minimum.
 */
module Bytes {

  type byte = x: int | 0 <= x < 0x100
  type u16 = x: int | 0 <= x < 0x1_0000
  type u32 = x: int | 0 <= x < 0x1_0000_0000
  type u64 = x: int | 0 <= x < 0x1_0000_0000_0000_0000
  type bytes = seq<byte>
  type Bytes16 = b: bytes | |b| == 16 witness Zeros(16)
  type Digest = b: bytes | |b| == 32 witness Zeros(32)

  datatype Option<+T> = None | Some(value: T)

  datatype Result<+T, +E> = Ok(value: T) | Err(error: E)

  function Min(a: int, b: int): int {
    if a < b then a else b
  }

  function Zeros(n: nat): (b: bytes)
    ensures |b| == n && forall i :: 0 <= i < n ==> b[i] == 0
  {
    seq(n, _ => 0)
  }

  function LE16(v: u16): (b: bytes)
    ensures |b| == 2
  {
    [v % 0x100, v / 0x100]
  }

  function FromLE16(b: bytes): u16
    requires |b| == 2
  {
    b[0] as int + 0x100 * b[1] as int
  }

  function LE32(v: u32): (b: bytes)
    ensures |b| == 4
  {
    [v % 0x100, v / 0x100 % 0x100, v / 0x1_0000 % 0x100, v / 0x100_0000]
  }

  function FromLE32(b: bytes): u32
    requires |b| == 4
  {
    b[0] as int + 0x100 * b[1] as int + 0x1_0000 * b[2] as int + 0x100_0000 * b[3] as int
  }

  function LE64(v: u64): (b: bytes)
    ensures |b| == 8
  {
    LE32(v % 0x1_0000_0000) + LE32(v / 0x1_0000_0000)
  }

  function FromLE64(b: bytes): u64
    requires |b| == 8
  {
    FromLE32(b[..4]) as int + 0x1_0000_0000 * FromLE32(b[4..]) as int
  }

  lemma LE16Decodes(v: u16)
    ensures FromLE16(LE16(v)) == v
  {
  }

  lemma LE16Encodes(b: bytes)
    requires |b| == 2
    ensures LE16(FromLE16(b)) == b
  {
  }

  lemma LE32Decodes(v: u32)
    ensures FromLE32(LE32(v)) == v
  {
    var a, b := v / 0x100, v / 0x1_0000;
    assert a / 0x100 == b && b / 0x100 == v / 0x100_0000;
    assert v == v % 0x100 + 0x100 * a && a == a % 0x100 + 0x100 * b && b == b % 0x100 + 0x100 * (b / 0x100);
  }

  lemma LE32Encodes(b: bytes)
    requires |b| == 4
    ensures LE32(FromLE32(b)) == b
  {
    var x := b[2] as int + 0x100 * b[3] as int;
    var w := b[1] as int + 0x100 * x;
    var v: int := FromLE32(b);
    assert v == b[0] as int + 0x100 * w;
    assert v / 0x100 == w && v % 0x100 == b[0];
    assert w / 0x100 == x && w % 0x100 == b[1];
    assert v / 0x1_0000 == x && x / 0x100 == b[3] && x % 0x100 == b[2];
  }

  lemma LE32Injective(v: u32, w: u32)
    requires LE32(v) == LE32(w)
    ensures v == w
  {
    LE32Decodes(v);
    LE32Decodes(w);
  }

  lemma LE64Decodes(v: u64)
    ensures FromLE64(LE64(v)) == v
  {
    LE32Decodes(v % 0x1_0000_0000);
    LE32Decodes(v / 0x1_0000_0000);
    assert LE64(v)[..4] == LE32(v % 0x1_0000_0000);
    assert LE64(v)[4..] == LE32(v / 0x1_0000_0000);
  }

  /** Least significant byte first, at every width. */
  lemma LittleEndian(v: u16, w: u32, x: u64)
    ensures LE16(v)[0] == v % 0x100 && LE16(v)[1] == v / 0x100
    ensures LE32(w)[0] == w % 0x100 && LE32(w)[3] == w / 0x100_0000
    ensures LE32(w)[1] == w / 0x100 % 0x100 && LE32(w)[2] == w / 0x1_0000 % 0x100
    ensures LE64(x)[..4] == LE32(x % 0x1_0000_0000) && LE64(x)[4..] == LE32(x / 0x1_0000_0000)
  {
    assert LE64(x)[..4] == LE32(x % 0x1_0000_0000);
    assert LE64(x)[4..] == LE32(x / 0x1_0000_0000);
  }

  function Reverse<T>(s: seq<T>): (r: seq<T>)
    ensures |r| == |s|
    ensures forall i :: 0 <= i < |s| ==> r[i] == s[|s| - 1 - i]
  {
    seq(|s|, i requires 0 <= i < |s| => s[|s| - 1 - i])
  }

  lemma ReverseTwice<T>(s: seq<T>)
    ensures Reverse(Reverse(s)) == s
  {
  }

  lemma ReverseInjective<T>(s: seq<T>, t: seq<T>)
    requires Reverse(s) == Reverse(t)
    ensures s == t
  {
    ReverseTwice(s);
    ReverseTwice(t);
  }

  /** The concatenation of a list of byte strings. */
  function Flatten(parts: seq<bytes>): bytes {
    if parts == [] then [] else parts[0] + Flatten(parts[1..])
  }
}
