/**
 * Fixed-width unsigned integers and the big-endian byte encodings the admin
 * queue uses for every multi-byte field (htobe16/32/64 and be16/32/64toh).
 */
module Wire {

  type Byte = b: int | 0 <= b < 0x100
  type U16 = x: int | 0 <= x < 0x1_0000
  type U32 = x: int | 0 <= x < 0x1_0000_0000
  type U64 = x: int | 0 <= x < 0x1_0000_0000_0000_0000

  const TWO_32: int := 0x1_0000_0000

  datatype Option<+T> = None | Some(value: T)

  /** C `uint32_t` increment: wraps to 0 after 0xFFFFFFFF. */
  function Inc32(x: U32): (r: U32)
    ensures x < TWO_32 - 1 ==> r == x + 1
    ensures x == TWO_32 - 1 ==> r == 0
  {
    if x == TWO_32 - 1 then 0 else x + 1
  }

  /** C `uint32_t` subtraction `a - b`: the distance from b forward to a, modulo 2^32. */
  function Sub32(a: U32, b: U32): (r: U32)
    ensures b <= a ==> r == a - b
    ensures a < b ==> r == TWO_32 - (b - a)
  {
    if b <= a then a - b else a - b + TWO_32
  }

  function Zeros(n: nat): (r: seq<Byte>)
    ensures |r| == n && forall i :: 0 <= i < n ==> r[i] == 0
  {
    seq(n, _ => 0)
  }

  // ---- decoders: read a big-endian field at a byte offset ----

  function ReadBe16(s: seq<Byte>, off: nat): U16
    requires off + 2 <= |s|
  {
    (s[off] as int) * 0x100 + s[off + 1]
  }

  function ReadBe32(s: seq<Byte>, off: nat): U32
    requires off + 4 <= |s|
  {
    ReadBe16(s, off) * 0x1_0000 + ReadBe16(s, off + 2)
  }

  function ReadBe64(s: seq<Byte>, off: nat): U64
    requires off + 8 <= |s|
  {
    ReadBe32(s, off) * 0x1_0000_0000 + ReadBe32(s, off + 4)
  }

  // ---- encoders: each is a right inverse of the matching decoder ----

  function Be16(x: U16): (r: seq<Byte>)
    ensures |r| == 2 && ReadBe16(r, 0) == x
  {
    [x / 0x100, x % 0x100]
  }

  function Be32(x: U32): (r: seq<Byte>)
    ensures |r| == 4 && ReadBe32(r, 0) == x
  {
    var r := Be16(x / 0x1_0000) + Be16(x % 0x1_0000);
    assert ReadBe16(r, 0) == x / 0x1_0000 && ReadBe16(r, 2) == x % 0x1_0000;
    r
  }

  function Be64(x: U64): (r: seq<Byte>)
    ensures |r| == 8 && ReadBe64(r, 0) == x
  {
    var hi, lo := Be32(x / 0x1_0000_0000), Be32(x % 0x1_0000_0000);
    var r := hi + lo;
    ReadBe32Prefix(hi, lo, 0);
    ReadBe32Suffix(hi, lo, 0);
    r
  }

  // ---- reading a field inside a concatenation ----

  lemma ReadBe16Prefix(a: seq<Byte>, b: seq<Byte>, off: nat)
    requires off + 2 <= |a|
    ensures ReadBe16(a + b, off) == ReadBe16(a, off)
  {
  }

  lemma ReadBe16Suffix(a: seq<Byte>, b: seq<Byte>, off: nat)
    requires off + 2 <= |b|
    ensures ReadBe16(a + b, |a| + off) == ReadBe16(b, off)
  {
  }

  lemma ReadBe32Prefix(a: seq<Byte>, b: seq<Byte>, off: nat)
    requires off + 4 <= |a|
    ensures ReadBe32(a + b, off) == ReadBe32(a, off)
  {
    ReadBe16Prefix(a, b, off);
    ReadBe16Prefix(a, b, off + 2);
  }

  lemma ReadBe32Suffix(a: seq<Byte>, b: seq<Byte>, off: nat)
    requires off + 4 <= |b|
    ensures ReadBe32(a + b, |a| + off) == ReadBe32(b, off)
  {
    ReadBe16Suffix(a, b, off);
    ReadBe16Suffix(a, b, off + 2);
  }

  lemma ReadBe64Prefix(a: seq<Byte>, b: seq<Byte>, off: nat)
    requires off + 8 <= |a|
    ensures ReadBe64(a + b, off) == ReadBe64(a, off)
  {
    ReadBe32Prefix(a, b, off);
    ReadBe32Prefix(a, b, off + 4);
  }

  lemma ReadBe64Suffix(a: seq<Byte>, b: seq<Byte>, off: nat)
    requires off + 8 <= |b|
    ensures ReadBe64(a + b, |a| + off) == ReadBe64(b, off)
  {
    ReadBe32Suffix(a, b, off);
    ReadBe32Suffix(a, b, off + 4);
  }

  // ---- the other direction: decoding then re-encoding gives the bytes back ----

  lemma Be16OfRead(s: seq<Byte>, off: nat)
    requires off + 2 <= |s|
    ensures Be16(ReadBe16(s, off)) == s[off..off + 2]
  {
    var x := ReadBe16(s, off);
    assert x / 0x100 == s[off] && x % 0x100 == s[off + 1];
  }

  lemma Be32OfRead(s: seq<Byte>, off: nat)
    requires off + 4 <= |s|
    ensures Be32(ReadBe32(s, off)) == s[off..off + 4]
  {
    var x := ReadBe32(s, off);
    assert x / 0x1_0000 == ReadBe16(s, off) && x % 0x1_0000 == ReadBe16(s, off + 2);
    Be16OfRead(s, off);
    Be16OfRead(s, off + 2);
    assert s[off..off + 4] == s[off..off + 2] + s[off + 2..off + 4];
  }

  lemma Be64OfRead(s: seq<Byte>, off: nat)
    requires off + 8 <= |s|
    ensures Be64(ReadBe64(s, off)) == s[off..off + 8]
  {
    var x := ReadBe64(s, off);
    assert x / 0x1_0000_0000 == ReadBe32(s, off) && x % 0x1_0000_0000 == ReadBe32(s, off + 4);
    Be32OfRead(s, off);
    Be32OfRead(s, off + 4);
    assert s[off..off + 8] == s[off..off + 4] + s[off + 4..off + 8];
  }

  /** Distinct values have distinct encodings (the encoders are injective). */
  lemma Be32Injective(x: U32, y: U32)
    requires Be32(x) == Be32(y)
    ensures x == y
  {
    assert ReadBe32(Be32(x), 0) == ReadBe32(Be32(y), 0);
  }

  /** Two big-endian words followed by a body: each part reads back from its place. */
  lemma TwoWordsThen(a: U32, b: U32, body: seq<Byte>)
    ensures |Be32(a) + Be32(b) + body| == 8 + |body|
    ensures ReadBe32(Be32(a) + Be32(b) + body, 0) == a
    ensures ReadBe32(Be32(a) + Be32(b) + body, 4) == b
    ensures (Be32(a) + Be32(b) + body)[8..] == body
  {
    var s := Be32(a) + Be32(b) + body;
    assert s == Be32(a) + (Be32(b) + body);
    ReadBe32Prefix(Be32(a), Be32(b) + body, 0);
    ReadBe32Prefix(Be32(b), body, 0);
    ReadBe32Suffix(Be32(a), Be32(b) + body, 0);
  }
}
