/**
 * Packed C structures as lists of fixed-width big-endian fields. Every
 * admin-queue structure is "naturally packed" (no implicit padding), so a
 * structure is fully described by the widths of its members in order; its
 * `reserved`/`padding` arrays are written as zeros and ignored on decode.
 */
module Layout {
  import opened Wire

  datatype Width = W8 | W16 | W32 | W64 | WReserved(n: nat)

  datatype Field = U8F(b: Byte) | U16F(h: U16) | U32F(w: U32) | U64F(d: U64) | Reserved(n: nat)

  function WidthOf(f: Field): Width
  {
    match f
    case U8F(_) => W8
    case U16F(_) => W16
    case U32F(_) => W32
    case U64F(_) => W64
    case Reserved(n) => WReserved(n)
  }

  function Widths(fs: seq<Field>): (ws: seq<Width>)
    ensures |ws| == |fs| && forall i :: 0 <= i < |fs| ==> ws[i] == WidthOf(fs[i])
  {
    seq(|fs|, i requires 0 <= i < |fs| => WidthOf(fs[i]))
  }

  function Size(w: Width): nat
  {
    match w
    case W8 => 1
    case W16 => 2
    case W32 => 4
    case W64 => 8
    case WReserved(n) => n
  }

  /** `sizeof` of a packed structure: the sum of its members' sizes. */
  function SizeOf(ws: seq<Width>): nat
  {
    if ws == [] then 0 else Size(ws[0]) + SizeOf(ws[1..])
  }

  function EncodeField(f: Field): (r: seq<Byte>)
    ensures |r| == Size(WidthOf(f))
  {
    match f
    case U8F(b) => [b]
    case U16F(h) => Be16(h)
    case U32F(w) => Be32(w)
    case U64F(d) => Be64(d)
    case Reserved(n) => Zeros(n)
  }

  function EncodeFields(fs: seq<Field>): (r: seq<Byte>)
    ensures |r| == SizeOf(Widths(fs))
  {
    if fs == [] then []
    else
      assert Widths(fs)[1..] == Widths(fs[1..]);
      EncodeField(fs[0]) + EncodeFields(fs[1..])
  }

  /** Read one member from the front of `s`. */
  function DecodeField(w: Width, s: seq<Byte>): (f: Field)
    requires Size(w) <= |s|
    ensures WidthOf(f) == w
  {
    match w
    case W8 => U8F(s[0])
    case W16 => U16F(ReadBe16(s, 0))
    case W32 => U32F(ReadBe32(s, 0))
    case W64 => U64F(ReadBe64(s, 0))
    case WReserved(n) => Reserved(n)
  }

  /** Decode the members of a packed structure laid out at the front of `s`. */
  function DecodeFields(ws: seq<Width>, s: seq<Byte>): (fs: seq<Field>)
    requires SizeOf(ws) <= |s|
    ensures Widths(fs) == ws
  {
    if ws == [] then []
    else [DecodeField(ws[0], s)] + DecodeFields(ws[1..], s[Size(ws[0])..])
  }

  lemma DecodeEncodeField(f: Field, post: seq<Byte>)
    ensures Size(WidthOf(f)) <= |EncodeField(f) + post|
    ensures DecodeField(WidthOf(f), EncodeField(f) + post) == f
  {
    var e := EncodeField(f);
    match f
    case U8F(b) =>
    case U16F(h) => ReadBe16Prefix(e, post, 0);
    case U32F(w) => ReadBe32Prefix(e, post, 0);
    case U64F(d) => ReadBe64Prefix(e, post, 0);
    case Reserved(n) =>
  }

  /**
   * Round trip: decoding the encoding of a structure, whatever follows it,
   * gives back every member.
   */
  lemma {:induction false} DecodeEncodeFields(fs: seq<Field>, post: seq<Byte>)
    ensures SizeOf(Widths(fs)) <= |EncodeFields(fs) + post|
    ensures DecodeFields(Widths(fs), EncodeFields(fs) + post) == fs
  {
    if fs != [] {
      var rest := EncodeFields(fs[1..]) + post;
      EncodeFieldsCons(fs, post);
      DecodeEncodeField(fs[0], rest);
      DecodeEncodeFields(fs[1..], post);
      DecodeFieldsCons(Widths(fs), EncodeFields(fs) + post);
    }
  }

  lemma EncodeFieldsCons(fs: seq<Field>, post: seq<Byte>)
    requires fs != []
    ensures EncodeFields(fs) + post == EncodeField(fs[0]) + (EncodeFields(fs[1..]) + post)
    ensures (EncodeFields(fs) + post)[Size(WidthOf(fs[0]))..] == EncodeFields(fs[1..]) + post
    ensures Widths(fs)[0] == WidthOf(fs[0]) && Widths(fs)[1..] == Widths(fs[1..])
  {
    var e0 := EncodeField(fs[0]);
    assert (e0 + (EncodeFields(fs[1..]) + post))[|e0|..] == EncodeFields(fs[1..]) + post;
  }

  lemma DecodeFieldsCons(ws: seq<Width>, s: seq<Byte>)
    requires ws != [] && SizeOf(ws) <= |s|
    ensures DecodeFields(ws, s) == [DecodeField(ws[0], s)] + DecodeFields(ws[1..], s[Size(ws[0])..])
  {
  }

  /** A decoded structure depends only on the bytes it occupies. */
  lemma {:induction false} DecodeFieldsPrefix(ws: seq<Width>, s: seq<Byte>, t: seq<Byte>)
    requires SizeOf(ws) <= |s|
    ensures DecodeFields(ws, s + t) == DecodeFields(ws, s)
  {
    if ws != [] {
      var n := Size(ws[0]);
      assert (s + t)[n..] == s[n..] + t;
      DecodeFieldPrefix(ws[0], s, t);
      DecodeFieldsPrefix(ws[1..], s[n..], t);
      DecodeFieldsCons(ws, s);
      DecodeFieldsCons(ws, s + t);
    }
  }

  lemma DecodeFieldPrefix(w: Width, s: seq<Byte>, t: seq<Byte>)
    requires Size(w) <= |s|
    ensures DecodeField(w, s + t) == DecodeField(w, s)
  {
    match w
    case W8 =>
    case W16 => ReadBe16Prefix(s, t, 0);
    case W32 => ReadBe32Prefix(s, t, 0);
    case W64 => ReadBe64Prefix(s, t, 0);
    case WReserved(_) =>
  }

  /** The byte offset of member `k`: the size of the members before it. */
  function OffsetOf(ws: seq<Width>, k: nat): nat
    requires k <= |ws|
  {
    SizeOf(ws[..k])
  }

  lemma {:induction false} SizeOfSplit(ws: seq<Width>, k: nat)
    requires k <= |ws|
    ensures SizeOf(ws) == SizeOf(ws[..k]) + SizeOf(ws[k..])
  {
    if k > 0 {
      assert ws[..k][1..] == ws[1..][..k - 1];
      assert ws[k..] == ws[1..][k - 1..];
      SizeOfSplit(ws[1..], k - 1);
    }
  }

  lemma SizeOfAppend(a: seq<Width>, b: seq<Width>)
    ensures SizeOf(a + b) == SizeOf(a) + SizeOf(b)
  {
    SizeOfSplit(a + b, |a|);
    assert (a + b)[..|a|] == a && (a + b)[|a|..] == b;
  }

  /** Member `k` of a decoded structure is the field read at its offset. */
  lemma {:induction false} DecodeFieldsIndex(ws: seq<Width>, s: seq<Byte>, k: nat)
    requires SizeOf(ws) <= |s| && k < |ws|
    ensures OffsetOf(ws, k) + Size(ws[k]) <= SizeOf(ws)
    ensures DecodeFields(ws, s)[k] == DecodeField(ws[k], s[OffsetOf(ws, k)..])
  {
    SizeOfSplit(ws, k);
    assert ws[k..][0] == ws[k];
    DecodeFieldsCons(ws, s);
    if k > 0 {
      var n := Size(ws[0]);
      assert ws[..k][1..] == ws[1..][..k - 1];
      assert ws[1..][k - 1] == ws[k];
      DecodeFieldsIndex(ws[1..], s[n..], k - 1);
      assert s[n..][OffsetOf(ws[1..], k - 1)..] == s[OffsetOf(ws, k)..];
    }
  }
}
