/** Unsigned machine integers and their little-endian byte encodings. */
module Bytes {

  const TWO_8: nat := 0x100
  const TWO_16: nat := 0x1_0000
  const TWO_24: nat := 0x100_0000
  const TWO_32: nat := 0x1_0000_0000

  type Byte = b: nat | b < TWO_8
  type U16 = n: nat | n < TWO_16
  type U32 = n: nat | n < TWO_32

  /** The four bytes of `v`, least significant first (`u32::to_le_bytes`, `int.to_bytes(4, "little")`). */
  function LeU32(v: U32): (r: seq<Byte>)
    ensures |r| == 4
  {
    [v % TWO_8, (v / TWO_8) % TWO_8, (v / TWO_16) % TWO_8, v / TWO_24]
  }

  /** The two bytes of `v`, least significant first (`int.to_bytes(2, "little")`). */
  function LeU16(v: U16): (r: seq<Byte>)
    ensures |r| == 2
  {
    [v % TWO_8, v / TWO_8]
  }

  /** The u32 whose little-endian bytes start at `offset` (`u32::from_le_bytes`). */
  function U32At(bytes: seq<Byte>, offset: nat): U32
    requires offset + 4 <= |bytes|
  {
    Word(bytes[offset], bytes[offset + 1], bytes[offset + 2], bytes[offset + 3])
  }

  /** The u16 whose little-endian bytes start at `offset` (`u16::from_le_bytes`). */
  function U16At(bytes: seq<Byte>, offset: nat): U16
    requires offset + 2 <= |bytes|
  {
    bytes[offset] + TWO_8 * bytes[offset + 1]
  }

  /** A value below the modulus is its own remainder. */
  lemma SmallRemainder(n: nat, m: nat)
    requires n < m
    ensures n % m == n
  {
  }

  /** Quotient and remainder by one of the byte-aligned powers of two are unique. */
  lemma DivMod(v: nat, d: nat, q: nat, r: nat)
    requires d == TWO_8 || d == TWO_16 || d == TWO_24
    requires r < d && v == q * d + r
    ensures v / d == q && v % d == r
  {
    if d == TWO_8 {
      assert v == TWO_8 * q + r;
    } else if d == TWO_16 {
      assert v == TWO_16 * q + r;
    } else {
      assert v == TWO_24 * q + r;
    }
  }

  /** The u32 with the given little-endian bytes. */
  function Word(b0: Byte, b1: Byte, b2: Byte, b3: Byte): U32 {
    b0 + TWO_8 * b1 + TWO_16 * b2 + TWO_24 * b3
  }

  /** Encoding the u32 assembled from four bytes gives those bytes back. */
  lemma WordBytes(b0: Byte, b1: Byte, b2: Byte, b3: Byte)
    ensures LeU32(Word(b0, b1, b2, b3)) == [b0, b1, b2, b3]
  {
    var v := Word(b0, b1, b2, b3);
    var h2 := b2 + TWO_8 * b3;
    var h1 := b1 + TWO_8 * h2;
    DivMod(v, TWO_8, h1, b0);
    DivMod(h1, TWO_8, h2, b1);
    DivMod(v, TWO_16, h2, b0 + TWO_8 * b1);
    DivMod(h2, TWO_8, b3, b2);
    DivMod(v, TWO_24, b3, b0 + TWO_8 * b1 + TWO_16 * b2);
  }

  /** Assembling the little-endian bytes of a u32 gives it back. */
  lemma BytesWord(v: U32)
    ensures var b := LeU32(v); Word(b[0], b[1], b[2], b[3]) == v
  {
    var b0, h1 := v % TWO_8, v / TWO_8;
    var b1, h2 := h1 % TWO_8, h1 / TWO_8;
    var b2, b3 := h2 % TWO_8, h2 / TWO_8;
    DivMod(v, TWO_16, h2, b0 + TWO_8 * b1);
    DivMod(v, TWO_24, b3, b0 + TWO_8 * b1 + TWO_16 * b2);
  }

  /** Decoding the encoding of a u32 gives it back, wherever the four bytes sit. */
  lemma LeU32Decodes(prefix: seq<Byte>, v: U32, suffix: seq<Byte>)
    ensures U32At(prefix + LeU32(v) + suffix, |prefix|) == v
  {
    var b := prefix + LeU32(v) + suffix;
    var e := LeU32(v);
    assert b[|prefix|] == e[0] && b[|prefix| + 1] == e[1] && b[|prefix| + 2] == e[2] && b[|prefix| + 3] == e[3];
    BytesWord(v);
  }

  /** Encoding the decoded u32 gives back the four bytes it came from. */
  lemma U32AtEncodes(bytes: seq<Byte>, offset: nat)
    requires offset + 4 <= |bytes|
    ensures LeU32(U32At(bytes, offset)) == bytes[offset..offset + 4]
  {
    WordBytes(bytes[offset], bytes[offset + 1], bytes[offset + 2], bytes[offset + 3]);
  }

  /** Decoding the encoding of a u16 gives it back, wherever the two bytes sit. */
  lemma LeU16Decodes(prefix: seq<Byte>, v: U16, suffix: seq<Byte>)
    ensures U16At(prefix + LeU16(v) + suffix, |prefix|) == v
  {
    var b := prefix + LeU16(v) + suffix;
    assert b[|prefix|] == v % TWO_8;
    assert b[|prefix| + 1] == v / TWO_8;
  }

  /** The little-endian encodings of `vs`, one after another. */
  function LeU32s(vs: seq<U32>): (r: seq<Byte>)
    ensures |r| == 4 * |vs|
  {
    if vs == [] then [] else LeU32(vs[0]) + LeU32s(vs[1..])
  }

  /** The little-endian encodings of `vs`, one after another. */
  function LeU16s(vs: seq<U16>): (r: seq<Byte>)
    ensures |r| == 2 * |vs|
  {
    if vs == [] then [] else LeU16(vs[0]) + LeU16s(vs[1..])
  }

  /** Bytes appended after a u32 do not change it. */
  lemma U32AtAppend(a: seq<Byte>, b: seq<Byte>, offset: nat)
    requires offset + 4 <= |a|
    ensures U32At(a + b, offset) == U32At(a, offset)
  {
    assert (a + b)[offset] == a[offset] && (a + b)[offset + 1] == a[offset + 1];
    assert (a + b)[offset + 2] == a[offset + 2] && (a + b)[offset + 3] == a[offset + 3];
  }

  /** Bytes prepended before a u32 move it by their number. */
  lemma U32AtShift(a: seq<Byte>, b: seq<Byte>, offset: nat)
    requires offset + 4 <= |b|
    ensures U32At(a + b, |a| + offset) == U32At(b, offset)
  {
    assert (a + b)[|a| + offset] == b[offset] && (a + b)[|a| + offset + 1] == b[offset + 1];
    assert (a + b)[|a| + offset + 2] == b[offset + 2] && (a + b)[|a| + offset + 3] == b[offset + 3];
  }

  /** Bytes appended after a u16 do not change it. */
  lemma U16AtAppend(a: seq<Byte>, b: seq<Byte>, offset: nat)
    requires offset + 2 <= |a|
    ensures U16At(a + b, offset) == U16At(a, offset)
  {
    assert (a + b)[offset] == a[offset] && (a + b)[offset + 1] == a[offset + 1];
  }

  /** Bytes prepended before a u16 move it by their number. */
  lemma U16AtShift(a: seq<Byte>, b: seq<Byte>, offset: nat)
    requires offset + 2 <= |b|
    ensures U16At(a + b, |a| + offset) == U16At(b, offset)
  {
    assert (a + b)[|a| + offset] == b[offset] && (a + b)[|a| + offset + 1] == b[offset + 1];
  }

  /** Element `k` of an encoded run is read back from byte `4k` of the run. */
  lemma {:induction false} LeU32sAt(vs: seq<U32>, k: nat)
    requires k < |vs|
    ensures U32At(LeU32s(vs), 4 * k) == vs[k]
  {
    var e, rest := LeU32(vs[0]), LeU32s(vs[1..]);
    if k == 0 {
      U32AtAppend(e, rest, 0);
      BytesWord(vs[0]);
    } else {
      U32AtShift(e, rest, 4 * (k - 1));
      LeU32sAt(vs[1..], k - 1);
    }
  }

  /** Element `k` of an encoded run is read back from byte `2k` of the run. */
  lemma {:induction false} LeU16sAt(vs: seq<U16>, k: nat)
    requires k < |vs|
    ensures U16At(LeU16s(vs), 2 * k) == vs[k]
  {
    var e, rest := LeU16(vs[0]), LeU16s(vs[1..]);
    if k == 0 {
      U16AtAppend(e, rest, 0);
      LeU16Decodes([], vs[0], []);
      assert [] + e + [] == e;
    } else {
      U16AtShift(e, rest, 2 * (k - 1));
      LeU16sAt(vs[1..], k - 1);
    }
  }

  /** Appending one value to a run appends its encoding. */
  lemma {:induction false} LeU32sSnoc(vs: seq<U32>, v: U32)
    ensures LeU32s(vs + [v]) == LeU32s(vs) + LeU32(v)
  {
    if vs != [] {
      assert (vs + [v])[1..] == vs[1..] + [v];
      LeU32sSnoc(vs[1..], v);
    }
  }

  /** Appending one value to a run appends its encoding. */
  lemma {:induction false} LeU16sSnoc(vs: seq<U16>, v: U16)
    ensures LeU16s(vs + [v]) == LeU16s(vs) + LeU16(v)
  {
    if vs != [] {
      assert (vs + [v])[1..] == vs[1..] + [v];
      LeU16sSnoc(vs[1..], v);
    }
  }

  /** Encoding the decoded u16 gives back the two bytes it came from. */
  lemma U16AtEncodes(bytes: seq<Byte>, offset: nat)
    requires offset + 2 <= |bytes|
    ensures LeU16(U16At(bytes, offset)) == bytes[offset..offset + 2]
  {
    DivMod(U16At(bytes, offset), TWO_8, bytes[offset + 1], bytes[offset]);
  }
}
