/**
 * Helpers shared by the Blender exporters: byte-size prefixes and Pascal strings. A Python
 * `str` is a sequence of Unicode scalar values; `bytearray(s, 'utf-8')` is `Utf8.Encode`.
 */
module OzyCommon {
  import opened Wrappers
  import opened Bytes
  import opened Utf8
  import Io

  /** The exception `int.to_bytes` raises when the value does not fit. */
  datatype PyError = OverflowError

  /** `size_as_u32`: the byte size of `count` items of `typeSize` bytes as a little-endian u32. */
  function SizeAsU32(count: nat, typeSize: nat): (r: Result<seq<Byte>, PyError>)
    ensures r.Ok? <==> count * typeSize < TWO_32
    ensures r.Ok? ==> |r.value| == 4 && U32At(r.value, 0) == count * typeSize
  {
    var size := count * typeSize;
    if size < TWO_32 then
      LeU32Decodes([], size, []);
      assert [] + LeU32(size) + [] == LeU32(size);
      Ok(LeU32(size))
    else
      Err(OverflowError)
  }

  /** `len_as_u32`: a second copy of `size_as_u32` under another name. */
  function LenAsU32(count: nat, typeSize: nat): (r: Result<seq<Byte>, PyError>)
    ensures r.Ok? <==> count * typeSize < TWO_32
  {
    var size := count * typeSize;
    if size < TWO_32 then Ok(LeU32(size)) else Err(OverflowError)
  }

  /** The two helpers compute the same bytes and fail on the same inputs. */
  lemma LenAsU32IsSizeAsU32(count: nat, typeSize: nat)
    ensures LenAsU32(count, typeSize) == SizeAsU32(count, typeSize)
  {
  }

  /**
   * `write_pascal_strings` as written: each string prefixed with `len(s)`, its number of
   * characters, followed by its UTF-8 bytes.
   */
  function WritePascalStringsAsWritten(strs: seq<seq<Scalar>>): (r: Result<seq<Byte>, PyError>)
    ensures r.Ok? <==> forall i | 0 <= i < |strs| :: |strs[i]| < TWO_32
  {
    if strs == [] then Ok([])
    else
      var prefix :- LenAsU32(|strs[0]|, 1);
      var more :- WritePascalStringsAsWritten(strs[1..]);
      Ok(prefix + Encode(strs[0]) + more)
  }

  /**
   * The Rust reader rejects what the as-written writer produces for "é" (U+00E9): the
   * prefix says one byte, the reader takes the lone lead byte 0xC3, which is not UTF-8.
   */
  lemma AsWrittenRejectsNonAscii()
    ensures WritePascalStringsAsWritten([[0xE9]]) == Ok([1, 0, 0, 0, 0xC3, 0xA9])
    ensures Io.ReadPascalStrings([1, 0, 0, 0, 0xC3, 0xA9], 1) == Err(Io.InvalidUtf8)
  {
    var s: seq<Scalar> := [0xE9];
    assert Encode(s) == [0xC3, 0xA9] by {
      assert Encode(s[1..]) == [];
    }
    assert WritePascalStringsAsWritten([s][1..]) == Ok([]);
    assert LeU32(1) == [1, 0, 0, 0];
    assert WritePascalStringsAsWritten([s]) == Ok(LeU32(1) + [0xC3, 0xA9] + []);
    assert LeU32(1) + [0xC3, 0xA9] + [] == [1, 0, 0, 0, 0xC3, 0xA9];
    assert [s] == [[0xE9]];
    var file: seq<Byte> := [1, 0, 0, 0, 0xC3, 0xA9];
    assert file[..4] == [1, 0, 0, 0] && file[4..] == [0xC3, 0xA9];
    assert Io.ReadU32(file) == Ok((1, [0xC3, 0xA9]));
    var lone: seq<Byte> := [0xC3];
    var tail: seq<Byte> := [0xC3, 0xA9];
    assert tail[..1] == lone && tail[1..] == [0xA9];
    assert Io.ReadExact(tail, 1) == Ok((lone, [0xA9]));
    assert WellFormedPrefix(lone) == 0;
    assert !ValidUtf8(lone);
  }

  /** The evidently intended writer: each string prefixed with the number of its UTF-8 bytes. */
  function WritePascalStrings(strs: seq<seq<Scalar>>): (r: Result<seq<Byte>, PyError>)
    ensures r.Ok? <==> forall i | 0 <= i < |strs| :: |Encode(strs[i])| < TWO_32
  {
    if strs == [] then Ok([])
    else
      var bytes := Encode(strs[0]);
      var prefix :- LenAsU32(|bytes|, 1);
      var more :- WritePascalStrings(strs[1..]);
      Ok(prefix + bytes + more)
  }

  /** The UTF-8 bytes of each string. */
  function EncodeAll(strs: seq<seq<Scalar>>): (r: seq<Io.RustString>)
    ensures |r| == |strs| && forall i | 0 <= i < |strs| :: r[i] == Encode(strs[i])
  {
    if strs == [] then []
    else
      EncodeIsValid(strs[0]);
      [Encode(strs[0])] + EncodeAll(strs[1..])
  }

  /** The corrected writer lays strings out exactly as the Rust writer does. */
  lemma {:induction false} WriterMatchesRust(strs: seq<seq<Scalar>>)
    requires WritePascalStrings(strs).Ok?
    ensures WritePascalStrings(strs).value == Io.WritePascalStrings(EncodeAll(strs))
  {
    if strs != [] {
      var e := EncodeAll(strs);
      var n := |e[0]|;
      assert e[0] == Encode(strs[0]) && n < TWO_32;
      assert e[1..] == EncodeAll(strs[1..]);
      WriterMatchesRust(strs[1..]);
      assert WritePascalStrings(strs).value == LeU32(n) + e[0] + WritePascalStrings(strs[1..]).value;
      SmallRemainder(n, TWO_32);
      assert Io.WritePascalStrings(e) == LeU32(n) + e[0] + Io.WritePascalStrings(e[1..]);
    }
  }

  /** Whatever the corrected writer produces, the Rust reader reads back as the same strings. */
  lemma PascalStringsRoundTrip(strs: seq<seq<Scalar>>, rest: seq<Byte>)
    requires WritePascalStrings(strs).Ok?
    ensures Io.ReadPascalStrings(WritePascalStrings(strs).value + rest, |strs|) == Ok((EncodeAll(strs), rest))
  {
    WriterMatchesRust(strs);
    Io.PascalStringsRoundTrip(EncodeAll(strs), rest);
  }

  /** On ASCII strings the character count is the byte count, so the two writers agree. */
  lemma {:induction false} WritersAgreeOnAscii(strs: seq<seq<Scalar>>)
    requires forall i, j | 0 <= i < |strs| && 0 <= j < |strs[i]| :: strs[i][j] < 0x80
    ensures WritePascalStringsAsWritten(strs) == WritePascalStrings(strs)
  {
    if strs != [] {
      EncodeLength(strs[0]);
      WritersAgreeOnAscii(strs[1..]);
    }
  }

  /** Two u32 prefixes followed by the same bytes agree only when the prefixes and what follows agree. */
  lemma SamePrefixed(n: U32, m: U32, body: seq<Byte>, x: seq<Byte>, y: seq<Byte>)
    requires LeU32(n) + (body + x) == LeU32(m) + (body + y)
    ensures n == m && x == y
  {
    LeU32Decodes([], n, body + x);
    LeU32Decodes([], m, body + y);
    assert [] + LeU32(n) + (body + x) == LeU32(n) + (body + x);
    assert [] + LeU32(m) + (body + y) == LeU32(m) + (body + y);
    assert x == (LeU32(n) + (body + x))[4 + |body|..];
    assert y == (LeU32(m) + (body + y))[4 + |body|..];
  }

  /**
   * The as-written writer lays the strings out exactly as the Rust writer does for their
   * UTF-8 bytes.
   */
  predicate SameLayout(strs: seq<seq<Scalar>>) {
    && WritePascalStringsAsWritten(strs).Ok?
    && (forall i | 0 <= i < |strs| :: |Encode(strs[i])| < TWO_32)
    && WritePascalStringsAsWritten(strs).value == Io.WritePascalStrings(EncodeAll(strs))
  }

  /** The as-written layout of a non-empty list: the first string's prefix and bytes, then the others. */
  lemma AsWrittenFirst(strs: seq<seq<Scalar>>)
    requires strs != [] && WritePascalStringsAsWritten(strs).Ok?
    ensures |strs[0]| < TWO_32 && WritePascalStringsAsWritten(strs[1..]).Ok?
    ensures WritePascalStringsAsWritten(strs).value
            == LeU32(|strs[0]|) + (Encode(strs[0]) + WritePascalStringsAsWritten(strs[1..]).value)
  {
  }

  /** The Rust layout of a non-empty list whose first length fits in a u32. */
  lemma RustWriterFirst(e: seq<seq<Byte>>)
    requires e != [] && |e[0]| < TWO_32
    ensures Io.WritePascalStrings(e) == LeU32(|e[0]|) + (e[0] + Io.WritePascalStrings(e[1..]))
  {
    SmallRemainder(|e[0]|, TWO_32);
  }

  /** With the same layout, the first prefix is both counts, so the first string is ASCII; the rest keep the same layout. */
  lemma SameLayoutHead(strs: seq<seq<Scalar>>)
    requires strs != [] && SameLayout(strs)
    ensures forall j | 0 <= j < |strs[0]| :: strs[0][j] < 0x80
    ensures SameLayout(strs[1..])
  {
    var s := strs[0];
    var written := WritePascalStringsAsWritten(strs[1..]).value;
    var expected := Io.WritePascalStrings(EncodeAll(strs[1..]));
    AsWrittenFirst(strs);
    var e := EncodeAll(strs);
    assert e[0] == Encode(s) && e[1..] == EncodeAll(strs[1..]);
    RustWriterFirst(e);
    SamePrefixed(|s|, |Encode(s)|, Encode(s), written, expected);
    EncodeLength(s);
    assert forall i | 0 <= i < |strs[1..]| :: strs[1..][i] == strs[i + 1];
  }

  /**
   * When the as-written writer lays strings out exactly as the Rust writer does for their
   * UTF-8 bytes, every prefix is both the character count and the byte count, so every
   * string is ASCII.
   */
  lemma {:induction false} SameLayoutOnlyAscii(strs: seq<seq<Scalar>>)
    requires SameLayout(strs)
    ensures forall i, j | 0 <= i < |strs| && 0 <= j < |strs[i]| :: strs[i][j] < 0x80
  {
    if strs != [] {
      SameLayoutHead(strs);
      SameLayoutOnlyAscii(strs[1..]);
      forall i, j | 0 <= i < |strs| && 0 <= j < |strs[i]|
        ensures strs[i][j] < 0x80
      {
        if i > 0 {
          assert strs[i] == strs[1..][i - 1];
        }
      }
    }
  }

  /**
   * The as-written writer round-trips through the Rust reader exactly on ASCII input: any
   * string holding a character from U+0080 up makes the read-back differ.
   */
  lemma AsWrittenRoundTripsIffAscii(strs: seq<seq<Scalar>>, rest: seq<Byte>)
    requires WritePascalStringsAsWritten(strs).Ok?
    ensures Io.ReadPascalStrings(WritePascalStringsAsWritten(strs).value + rest, |strs|) == Ok((EncodeAll(strs), rest))
            <==> forall i, j | 0 <= i < |strs| && 0 <= j < |strs[i]| :: strs[i][j] < 0x80
  {
    var written := WritePascalStringsAsWritten(strs).value;
    if forall i, j | 0 <= i < |strs| && 0 <= j < |strs[i]| :: strs[i][j] < 0x80 {
      WritersAgreeOnAscii(strs);
      PascalStringsRoundTrip(strs, rest);
    }
    if Io.ReadPascalStrings(written + rest, |strs|) == Ok((EncodeAll(strs), rest)) {
      var expected := Io.WritePascalStrings(EncodeAll(strs));
      assert written + rest == expected + rest;
      assert written == (written + rest)[..|written|];
      assert expected == (expected + rest)[..|expected|];
      assert forall i | 0 <= i < |strs| :: |Encode(strs[i])| < TWO_32 by {
        assert forall i | 0 <= i < |strs| :: EncodeAll(strs)[i] == Encode(strs[i]);
      }
      SameLayoutOnlyAscii(strs);
    }
  }
}
