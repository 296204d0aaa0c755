/**
 * Binary decoding and encoding of the engine's file formats: DirectDraw Surface headers,
 * runs of little-endian integers, OzyMesh material records and length-prefixed strings.
 * A file is the sequence of bytes still unread; a read returns what it took and the rest.
 */
module Io {
  import opened Wrappers
  import opened Bytes
  import opened Utf8

  /** Why a read stops: the file ends too early, or string bytes are not UTF-8 (a panic in the source). */
  datatype IoError = UnexpectedEof | InvalidUtf8

  /** `read_exact`: exactly `n` bytes, or an error when fewer remain. */
  function ReadExact(file: seq<Byte>, n: nat): (r: Result<(seq<Byte>, seq<Byte>), IoError>)
    ensures r.Err? <==> |file| < n
    ensures r.Ok? ==> |r.value.0| == n && r.value.0 + r.value.1 == file
  {
    if |file| < n then Err(UnexpectedEof) else Ok((file[..n], file[n..]))
  }

  /** `read_u32`. */
  function ReadU32(file: seq<Byte>): (r: Result<(U32, seq<Byte>), IoError>)
    ensures r.Err? <==> |file| < 4
    ensures r.Ok? ==> file == LeU32(r.value.0) + r.value.1
    ensures r.Ok? ==> r.value.0 == U32At(file, 0) && r.value.1 == file[4..]
  {
    var (bytes, rest) :- ReadExact(file, 4);
    U32AtEncodes(file, 0);
    Ok((U32At(bytes, 0), rest))
  }

  /** `read_u32` reads back an encoded u32 and leaves what follows it. */
  lemma ReadU32RoundTrip(v: U32, rest: seq<Byte>)
    ensures ReadU32(LeU32(v) + rest) == Ok((v, rest))
  {
    var file := LeU32(v) + rest;
    assert file[..4] == LeU32(v) && file[4..] == rest;
    LeU32Decodes([], v, []);
    assert [] + LeU32(v) + [] == LeU32(v);
  }

  // ---------------------------------------------------------------- DDS headers

  /** `DDS_PixelFormat` (the `DDS_PIXELFORMAT` structure of the DirectDraw Surface format). */
  datatype PixelFormat = PixelFormat(
    size: U32, flags: U32, fourCc: U32, rgbBitcount: U32,
    rBitmask: U32, gBitmask: U32, bBitmask: U32, aBitmask: U32)

  /** `DDSHeader_DXT10`; the two enumerations are kept as their raw 32-bit values. */
  datatype Dxt10Header = Dxt10Header(
    dxgiFormat: U32, resourceDimension: U32, miscFlag: U32, arraySize: U32, miscFlags2: U32)

  type Reserved1 = s: seq<U32> | |s| == 11 witness [0, 0, 0, 0, 0, 0, 0, 0, 0, 0, 0]

  /** `DDSHeader`: the magic word, the `DDS_HEADER` structure and the DXT10 extension. */
  datatype DdsHeader = DdsHeader(
    magicWord: U32, size: U32, flags: U32, height: U32, width: U32,
    pitchOrLinearSize: U32, depth: U32, mipmapCount: U32, reserved1: Reserved1,
    spf: PixelFormat, caps: U32, caps2: U32, caps3: U32, caps4: U32, reserved2: U32,
    dx10Header: Dxt10Header)

  const DDS_MAGIC: U32 := 0x2053_4444
  /** `REQUIRED_BC7_SIZE`: the size `DDS_HEADER` declares for itself. */
  const REQUIRED_BC7_SIZE: U32 := 124
  /** `TRUE_BC7_HEADER_SIZE`: magic word, `DDS_HEADER` and `DDS_HEADER_DXT10`. */
  const TRUE_BC7_HEADER_SIZE: nat := 148
  const DXGI_FORMAT_UNKNOWN: U32 := 0
  const RESOURCE_DIMENSION_TEXTURE2D: U32 := 3

  /** The u32 whose little-endian bytes are the four characters, first character lowest. */
  function FourCc(c0: Byte, c1: Byte, c2: Byte, c3: Byte): (r: U32)
    ensures LeU32(r) == [c0, c1, c2, c3]
  {
    var r := c0 + c1 * TWO_8 + c2 * TWO_16 + c3 * TWO_24;
    assert r == U32At([c0, c1, c2, c3], 0);
    U32AtEncodes([c0, c1, c2, c3], 0);
    r
  }

  /** `DDS_PixelFormat::default`: four-cc "DX10", size 32, 8 bits per pixel, everything else 0. */
  function DefaultPixelFormat(): (r: PixelFormat)
    ensures LeU32(r.fourCc) == ['D' as Byte, 'X' as Byte, '1' as Byte, '0' as Byte]
    ensures r.fourCc == 0x3031_5844
  {
    PixelFormat(32, 0, FourCc('D' as Byte, 'X' as Byte, '1' as Byte, '0' as Byte), 8, 0, 0, 0, 0)
  }

  /** `DDSHeader_DXT10::default`. */
  function DefaultDxt10Header(): Dxt10Header {
    Dxt10Header(DXGI_FORMAT_UNKNOWN, RESOURCE_DIMENSION_TEXTURE2D, 0, 1, 0)
  }

  /** `DDSHeader::default`. */
  function DefaultHeader(): DdsHeader {
    DdsHeader(DDS_MAGIC, REQUIRED_BC7_SIZE, 0, 0, 0, 0, 0, 1, [0, 0, 0, 0, 0, 0, 0, 0, 0, 0, 0],
              DefaultPixelFormat(), 0, 0, 0, 0, 0, DefaultDxt10Header())
  }

  /**
   * The header laid out as C lays out the structures the source declares `repr(C)`:
   * every field a 4-byte word, in declaration order. This is the independent
   * description of where each field lives.
   */
  function PixelFormatWords(p: PixelFormat): seq<U32> {
    [p.size, p.flags, p.fourCc, p.rgbBitcount, p.rBitmask, p.gBitmask, p.bBitmask, p.aBitmask]
  }

  function Dxt10Words(d: Dxt10Header): seq<U32> {
    [d.dxgiFormat, d.resourceDimension, d.miscFlag, d.arraySize, d.miscFlags2]
  }

  function HeaderWords(h: DdsHeader): (r: seq<U32>)
    ensures |r| * 4 == TRUE_BC7_HEADER_SIZE
  {
    [h.magicWord, h.size, h.flags, h.height, h.width, h.pitchOrLinearSize, h.depth, h.mipmapCount]
    + h.reserved1 + PixelFormatWords(h.spf)
    + [h.caps, h.caps2, h.caps3, h.caps4, h.reserved2] + Dxt10Words(h.dx10Header)
  }

  /** The bytes of a header as it sits at the start of a `.dds` file. */
  function HeaderBytes(h: DdsHeader): (r: seq<Byte>)
    ensures |r| == TRUE_BC7_HEADER_SIZE
  {
    LeU32s(HeaderWords(h))
  }

  /** `DDS_PixelFormat::from_header_bytes`: eight words in a row from word 19 (byte 76). */
  function PixelFormatFromHeaderBytes(header: seq<Byte>): PixelFormat
    requires |header| >= TRUE_BC7_HEADER_SIZE
  {
    var start := 19 * 4;
    PixelFormat(
      U32At(header, start), U32At(header, start + 4), U32At(header, start + 8), U32At(header, start + 12),
      U32At(header, start + 16), U32At(header, start + 20), U32At(header, start + 24), U32At(header, start + 28))
  }

  /**
   * `DDSHeader_DXT10::from_header_bytes`: five words in a row, starting where the
   * extension begins, the size of the whole header less the size of the extension.
   */
  function Dxt10FromHeaderBytes(header: seq<Byte>): Dxt10Header
    requires |header| >= TRUE_BC7_HEADER_SIZE
  {
    var start := TRUE_BC7_HEADER_SIZE - 5 * 4;
    Dxt10Header(U32At(header, start), U32At(header, start + 4), U32At(header, start + 8),
                U32At(header, start + 12), U32At(header, start + 16))
  }

  /**
   * `DDSHeader::from_file`: read the 148 header bytes (the source unwraps the read and
   * panics on a short file), take four fields of `DDS_HEADER`, the pixel format and the
   * extension, and leave every other field at its default.
   */
  function HeaderFromFile(file: seq<Byte>): (r: Result<(DdsHeader, seq<Byte>), IoError>)
    ensures r.Err? <==> |file| < TRUE_BC7_HEADER_SIZE
    ensures r.Ok? ==> r.value.1 == file[TRUE_BC7_HEADER_SIZE..]
    ensures r.Ok? ==>
      var h := r.value.0;
      && h.magicWord == DDS_MAGIC && h.size == REQUIRED_BC7_SIZE
      && h.flags == 0 && h.depth == 0 && h.caps == 0 && h.reserved2 == 0
    ensures r.Ok? ==>
      var h := r.value.0;
      && h.(height := 0, width := 0, pitchOrLinearSize := 0, mipmapCount := 1,
            spf := DefaultPixelFormat(), dx10Header := DefaultDxt10Header()) == DefaultHeader()
      && h.height == U32At(file, 12) && h.width == U32At(file, 16)
      && h.pitchOrLinearSize == U32At(file, 20) && h.mipmapCount == U32At(file, 28)
  {
    var (buffer, rest) :- ReadExact(file, TRUE_BC7_HEADER_SIZE);
    var height := U32At(buffer, 12);
    var width := U32At(buffer, 16);
    var pitch := U32At(buffer, 20);
    var mipmapCount := U32At(buffer, 28);
    Ok((DefaultHeader().(
          height := height, width := width, pitchOrLinearSize := pitch, mipmapCount := mipmapCount,
          spf := PixelFormatFromHeaderBytes(buffer), dx10Header := Dxt10FromHeaderBytes(buffer)),
        rest))
  }

  /** The pixel format is read from where the C layout puts it. */
  lemma PixelFormatRoundTrip(h: DdsHeader)
    ensures PixelFormatFromHeaderBytes(HeaderBytes(h)) == h.spf
  {
    var words := HeaderWords(h);
    LeU32sAt(words, 19); LeU32sAt(words, 20); LeU32sAt(words, 21); LeU32sAt(words, 22);
    LeU32sAt(words, 23); LeU32sAt(words, 24); LeU32sAt(words, 25); LeU32sAt(words, 26);
  }

  /** The DXT10 extension is read from where the C layout puts it. */
  lemma Dxt10RoundTrip(h: DdsHeader)
    ensures Dxt10FromHeaderBytes(HeaderBytes(h)) == h.dx10Header
  {
    var words := HeaderWords(h);
    LeU32sAt(words, 32); LeU32sAt(words, 33); LeU32sAt(words, 34); LeU32sAt(words, 35); LeU32sAt(words, 36);
  }

  /**
   * The offsets the reader uses are the C layout's: reading a laid-out header gives back
   * its height, width, pitch, mipmap count, pixel format and extension, and the defaults
   * for everything else.
   */
  lemma HeaderRoundTrip(h: DdsHeader, rest: seq<Byte>)
    ensures HeaderFromFile(HeaderBytes(h) + rest)
         == Ok((DefaultHeader().(height := h.height, width := h.width,
                                 pitchOrLinearSize := h.pitchOrLinearSize, mipmapCount := h.mipmapCount,
                                 spf := h.spf, dx10Header := h.dx10Header),
                rest))
  {
    var words := HeaderWords(h);
    var file := HeaderBytes(h) + rest;
    assert file[..TRUE_BC7_HEADER_SIZE] == HeaderBytes(h);
    assert file[TRUE_BC7_HEADER_SIZE..] == rest;
    LeU32sAt(words, 3);
    LeU32sAt(words, 4);
    LeU32sAt(words, 5);
    LeU32sAt(words, 7);
    PixelFormatRoundTrip(h);
    Dxt10RoundTrip(h);
  }

  // ---------------------------------------------------------------- block-compressed pitch

  /** The number of 4-pixel blocks across `width`, never fewer than one. */
  function BlocksAcross(width: nat): (n: nat)
    ensures n >= 1
    ensures width == 0 ==> n == 1
    ensures width > 0 ==> 4 * (n - 1) < width <= 4 * n
  {
    if 1 > (width + 3) / 4 then 1 else (width + 3) / 4
  }

  /**
   * `compute_pitch_bc`: the bytes in one row of blocks. The source computes in u32 and a
   * result that does not fit overflows (a panic in debug builds), so callers keep it in range.
   */
  function ComputePitchBc(width: U32, blockSize: U32): (r: U32)
    requires width + 3 < TWO_32 && BlocksAcross(width) * blockSize < TWO_32
    ensures r >= blockSize
    ensures r == BlocksAcross(width) * blockSize
  {
    var blocks := if 1 > (width + 3) / 4 then 1 else (width + 3) / 4;
    blocks * blockSize
  }

  // ---------------------------------------------------------------- material records

  /** The raw index meaning "no texture". */
  const NO_TEXTURE: U32 := 0xFFFF_FFFF

  /** The texture-index decoding of `OzyMesh::from_file`: the sentinel means none. */
  function TextureIndex(raw: U32): (r: Option<U32>)
    ensures r.None? <==> raw == NO_TEXTURE
    ensures r.Some? ==> r.value == raw
  {
    if raw == NO_TEXTURE then None else Some(raw)
  }

  /** What a writer stores for an optional texture index. */
  function RawTextureIndex(idx: Option<U32>): U32 {
    match idx
    case None => NO_TEXTURE
    case Some(i) => i
  }

  /** Every raw value decodes and re-encodes to itself. */
  lemma TextureIndexRoundTrip(raw: U32)
    ensures RawTextureIndex(TextureIndex(raw)) == raw
  {
  }

  /** Every optional index that does not collide with the sentinel survives encoding. */
  lemma RawTextureIndexRoundTrip(idx: Option<U32>)
    requires idx != Some(NO_TEXTURE)
    ensures TextureIndex(RawTextureIndex(idx)) == idx
  {
  }

  /** `OzyMaterial`, its float fields kept as raw IEEE-754 bit patterns. */
  datatype Material = Material(
    baseColor: seq<U32>, emissiveFactor: seq<U32>, baseRoughness: U32,
    colorIdx: Option<U32>, normalIdx: Option<U32>, armIdx: Option<U32>, emissiveIdx: Option<U32>)

  /** The bytes of one material record: 4 + 3 + 1 float words, then four texture indices. */
  const MATERIAL_RECORD_SIZE: nat := 48

  /** One material record of `OzyMesh::from_file`; the source unwraps each read. */
  method ReadMaterial(file: seq<Byte>) returns (r: Result<(Material, seq<Byte>), IoError>)
    ensures r.Err? <==> |file| < MATERIAL_RECORD_SIZE
    ensures r.Ok? ==> r.value.1 == file[MATERIAL_RECORD_SIZE..]
    ensures r.Ok? ==> |r.value.0.baseColor| == 4 && |r.value.0.emissiveFactor| == 3
    ensures r.Ok? ==> r.value.0.colorIdx == TextureIndex(U32At(file, 32))
    ensures r.Ok? ==> r.value.0.normalIdx == TextureIndex(U32At(file, 36))
    ensures r.Ok? ==> r.value.0.armIdx == TextureIndex(U32At(file, 40))
    ensures r.Ok? ==> r.value.0.emissiveIdx == TextureIndex(U32At(file, 44))
  {
    if |file| < MATERIAL_RECORD_SIZE {
      return Err(UnexpectedEof);
    }
    var baseColorBytes := file[..16];
    var baseColor := DecodeU32s(baseColorBytes);
    var emissiveBytes := file[16..28];
    var emissiveFactor := DecodeU32s(emissiveBytes);
    var roughness := U32At(file, 28);
    var color := TextureIndex(U32At(file, 32));
    var normal := TextureIndex(U32At(file, 36));
    var arm := TextureIndex(U32At(file, 40));
    var emissive := TextureIndex(U32At(file, 44));
    r := Ok((Material(baseColor, emissiveFactor, roughness, color, normal, arm, emissive), file[48..]));
  }

  // ---------------------------------------------------------------- integer runs

  /** The little-endian u32s of a buffer, one from each group of four bytes. */
  function U32Run(bytes: seq<Byte>): (v: seq<U32>)
    requires |bytes| % 4 == 0
    ensures |v| * 4 == |bytes|
  {
    seq(|bytes| / 4, k requires 0 <= k < |bytes| / 4 => U32At(bytes, 4 * k))
  }

  /** The little-endian u16s of a buffer, one from each pair of bytes. */
  function U16Run(bytes: seq<Byte>): (v: seq<U16>)
    requires |bytes| % 2 == 0
    ensures |v| * 2 == |bytes|
  {
    seq(|bytes| / 2, k requires 0 <= k < |bytes| / 2 => U16At(bytes, 2 * k))
  }

  /** `read_u32_data`'s conversion loop: one u32 from each group of four bytes. */
  method DecodeU32s(bytes: seq<Byte>) returns (v: seq<U32>)
    requires |bytes| % 4 == 0
    ensures v == U32Run(bytes)
  {
    v := [];
    var i := 0;
    while i < |bytes|
      invariant i % 4 == 0 && 0 <= i <= |bytes|
      invariant |v| * 4 == i
      invariant forall k :: 0 <= k < |v| ==> v[k] == U32At(bytes, 4 * k)
    {
      v := v + [U32At(bytes, i)];
      i := i + 4;
    }
  }

  /** `read_u16_data`'s conversion loop: one u16 from each pair of bytes. */
  method DecodeU16s(bytes: seq<Byte>) returns (v: seq<U16>)
    requires |bytes| % 2 == 0
    ensures v == U16Run(bytes)
  {
    v := [];
    var i := 0;
    while i < |bytes|
      invariant i % 2 == 0 && 0 <= i <= |bytes|
      invariant |v| * 2 == i
      invariant forall k :: 0 <= k < |v| ==> v[k] == U16At(bytes, 2 * k)
    {
      v := v + [U16At(bytes, i)];
      i := i + 2;
    }
  }

  /** `read_u32_data`: `count` little-endian u32s from the next `4 * count` bytes. */
  function ReadU32Data(file: seq<Byte>, count: nat): (r: Result<(seq<U32>, seq<Byte>), IoError>)
    ensures r.Err? <==> |file| < 4 * count
    ensures r.Ok? ==> |r.value.0| == count && r.value.1 == file[4 * count..]
    ensures r.Ok? ==> forall k :: 0 <= k < count ==> r.value.0[k] == U32At(file, 4 * k)
  {
    var (bytes, rest) :- ReadExact(file, 4 * count);
    assert forall k :: 0 <= k < count ==> U32At(bytes, 4 * k) == U32At(file, 4 * k) by {
      forall k | 0 <= k < count {
        U32AtAppend(bytes, rest, 4 * k);
      }
    }
    Ok((U32Run(bytes), rest))
  }

  /** `read_u16_data`: `count` little-endian u16s from the next `2 * count` bytes. */
  function ReadU16Data(file: seq<Byte>, count: nat): (r: Result<(seq<U16>, seq<Byte>), IoError>)
    ensures r.Err? <==> |file| < 2 * count
    ensures r.Ok? ==> |r.value.0| == count && r.value.1 == file[2 * count..]
    ensures r.Ok? ==> forall k :: 0 <= k < count ==> r.value.0[k] == U16At(file, 2 * k)
  {
    var (bytes, rest) :- ReadExact(file, 2 * count);
    assert forall k :: 0 <= k < count ==> U16At(bytes, 2 * k) == U16At(file, 2 * k) by {
      forall k | 0 <= k < count {
        U16AtAppend(bytes, rest, 2 * k);
      }
    }
    Ok((U16Run(bytes), rest))
  }

  /** Decoding an encoded run gives back exactly its values. */
  lemma U32RunDecodes(vs: seq<U32>)
    ensures U32Run(LeU32s(vs)) == vs
  {
    forall k | 0 <= k < |vs|
      ensures U32Run(LeU32s(vs))[k] == vs[k]
    {
      LeU32sAt(vs, k);
    }
  }

  /** Decoding an encoded run gives back exactly its values. */
  lemma U16RunDecodes(vs: seq<U16>)
    ensures U16Run(LeU16s(vs)) == vs
  {
    forall k | 0 <= k < |vs|
      ensures U16Run(LeU16s(vs))[k] == vs[k]
    {
      LeU16sAt(vs, k);
    }
  }

  /** Reading a written run gives back exactly the values written and leaves what followed. */
  lemma U32RunRoundTrip(vs: seq<U32>, rest: seq<Byte>)
    ensures ReadU32Data(LeU32s(vs) + rest, |vs|) == Ok((vs, rest))
  {
    var file := LeU32s(vs) + rest;
    assert file[..4 * |vs|] == LeU32s(vs) && file[4 * |vs|..] == rest;
    U32RunDecodes(vs);
  }

  /** Reading a written run gives back exactly the values written and leaves what followed. */
  lemma U16RunRoundTrip(vs: seq<U16>, rest: seq<Byte>)
    ensures ReadU16Data(LeU16s(vs) + rest, |vs|) == Ok((vs, rest))
  {
    var file := LeU16s(vs) + rest;
    assert file[..2 * |vs|] == LeU16s(vs) && file[2 * |vs|..] == rest;
    U16RunDecodes(vs);
  }

  /**
   * The index count of the superseded `OzyMeshOBSOLETE::load`: the block's byte count
   * divided by the size of a u16, although the block is then read as u32s.
   */
  function ObsoleteIndexCount(byteCount: U32): nat {
    byteCount / 2
  }

  /** That loader asks for twice as many bytes as a 32-bit index block of `byteCount` bytes holds. */
  lemma ObsoleteIndexCountOverreads(byteCount: U32)
    requires byteCount % 4 == 0
    ensures 4 * ObsoleteIndexCount(byteCount) == 2 * byteCount
  {
  }

  // ---------------------------------------------------------------- Pascal strings

  /** A Rust `String`, represented by its bytes, which are always well-formed UTF-8. */
  type RustString = b: seq<Byte> | ValidUtf8(b)

  /**
   * `read_pascal_strings`: `count` times a 4-byte little-endian byte length and that many
   * bytes, which must be UTF-8 (the source panics otherwise).
   */
  function ReadPascalStrings(file: seq<Byte>, count: nat): (r: Result<(seq<RustString>, seq<Byte>), IoError>)
    ensures r.Ok? ==> |r.value.0| == count && |r.value.1| <= |file|
    ensures r.Ok? ==> (forall i | 0 <= i < count :: |r.value.0[i]| < TWO_32)
                      && file == WritePascalStrings(r.value.0) + r.value.1
    ensures count > 0 && |file| < 4 ==> r == Err(UnexpectedEof)
    ensures count > 0 && 4 <= |file| < 4 + U32At(file, 0) ==> r == Err(UnexpectedEof)
    ensures count > 0 && 4 <= |file| && 4 + U32At(file, 0) <= |file| && !ValidUtf8(file[4..4 + U32At(file, 0)]) ==>
              r == Err(InvalidUtf8)
    decreases count
  {
    if count == 0 then Ok(([], file))
    else
      var (len, afterLen) :- ReadU32(file);
      var (bytes, afterBytes) :- ReadExact(afterLen, len);
      assert bytes == file[4..4 + len];
      if !ValidUtf8(bytes) then Err(InvalidUtf8)
      else
        var (more, rest) :- ReadPascalStrings(afterBytes, count - 1);
        PrefixedLayout(file, len, afterLen, bytes, afterBytes, more, rest);
        Ok(([bytes] + more, rest))
  }

  /** The number of bytes in all the strings together. */
  function TotalLength(strs: seq<seq<Byte>>): nat {
    if strs == [] then 0 else |strs[0]| + TotalLength(strs[1..])
  }

  /** `write_pascal_strings`: each string's byte length cut to a u32 (`as u32`), then its bytes. */
  function WritePascalStrings(strs: seq<seq<Byte>>): (r: seq<Byte>)
    ensures |r| == 4 * |strs| + TotalLength(strs)
  {
    if strs == [] then []
    else LeU32(|strs[0]| % TWO_32) + strs[0] + WritePascalStrings(strs[1..])
  }

  /** One length-prefixed string in front of readable strings reads as one string more. */
  lemma ReadPascalStringsStep(s: RustString, tail: seq<Byte>, count: nat, more: seq<RustString>, rest: seq<Byte>)
    requires |s| < TWO_32
    requires ReadPascalStrings(tail, count) == Ok((more, rest))
    ensures ReadPascalStrings(LeU32(|s|) + (s + tail), count + 1) == Ok(([s] + more, rest))
  {
    ReadU32RoundTrip(|s|, s + tail);
    assert (s + tail)[..|s|] == s && (s + tail)[|s|..] == tail;
    assert ReadExact(s + tail, |s|) == Ok((s, tail));
  }

  /** Reading back what was written gives the same strings and leaves what followed. */
  lemma {:induction false} PascalStringsRoundTrip(strs: seq<RustString>, rest: seq<Byte>)
    requires forall i :: 0 <= i < |strs| ==> |strs[i]| < TWO_32
    ensures ReadPascalStrings(WritePascalStrings(strs) + rest, |strs|) == Ok((strs, rest))
  {
    if strs != [] {
      var s := strs[0];
      var tail := WritePascalStrings(strs[1..]) + rest;
      SmallRemainder(|s|, TWO_32);
      assert WritePascalStrings(strs) + rest == LeU32(|s|) + (s + tail);
      PascalStringsRoundTrip(strs[1..], rest);
      ReadPascalStringsStep(s, tail, |strs| - 1, strs[1..], rest);
      assert [s] + strs[1..] == strs;
    } else {
      assert WritePascalStrings(strs) + rest == rest;
    }
  }

  /** One length prefix and its bytes in front of written strings are the written strings with one more. */
  lemma PrefixedLayout(file: seq<Byte>, len: U32, afterLen: seq<Byte>, bytes: seq<Byte>, afterBytes: seq<Byte>,
                       more: seq<seq<Byte>>, rest: seq<Byte>)
    requires file == LeU32(len) + afterLen && afterLen == bytes + afterBytes && |bytes| == len
    requires afterBytes == WritePascalStrings(more) + rest
    requires forall i | 0 <= i < |more| :: |more[i]| < TWO_32
    ensures file == WritePascalStrings([bytes] + more) + rest
    ensures forall i | 0 <= i < |[bytes] + more| :: |([bytes] + more)[i]| < TWO_32
  {
    var strs := [bytes] + more;
    assert strs[0] == bytes && strs[1..] == more;
    assert forall i | 1 <= i < |strs| :: strs[i] == more[i - 1];
    SmallRemainder(len, TWO_32);
    assert WritePascalStrings(strs) == LeU32(len) + bytes + WritePascalStrings(more);
  }
}
