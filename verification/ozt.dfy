/**
 * The collision-mesh file (`.ozt`): three length-prefixed blocks, the vertices, the u16
 * triangle indices and the face normals, each prefixed with its size in bytes as a
 * little-endian u32. `Terrain::from_ozt` reads it; the terrain exporter writes it. An f32
 * is carried as its bit pattern, a u32, since both sides only move its four bytes.
 */
module Ozt {
  import opened Wrappers
  import opened Bytes
  import Io

  /** Three f32 bit patterns: a vertex position or a face normal. */
  datatype P3 = P3(x: U32, y: U32, z: U32)

  /** The contents of a collision-mesh file (the fields of `Terrain`). */
  datatype OztTerrain = OztTerrain(vertices: seq<P3>, indices: seq<U16>, normals: seq<P3>)

  /** The coordinates of the points, one after another. */
  function Flatten(ps: seq<P3>): (r: seq<U32>)
    ensures |r| == 3 * |ps|
  {
    if ps == [] then [] else [ps[0].x, ps[0].y, ps[0].z] + Flatten(ps[1..])
  }

  /** Coordinate `c` of point `k` sits at position `3k + c` of the flattened points. */
  lemma {:induction false} FlattenAt(ps: seq<P3>, k: nat)
    requires k < |ps|
    ensures Flatten(ps)[3 * k] == ps[k].x
    ensures Flatten(ps)[3 * k + 1] == ps[k].y
    ensures Flatten(ps)[3 * k + 2] == ps[k].z
  {
    if k > 0 {
      FlattenAt(ps[1..], k - 1);
    }
  }

  /** A block of points: each coordinate's four bytes, little-endian, in x, y, z order. */
  function P3Bytes(ps: seq<P3>): (r: seq<Byte>)
    ensures |r| == 12 * |ps|
  {
    LeU32s(Flatten(ps))
  }

  /** The point whose coordinates start at `offset`. */
  function P3At(bytes: seq<Byte>, offset: nat): P3
    requires offset + 12 <= |bytes|
  {
    P3(U32At(bytes, offset), U32At(bytes, offset + 4), U32At(bytes, offset + 8))
  }

  /** The points of a block, twelve bytes each: the `step_by(12)` loop of `from_ozt`. */
  function P3Run(bytes: seq<Byte>): (r: seq<P3>)
    requires |bytes| % 12 == 0
    ensures |r| * 12 == |bytes|
  {
    seq(|bytes| / 12, k requires 0 <= k < |bytes| / 12 => P3At(bytes, 12 * k))
  }

  /** The file a terrain is stored as, when every block size fits in a u32. */
  function OztBytes(t: OztTerrain): (r: seq<Byte>)
    requires 12 * |t.vertices| < TWO_32 && 2 * |t.indices| < TWO_32 && 12 * |t.normals| < TWO_32
  {
    LeU32(12 * |t.vertices|) + P3Bytes(t.vertices)
      + LeU32(2 * |t.indices|) + LeU16s(t.indices)
      + LeU32(12 * |t.normals|) + P3Bytes(t.normals)
  }

  /**
   * A block of points: its byte count, then that many bytes. A short file panics, and so
   * does a count that is not a multiple of 12, since the last step of the loop indexes
   * past the block; both are `None`.
   */
  function ReadP3Block(file: seq<Byte>): (r: Option<(seq<P3>, seq<Byte>)>)
    ensures r.Some? <==> |file| >= 4 && U32At(file, 0) % 12 == 0 && |file| >= 4 + U32At(file, 0)
    ensures r.Some? ==> |r.value.0| * 12 == U32At(file, 0) && r.value.1 == file[4 + U32At(file, 0)..]
    ensures r.Some? ==> r.value.0 == P3Run(file[4..4 + U32At(file, 0)])
  {
    match Io.ReadU32(file)
    case Err(_) => None
    case Ok((count, afterCount)) =>
      U32AtAppend(file[..4], file[4..], 0);
      assert file[..4] + file[4..] == file;
      LeU32Decodes([], count, afterCount);
      assert [] + LeU32(count) + afterCount == file;
      match Io.ReadExact(afterCount, count)
      case Err(_) => None
      case Ok((bytes, rest)) =>
        if count % 12 != 0 then None else Some((P3Run(bytes), rest))
  }

  /**
   * The index block: its byte count `n`, then `n / 2` u16s (`read_u16_data`). An odd
   * count leaves its last byte unread, in front of the next block.
   */
  function ReadIndexBlock(file: seq<Byte>): (r: Option<(seq<U16>, seq<Byte>)>)
    ensures r.Some? <==> |file| >= 4 && |file| >= 4 + 2 * (U32At(file, 0) / 2)
    ensures r.Some? ==> 2 * |r.value.0| == 2 * (U32At(file, 0) / 2) && r.value.1 == file[4 + 2 * (U32At(file, 0) / 2)..]
  {
    match Io.ReadU32(file)
    case Err(_) => None
    case Ok((count, afterCount)) =>
      LeU32Decodes([], count, afterCount);
      assert [] + LeU32(count) + afterCount == file;
      match Io.ReadU16Data(afterCount, count / 2)
      case Err(_) => None
      case Ok((indices, rest)) => Some((indices, rest))
  }

  /** `Terrain::from_ozt` on the file's bytes: the vertex, index and normal blocks in turn; `None` where it panics. */
  function FromOzt(file: seq<Byte>): (r: Option<OztTerrain>)
    ensures r.Some? ==> 12 * |r.value.vertices| < TWO_32 && 2 * |r.value.indices| < TWO_32 && 12 * |r.value.normals| < TWO_32
  {
    match ReadP3Block(file)
    case None => None
    case Some((vertices, afterVertices)) =>
      match ReadIndexBlock(afterVertices)
      case None => None
      case Some((indices, afterIndices)) =>
        match ReadP3Block(afterIndices)
        case None => None
        case Some((normals, _)) => Some(OztTerrain(vertices, indices, normals))
  }

  // ---------------------------------------------------------------- round trips

  /** Decoding an encoded block of points gives the points back. */
  lemma P3RunDecodes(ps: seq<P3>)
    ensures P3Run(P3Bytes(ps)) == ps
  {
    forall k | 0 <= k < |ps|
      ensures P3Run(P3Bytes(ps))[k] == ps[k]
    {
      FlattenAt(ps, k);
      LeU32sAt(Flatten(ps), 3 * k);
      LeU32sAt(Flatten(ps), 3 * k + 1);
      LeU32sAt(Flatten(ps), 3 * k + 2);
    }
  }

  /** Coordinate `m` of the flattened points of a buffer is its `m`-th u32. */
  lemma FlattenP3RunAt(bytes: seq<Byte>, n: nat, m: nat)
    requires |bytes| == 12 * n && |bytes| % 12 == 0 && |bytes| % 4 == 0 && m < 3 * n
    ensures |Flatten(P3Run(bytes))| == |Io.U32Run(bytes)| == 3 * n
    ensures Flatten(P3Run(bytes))[m] == Io.U32Run(bytes)[m]
  {
    var ps, run := P3Run(bytes), Io.U32Run(bytes);
    var k, c := m / 3, m % 3;
    assert m == 3 * k + c && k < n;
    FlattenAt(ps, k);
    assert ps[k] == P3At(bytes, 12 * k);
    assert run[m] == U32At(bytes, 12 * k + 4 * c);
  }

  /** Splitting the u32s of a buffer into points and flattening them gives those u32s back. */
  lemma FlattenP3Run(bytes: seq<Byte>, n: nat)
    requires |bytes| == 12 * n && |bytes| % 12 == 0 && |bytes| % 4 == 0
    ensures Flatten(P3Run(bytes)) == Io.U32Run(bytes)
  {
    forall m | 0 <= m < 3 * n
      ensures Flatten(P3Run(bytes))[m] == Io.U32Run(bytes)[m]
    {
      FlattenP3RunAt(bytes, n, m);
    }
    if n > 0 {
      FlattenP3RunAt(bytes, n, 0);
    }
  }

  /** Encoding the u32s of a buffer gives the buffer back. */
  lemma {:induction false} U32RunEncodes(bytes: seq<Byte>)
    requires |bytes| % 4 == 0
    ensures LeU32s(Io.U32Run(bytes)) == bytes
    decreases |bytes|
  {
    if bytes != [] {
      var head, tail := bytes[..4], bytes[4..];
      assert bytes == head + tail;
      var run := Io.U32Run(bytes);
      forall k | 0 <= k < |run| - 1
        ensures run[1..][k] == Io.U32Run(tail)[k]
      {
        U32AtShift(head, tail, 4 * k);
      }
      assert run[1..] == Io.U32Run(tail);
      U32AtEncodes(bytes, 0);
      U32RunEncodes(tail);
    }
  }

  /** Encoding the u16s of a buffer gives the buffer back. */
  lemma {:induction false} U16RunEncodes(bytes: seq<Byte>)
    requires |bytes| % 2 == 0
    ensures LeU16s(Io.U16Run(bytes)) == bytes
    decreases |bytes|
  {
    if bytes != [] {
      var head, tail := bytes[..2], bytes[2..];
      assert bytes == head + tail;
      var run := Io.U16Run(bytes);
      forall k | 0 <= k < |run| - 1
        ensures run[1..][k] == Io.U16Run(tail)[k]
      {
        U16AtShift(head, tail, 2 * k);
      }
      assert run[1..] == Io.U16Run(tail);
      U16AtEncodes(bytes, 0);
      U16RunEncodes(tail);
    }
  }

  /** A block of points is read back from its encoding, leaving what follows. */
  lemma ReadP3BlockRoundTrip(ps: seq<P3>, rest: seq<Byte>)
    requires 12 * |ps| < TWO_32
    ensures ReadP3Block(LeU32(12 * |ps|) + (P3Bytes(ps) + rest)) == Some((ps, rest))
  {
    var body := P3Bytes(ps) + rest;
    Io.ReadU32RoundTrip(12 * |ps|, body);
    assert body[..12 * |ps|] == P3Bytes(ps) && body[12 * |ps|..] == rest;
    P3RunDecodes(ps);
  }

  /** The index block is read back from its encoding, leaving what follows. */
  lemma ReadIndexBlockRoundTrip(indices: seq<U16>, rest: seq<Byte>)
    requires 2 * |indices| < TWO_32
    ensures ReadIndexBlock(LeU32(2 * |indices|) + (LeU16s(indices) + rest)) == Some((indices, rest))
  {
    var body := LeU16s(indices) + rest;
    Io.ReadU32RoundTrip(2 * |indices|, body);
    assert (2 * |indices|) / 2 == |indices|;
    Io.U16RunRoundTrip(indices, rest);
  }

  /** Regrouping a concatenation of seven sequences to the right. */
  lemma SeqAssoc6<T>(a: seq<T>, b: seq<T>, c: seq<T>, d: seq<T>, e: seq<T>, f: seq<T>, g: seq<T>)
    ensures a + b + c + d + e + f + g == a + (b + (c + (d + (e + (f + g)))))
  {
  }

  /** The stored form of a terrain followed by more bytes, grouped block by block. */
  lemma OztBytesGrouped(t: OztTerrain, rest: seq<Byte>)
    requires 12 * |t.vertices| < TWO_32 && 2 * |t.indices| < TWO_32 && 12 * |t.normals| < TWO_32
    ensures OztBytes(t) + rest
            == LeU32(12 * |t.vertices|) + (P3Bytes(t.vertices)
               + (LeU32(2 * |t.indices|) + (LeU16s(t.indices)
               + (LeU32(12 * |t.normals|) + (P3Bytes(t.normals) + rest)))))
  {
    SeqAssoc6(LeU32(12 * |t.vertices|), P3Bytes(t.vertices), LeU32(2 * |t.indices|), LeU16s(t.indices),
              LeU32(12 * |t.normals|), P3Bytes(t.normals), rest);
  }

  /** Loading the file a terrain is stored as gives the terrain back, whatever follows it. */
  lemma FromOztRoundTrip(t: OztTerrain, rest: seq<Byte>)
    requires 12 * |t.vertices| < TWO_32 && 2 * |t.indices| < TWO_32 && 12 * |t.normals| < TWO_32
    ensures FromOzt(OztBytes(t) + rest) == Some(t)
  {
    var normalBlock := LeU32(12 * |t.normals|) + (P3Bytes(t.normals) + rest);
    var indexBlock := LeU32(2 * |t.indices|) + (LeU16s(t.indices) + normalBlock);
    var file := LeU32(12 * |t.vertices|) + (P3Bytes(t.vertices) + indexBlock);
    OztBytesGrouped(t, rest);
    ReadP3BlockRoundTrip(t.vertices, indexBlock);
    ReadIndexBlockRoundTrip(t.indices, normalBlock);
    ReadP3BlockRoundTrip(t.normals, rest);
    FromOztOfBlocks(file, t.vertices, indexBlock, t.indices, normalBlock, t.normals, rest);
  }

  /** Three blocks read in turn make the loaded terrain. */
  lemma FromOztOfBlocks(file: seq<Byte>, vertices: seq<P3>, afterVertices: seq<Byte>, indices: seq<U16>,
                        afterIndices: seq<Byte>, normals: seq<P3>, rest: seq<Byte>)
    requires ReadP3Block(file) == Some((vertices, afterVertices))
    requires ReadIndexBlock(afterVertices) == Some((indices, afterIndices))
    requires ReadP3Block(afterIndices) == Some((normals, rest))
    ensures FromOzt(file) == Some(OztTerrain(vertices, indices, normals))
  {
  }

  /** A loaded block of points is exactly what encoding those points produces. */
  lemma ReadP3BlockSound(file: seq<Byte>)
    requires ReadP3Block(file).Some?
    ensures var (ps, rest) := ReadP3Block(file).value;
            12 * |ps| < TWO_32 && file == LeU32(12 * |ps|) + P3Bytes(ps) + rest
  {
    var count := U32At(file, 0);
    P3BlockLayout(file, count, ReadP3Block(file).value.0, ReadP3Block(file).value.1);
  }

  /** A count word, the points it announces and the rest lay out the file again. */
  lemma P3BlockLayout(file: seq<Byte>, count: U32, ps: seq<P3>, rest: seq<Byte>)
    requires |file| >= 4 + count && count == U32At(file, 0) && count == 12 * |ps|
    requires ps == P3Run(file[4..4 + count]) && rest == file[4 + count..]
    ensures file == LeU32(12 * |ps|) + P3Bytes(ps) + rest
  {
    var bytes := file[4..4 + count];
    assert P3Bytes(ps) == bytes by {
      assert |bytes| == 4 * (3 * |ps|);
      P3RunEncodes(bytes, |ps|);
    }
    assert LeU32(12 * |ps|) == file[..4] by {
      U32AtEncodes(file, 0);
    }
    assert file == file[..4] + file[4..4 + count] + file[4 + count..];
  }

  /** Encoding the points of a block gives the block back. */
  lemma P3RunEncodes(bytes: seq<Byte>, n: nat)
    requires |bytes| == 12 * n && |bytes| % 12 == 0 && |bytes| % 4 == 0
    ensures P3Bytes(P3Run(bytes)) == bytes
  {
    FlattenP3Run(bytes, n);
    U32RunEncodes(bytes);
  }

  /** A loaded index block is exactly what encoding those indices produces, when its byte count is even. */
  lemma ReadIndexBlockSound(file: seq<Byte>)
    requires ReadIndexBlock(file).Some? && U32At(file, 0) % 2 == 0
    ensures var (indices, rest) := ReadIndexBlock(file).value;
            2 * |indices| < TWO_32 && file == LeU32(2 * |indices|) + LeU16s(indices) + rest
  {
    var (indices, rest) := ReadIndexBlock(file).value;
    var count := U32At(file, 0);
    var bytes := file[4..4 + count];
    assert indices == Io.U16Run(bytes);
    U16RunEncodes(bytes);
    U32AtEncodes(file, 0);
    assert file == file[..4] + bytes + rest;
  }

  /**
   * What `from_ozt` loads is exactly what the file starts with: when the index block's
   * byte count is even, the file is the stored form of the loaded terrain and a remainder.
   */
  lemma FromOztSound(file: seq<Byte>)
    requires FromOzt(file).Some?
    requires U32At(ReadP3Block(file).value.1, 0) % 2 == 0
    ensures exists rest :: file == OztBytes(FromOzt(file).value) + rest
  {
    var (vertices, afterVertices) := ReadP3Block(file).value;
    var (indices, afterIndices) := ReadIndexBlock(afterVertices).value;
    var (normals, rest) := ReadP3Block(afterIndices).value;
    ReadP3BlockSound(file);
    ReadIndexBlockSound(afterVertices);
    ReadP3BlockSound(afterIndices);
    var t := OztTerrain(vertices, indices, normals);
    assert FromOzt(file) == Some(t);
    Regroup3(file, afterVertices, afterIndices, rest,
      LeU32(12 * |vertices|), P3Bytes(vertices),
      LeU32(2 * |indices|), LeU16s(indices),
      LeU32(12 * |normals|), P3Bytes(normals));
    assert OztBytes(t) == LeU32(12 * |vertices|) + P3Bytes(vertices)
      + LeU32(2 * |indices|) + LeU16s(indices)
      + LeU32(12 * |normals|) + P3Bytes(normals);
    assert file == OztBytes(t) + rest;
  }

  /** Three blocks read one after another make up the file in order. */
  lemma Regroup3<T>(file: seq<T>, afterFirst: seq<T>, afterSecond: seq<T>, rest: seq<T>,
                    a: seq<T>, b: seq<T>, c: seq<T>, d: seq<T>, e: seq<T>, f: seq<T>)
    requires file == a + b + afterFirst
    requires afterFirst == c + d + afterSecond
    requires afterSecond == e + f + rest
    ensures file == a + b + c + d + e + f + rest
  {
  }
}
