/**
 * Index buffers of the engine's primitive meshes: a UV sphere, a square grid plane and a
 * cube. Indices are u16 and refer to vertices by their position in the vertex buffer.
 */
module Prims {
  import opened Wrappers
  import opened Bytes

  // ---------------------------------------------------------------- arithmetic helpers

  lemma MulLe(a: nat, b: nat, s: nat)
    requires a <= b
    ensures a * s <= b * s
  {
  }

  /** Row-major slots of an `n`-by-`s` grid are below `n * s`. */
  lemma RowMajorBound(i: nat, j: nat, s: nat, n: nat)
    requires i < n && j < s
    ensures i * s + j < n * s
  {
    MulLe(i + 1, n, s);
  }

  // ---------------------------------------------------------------- sphere

  /** The sphere's vertex count: two poles and `rings - 1` rings of `segments` vertices. */
  function SphereVertexCount(segments: nat, rings: nat): nat
    requires rings >= 1
  {
    segments * (rings - 1) + 2
  }

  /** `sphere_index_count`: two triangles per band quad and one per cap segment. */
  function SphereIndexCount(segments: nat, rings: nat): nat
    requires rings >= 2
  {
    6 * (segments * (rings - 2) + segments)
  }

  /**
   * The count is three indices for each of the `2 * segments * (rings - 1)` triangles:
   * two per quad of the `rings - 2` bands and one per column of each cap.
   */
  lemma SphereIndexCountTriangles(segments: nat, rings: nat)
    requires rings >= 2
    ensures SphereIndexCount(segments, rings) == 3 * (2 * segments * (rings - 1))
  {
    MulLe(rings - 2, rings - 1, segments);
    assert segments * (rings - 1) == segments * (rings - 2) + segments;
  }

  /** The column after `j` around a ring, wrapping to the first. */
  function NextColumn(segments: nat, j: nat): nat {
    if j + 1 == segments then 0 else j + 1
  }

  /** The slot of corner `c` of the quad in band `i`, column `j`. */
  function BandSlot(segments: nat, rings: nat, i: nat, j: nat, c: nat): (k: nat)
    requires rings >= 2 && i < rings - 2 && j < segments && c < 6
    ensures k < SphereIndexCount(segments, rings)
  {
    RowMajorBound(i, j, segments, rings - 2);
    6 * (i * segments + j) + c
  }

  /**
   * Corner `c` of the quad between rings `i` and `i + 1` at columns `j` and the next column:
   * two triangles, (lower j, lower next, upper j) and (upper next, upper j, lower next).
   */
  function BandCorner(segments: nat, i: nat, j: nat, c: nat): nat
    requires c < 6
  {
    var lower := i * segments + 2;
    var upper := (i + 1) * segments + 2;
    var next := NextColumn(segments, j);
    [lower + j, lower + next, upper + j, upper + next, upper + j, lower + next][c]
  }

  /** The slot of corner `c` of the bottom-cap triangle at column `i`. */
  function BottomSlot(segments: nat, rings: nat, i: nat, c: nat): nat
    requires rings >= 2 && i < segments
  {
    SphereIndexCount(segments, rings) - 6 * segments + 3 * i + c
  }

  /** Bottom cap: the south pole (vertex 0) and two neighbours on the first ring. */
  function BottomCorner(segments: nat, i: nat, c: nat): nat
    requires c < 3
  {
    [0, NextColumn(segments, i) + 2, i + 2][c]
  }

  /** The slot of corner `c` of the top-cap triangle at column `i`. */
  function TopSlot(segments: nat, rings: nat, i: nat, c: nat): nat
    requires rings >= 2 && i < segments
  {
    SphereIndexCount(segments, rings) - 3 * segments + 3 * i + c
  }

  /** Top cap: the north pole (vertex 1) and two neighbours on the last ring. */
  function TopCorner(segments: nat, rings: nat, i: nat, c: nat): nat
    requires rings >= 2 && c < 3
  {
    var last := (rings - 2) * segments + 2;
    [1, last + i, last + NextColumn(segments, i)][c]
  }

  /**
   * One quad of the band loop as the source writes it: six indices, then, for the last
   * column, three of them patched to wrap to the band's first column.
   */
  function WriteBandQuad(inds: seq<U16>, segments: nat, i: nat, j: nat, offset: nat, ind: nat): (r: seq<U16>)
    requires offset == i * segments && ind == 6 * (offset + j) && j < segments
    requires ind + 6 <= |inds| && offset + j + segments + 3 < TWO_16
    ensures |r| == |inds|
    ensures forall c | 0 <= c < 6 :: r[ind + c] == BandCorner(segments, i, j, c)
    ensures forall k | 0 <= k < |r| && !(ind <= k < ind + 6) :: r[k] == inds[k]
  {
    assert (i + 1) * segments == offset + segments;
    var r := inds[ind := offset + j + 2][ind + 1 := offset + j + 1 + 2]
                 [ind + 2 := offset + j + segments + 2][ind + 3 := offset + j + segments + 1 + 2]
                 [ind + 4 := offset + j + segments + 2][ind + 5 := offset + j + 1 + 2];
    if j == segments - 1 then
      r[ind + 1 := offset + 2][ind + 5 := offset + 2][ind + 3 := offset + segments + 2]
    else
      r
  }

  /** The arithmetic facts one quad of band `i`, column `j` needs: it fits, and its values fit in u16. */
  lemma BandQuadFits(segments: nat, rings: nat, i: nat, j: nat)
    requires rings >= 2 && i < rings - 2 && j < segments
    ensures 6 * (i * segments + j) + 6 <= SphereIndexCount(segments, rings)
    ensures i * segments + j + segments + 3 <= SphereVertexCount(segments, rings)
  {
    RowMajorBound(i, j, segments, rings - 2);
    MulLe(i + 2, rings - 1, segments);
    assert (i + 2) * segments == i * segments + 2 * segments;
  }

  /** The arithmetic facts the caps need: they follow the bands, and their values fit in u16. */
  lemma CapsFit(segments: nat, rings: nat)
    requires rings >= 2
    ensures SphereIndexCount(segments, rings) == 6 * (segments * (rings - 2)) + 6 * segments
    ensures (rings - 2) * segments + segments + 2 == SphereVertexCount(segments, rings)
    ensures segments + 2 <= SphereVertexCount(segments, rings)
  {
    MulLe(1, rings - 1, segments);
  }

  /**
   * `sphere_index_array`: the bands between consecutive rings, then the bottom cap, then
   * the top cap. The source computes in u16, including one index past the last vertex
   * before patching it, so the vertex count must stay below 2^16.
   */
  method SphereIndexArray(segments: nat, rings: nat) returns (inds: seq<U16>)
    requires rings >= 2
    requires SphereVertexCount(segments, rings) < TWO_16
    ensures |inds| == SphereIndexCount(segments, rings)
    ensures forall i, j, c | 0 <= i < rings - 2 && 0 <= j < segments && 0 <= c < 6 ::
              inds[BandSlot(segments, rings, i, j, c)] == BandCorner(segments, i, j, c)
    ensures forall i, c | 0 <= i < segments && 0 <= c < 3 ::
              inds[BottomSlot(segments, rings, i, c)] == BottomCorner(segments, i, c)
    ensures forall i, c | 0 <= i < segments && 0 <= c < 3 ::
              inds[TopSlot(segments, rings, i, c)] == TopCorner(segments, rings, i, c)
  {
    inds := seq(SphereIndexCount(segments, rings), _ => 0);
    inds := WriteBands(inds, segments, rings);
    CapsFit(segments, rings);
    BandSlotsBelow(segments, rings, rings - 2, 0);
    var bands := 6 * (segments * (rings - 2));
    inds := WriteBottomCap(inds, segments, rings, bands);
    inds := WriteTopCap(inds, segments, rings, bands + segments * 3);
  }

  /**
   * The band loop of `sphere_index_array`: for each pair of consecutive rings, one quad
   * per column, the last one wrapping to the band's first column.
   */
  method WriteBands(inds0: seq<U16>, segments: nat, rings: nat) returns (inds: seq<U16>)
    requires rings >= 2 && |inds0| == SphereIndexCount(segments, rings)
    requires SphereVertexCount(segments, rings) < TWO_16
    ensures |inds| == |inds0|
    ensures forall i, j, c | 0 <= i < rings - 2 && 0 <= j < segments && 0 <= c < 6 ::
              inds[BandSlot(segments, rings, i, j, c)] == BandCorner(segments, i, j, c)
  {
    inds := inds0;
    for i := 0 to rings - 2
      invariant |inds| == |inds0|
      invariant forall i', j', c | 0 <= i' < i && 0 <= j' < segments && 0 <= c < 6 ::
                  inds[BandSlot(segments, rings, i', j', c)] == BandCorner(segments, i', j', c)
    {
      var offset := i * segments;
      for j := 0 to segments
        invariant |inds| == |inds0|
        invariant forall i', j', c | 0 <= i' < i && 0 <= j' < segments && 0 <= c < 6 ::
                    inds[BandSlot(segments, rings, i', j', c)] == BandCorner(segments, i', j', c)
        invariant forall j', c | 0 <= j' < j && 0 <= c < 6 ::
                    inds[BandSlot(segments, rings, i, j', c)] == BandCorner(segments, i, j', c)
      {
        var ind := 6 * (offset + j);
        BandQuadFits(segments, rings, i, j);
        BandSlotsBelow(segments, rings, i, j);
        inds := WriteBandQuad(inds, segments, i, j, offset, ind);
      }
    }
  }

  /**
   * The bottom-cap loop: from `baseIndex`, one triangle per column fanning from the south
   * pole, the last one wrapping to the first column. Nothing before `baseIndex` changes.
   */
  method WriteBottomCap(inds0: seq<U16>, segments: nat, rings: nat, baseIndex: nat) returns (inds: seq<U16>)
    requires rings >= 2 && |inds0| == SphereIndexCount(segments, rings) == baseIndex + 6 * segments
    requires segments + 2 < TWO_16
    ensures |inds| == |inds0|
    ensures forall k | 0 <= k < baseIndex :: inds[k] == inds0[k]
    ensures forall i, c | 0 <= i < segments && 0 <= c < 3 ::
              inds[BottomSlot(segments, rings, i, c)] == BottomCorner(segments, i, c)
  {
    inds := inds0;
    for i := 0 to segments
      invariant |inds| == |inds0|
      invariant forall k | 0 <= k < baseIndex :: inds[k] == inds0[k]
      invariant forall i', c | 0 <= i' < i && 0 <= c < 3 ::
                  inds[BottomSlot(segments, rings, i', c)] == BottomCorner(segments, i', c)
    {
      inds := inds[baseIndex + i * 3 := 0];
      inds := inds[baseIndex + i * 3 + 1 := i + 3];
      inds := inds[baseIndex + i * 3 + 2 := i + 2];
      if i == segments - 1 {
        inds := inds[baseIndex + i * 3 + 1 := 2];
      }
    }
  }

  /**
   * The top-cap loop: from `baseIndex`, one triangle per column fanning from the north
   * pole over the last ring, the last one wrapping to the first column. Nothing before
   * `baseIndex` changes.
   */
  method WriteTopCap(inds0: seq<U16>, segments: nat, rings: nat, baseIndex: nat) returns (inds: seq<U16>)
    requires rings >= 2 && |inds0| == SphereIndexCount(segments, rings) == baseIndex + 3 * segments
    requires (rings - 2) * segments + segments + 2 < TWO_16
    ensures |inds| == |inds0|
    ensures forall k | 0 <= k < baseIndex :: inds[k] == inds0[k]
    ensures forall i, c | 0 <= i < segments && 0 <= c < 3 ::
              inds[TopSlot(segments, rings, i, c)] == TopCorner(segments, rings, i, c)
  {
    inds := inds0;
    var last := (rings - 2) * segments;
    for i := 0 to segments
      invariant |inds| == |inds0|
      invariant forall k | 0 <= k < baseIndex :: inds[k] == inds0[k]
      invariant forall i', c | 0 <= i' < i && 0 <= c < 3 ::
                  inds[TopSlot(segments, rings, i', c)] == TopCorner(segments, rings, i', c)
    {
      inds := WriteTopTriangle(inds, segments, rings, i, baseIndex, last);
    }
  }

  /** One triangle of the top-cap loop, as the source writes it. */
  function WriteTopTriangle(inds: seq<U16>, segments: nat, rings: nat, i: nat, baseIndex: nat, last: nat): (r: seq<U16>)
    requires rings >= 2 && i < segments && last == (rings - 2) * segments && last + segments + 2 < TWO_16
    requires |inds| == SphereIndexCount(segments, rings) == baseIndex + 3 * segments
    ensures |r| == |inds|
    ensures forall c | 0 <= c < 3 :: r[TopSlot(segments, rings, i, c)] == TopCorner(segments, rings, i, c)
    ensures forall k | 0 <= k < |r| && !(baseIndex + 3 * i <= k < baseIndex + 3 * i + 3) :: r[k] == inds[k]
  {
    var r := inds[baseIndex + i * 3 := 1][baseIndex + i * 3 + 1 := last + i + 2][baseIndex + i * 3 + 2 := last + i + 3];
    if i == segments - 1 then r[baseIndex + i * 3 + 2 := last + 2] else r
  }

  /** Every quad slot written before column `j` of band `i` lies below that quad's first slot. */
  lemma BandSlotsBelow(segments: nat, rings: nat, i: nat, j: nat)
    requires rings >= 2 && i <= rings - 2
    ensures forall i', j', c | 0 <= i' < i && 0 <= j' < segments && 0 <= c < 6 ::
              BandSlot(segments, rings, i', j', c) < 6 * (i * segments + j)
  {
    forall i', j', c | 0 <= i' < i && 0 <= j' < segments && 0 <= c < 6
      ensures BandSlot(segments, rings, i', j', c) < 6 * (i * segments + j)
    {
      RowMajorBound(i', j', segments, i);
    }
  }

  /** Every index the sphere uses names one of its vertices. */
  lemma SphereIndicesInRange(segments: nat, rings: nat)
    requires rings >= 2
    ensures forall i, j, c | 0 <= i < rings - 2 && 0 <= j < segments && 0 <= c < 6 ::
              BandCorner(segments, i, j, c) < SphereVertexCount(segments, rings)
    ensures forall i, c | 0 <= i < segments && 0 <= c < 3 ::
              BottomCorner(segments, i, c) < SphereVertexCount(segments, rings)
    ensures forall i, c | 0 <= i < segments && 0 <= c < 3 ::
              TopCorner(segments, rings, i, c) < SphereVertexCount(segments, rings)
  {
    forall i, j, c | 0 <= i < rings - 2 && 0 <= j < segments && 0 <= c < 6
      ensures BandCorner(segments, i, j, c) < SphereVertexCount(segments, rings)
    {
      BandCornerInRange(segments, rings, i, j, c);
    }
    forall i, c | 0 <= i < segments && 0 <= c < 3
      ensures BottomCorner(segments, i, c) < SphereVertexCount(segments, rings)
      ensures TopCorner(segments, rings, i, c) < SphereVertexCount(segments, rings)
    {
      CapCornersInRange(segments, rings, i, c);
    }
  }

  lemma BandCornerInRange(segments: nat, rings: nat, i: nat, j: nat, c: nat)
    requires rings >= 2 && i < rings - 2 && j < segments && c < 6
    ensures BandCorner(segments, i, j, c) < SphereVertexCount(segments, rings)
  {
    BandRowsBelow(segments, rings, i);
    var next := NextColumn(segments, j);
    assert next < segments;
    var corners := [i * segments + 2 + j, i * segments + 2 + next, (i + 1) * segments + 2 + j,
                    (i + 1) * segments + 2 + next, (i + 1) * segments + 2 + j, i * segments + 2 + next];
    assert BandCorner(segments, i, j, c) == corners[c];
  }

  /** Band `i`'s upper ring ends within the vertex buffer. */
  lemma BandRowsBelow(segments: nat, rings: nat, i: nat)
    requires rings >= 2 && i < rings - 2
    ensures i * segments + segments == (i + 1) * segments
    ensures (i + 1) * segments + segments <= segments * (rings - 1)
  {
    MulLe(i + 2, rings - 1, segments);
    assert (i + 2) * segments == (i + 1) * segments + segments;
    assert (rings - 1) * segments == segments * (rings - 1);
  }

  lemma CapCornersInRange(segments: nat, rings: nat, i: nat, c: nat)
    requires rings >= 2 && i < segments && c < 3
    ensures BottomCorner(segments, i, c) < SphereVertexCount(segments, rings)
    ensures TopCorner(segments, rings, i, c) < SphereVertexCount(segments, rings)
  {
    MulLe(1, rings - 1, segments);
    assert (rings - 1) * segments == (rings - 2) * segments + segments;
    assert NextColumn(segments, i) < segments;
  }

  /** Every slot of the array is written: it holds a corner of a band quad or of a cap triangle. */
  lemma SphereSlotsCovered(segments: nat, rings: nat, k: nat)
    requires rings >= 2 && k < SphereIndexCount(segments, rings)
    ensures || (exists i, j, c | 0 <= i < rings - 2 && 0 <= j < segments && 0 <= c < 6 ::
                  k == BandSlot(segments, rings, i, j, c))
            || (exists i, c | 0 <= i < segments && 0 <= c < 3 :: k == BottomSlot(segments, rings, i, c))
            || (exists i, c | 0 <= i < segments && 0 <= c < 3 :: k == TopSlot(segments, rings, i, c))
  {
    var count := SphereIndexCount(segments, rings);
    if k < count - 6 * segments {
      var i, j, c := BandOfSlot(segments, rings, k);
      assert k == BandSlot(segments, rings, i, j, c);
    } else if k < count - 3 * segments {
      var m := k - (count - 6 * segments);
      assert k == BottomSlot(segments, rings, m / 3, m % 3);
    } else {
      var m := k - (count - 3 * segments);
      assert k == TopSlot(segments, rings, m / 3, m % 3);
    }
  }

  /** The band, column and corner of a slot below the caps. */
  lemma BandOfSlot(segments: nat, rings: nat, k: nat) returns (i: nat, j: nat, c: nat)
    requires rings >= 2 && k < 6 * (segments * (rings - 2))
    ensures i < rings - 2 && j < segments && c < 6
    ensures k == 6 * (i * segments + j) + c
  {
    var q := k / 6;
    c := k % 6;
    assert q < segments * (rings - 2);
    assert segments > 0;
    i, j := q / segments, q % segments;
    assert q == i * segments + j;
    if i >= rings - 2 {
      MulLe(rings - 2, i, segments);
      assert false;
    }
  }

  /**
   * The array `sphere_index_array` produces references only vertices of the sphere's
   * vertex buffer: every slot is written, and with a vertex index.
   */
  lemma SphereIndexArrayValid(segments: nat, rings: nat, inds: seq<U16>)
    requires rings >= 2 && |inds| == SphereIndexCount(segments, rings)
    requires forall i, j, c | 0 <= i < rings - 2 && 0 <= j < segments && 0 <= c < 6 ::
               inds[BandSlot(segments, rings, i, j, c)] == BandCorner(segments, i, j, c)
    requires forall i, c | 0 <= i < segments && 0 <= c < 3 ::
               inds[BottomSlot(segments, rings, i, c)] == BottomCorner(segments, i, c)
    requires forall i, c | 0 <= i < segments && 0 <= c < 3 ::
               inds[TopSlot(segments, rings, i, c)] == TopCorner(segments, rings, i, c)
    ensures forall k | 0 <= k < |inds| :: inds[k] < SphereVertexCount(segments, rings)
  {
    SphereIndicesInRange(segments, rings);
    forall k | 0 <= k < |inds|
      ensures inds[k] < SphereVertexCount(segments, rings)
    {
      SphereSlotsCovered(segments, rings, k);
      if exists i, j, c | 0 <= i < rings - 2 && 0 <= j < segments && 0 <= c < 6 ::
           k == BandSlot(segments, rings, i, j, c) {
        var i, j, c :| 0 <= i < rings - 2 && 0 <= j < segments && 0 <= c < 6 &&
                       k == BandSlot(segments, rings, i, j, c);
        assert inds[k] == BandCorner(segments, i, j, c);
      } else if exists i, c | 0 <= i < segments && 0 <= c < 3 :: k == BottomSlot(segments, rings, i, c) {
        var i, c :| 0 <= i < segments && 0 <= c < 3 && k == BottomSlot(segments, rings, i, c);
        assert inds[k] == BottomCorner(segments, i, c);
      } else {
        var i, c :| 0 <= i < segments && 0 <= c < 3 && k == TopSlot(segments, rings, i, c);
        assert inds[k] == TopCorner(segments, rings, i, c);
      }
    }
  }

  /** The last quad of every band closes the ring: it reuses the band's first column. */
  lemma BandWraps(segments: nat, i: nat)
    requires segments >= 1
    ensures BandCorner(segments, i, segments - 1, 1) == i * segments + 2
    ensures BandCorner(segments, i, segments - 1, 3) == (i + 1) * segments + 2
    ensures BandCorner(segments, i, segments - 1, 5) == i * segments + 2
  {
  }

  // ---------------------------------------------------------------- plane

  /** The vertex in row `row` and column `col` of a `width`-by-`width` grid. */
  function GridVertex(width: nat, row: nat, col: nat): nat {
    row * width + col
  }

  /** Corner `c` of grid square `(i, j)`: triangles (bl, br, tl) and (br, tr, tl). */
  function PlaneCorner(width: nat, i: nat, j: nat, c: nat): nat
    requires c < 6
  {
    [GridVertex(width, i, j), GridVertex(width, i, j + 1), GridVertex(width, i + 1, j),
     GridVertex(width, i, j + 1), GridVertex(width, i + 1, j + 1), GridVertex(width, i + 1, j)][c]
  }

  /** The slot of corner `c` of grid square `(i, j)`. */
  function PlaneSlot(width: nat, i: nat, j: nat, c: nat): (k: nat)
    requires i < width - 1 && j < width - 1 && c < 6
    ensures k < (width - 1) * (width - 1) * 2 * 3
  {
    RowMajorBound(i, j, width - 1, width - 1);
    6 * (i * (width - 1) + j) + c
  }

  /** Where grid square `(i, j)`, the `currentSquare`-th, keeps its slots and corners. */
  lemma PlaneQuadLayout(width: nat, i: nat, j: nat, currentSquare: nat)
    requires i < width - 1 && j < width - 1 && currentSquare == i * (width - 1) + j
    ensures forall c | 0 <= c < 6 :: PlaneSlot(width, i, j, c) == 6 * currentSquare + c
    ensures 6 * currentSquare + 6 <= (width - 1) * (width - 1) * 2 * 3
    ensures GridVertex(width, i, j) == currentSquare + i
    ensures GridVertex(width, i, j + 1) == currentSquare + i + 1
    ensures GridVertex(width, i + 1, j) == currentSquare + width + i
    ensures GridVertex(width, i + 1, j + 1) == currentSquare + width + i + 1
  {
    assert i * width == i * (width - 1) + i;
    assert (i + 1) * width == i * width + width;
    assert PlaneSlot(width, i, j, 5) == 6 * currentSquare + 5;
  }

  /** One grid square of the `plane_vao` index loop, as the source writes it. */
  function WritePlaneQuad(indices: seq<U16>, width: nat, i: nat, j: nat, currentSquare: nat): (r: seq<U16>)
    requires i < width - 1 && j < width - 1 && currentSquare == i * (width - 1) + j
    requires |indices| == (width - 1) * (width - 1) * 2 * 3
    ensures |r| == |indices|
    ensures forall c | 0 <= c < 6 :: r[PlaneSlot(width, i, j, c)] == PlaneCorner(width, i, j, c) % TWO_16
    ensures forall k | 0 <= k < |r| && !(6 * currentSquare <= k < 6 * currentSquare + 6) :: r[k] == indices[k]
  {
    PlaneQuadLayout(width, i, j, currentSquare);
    indices[currentSquare * 6 := (currentSquare + i) % TWO_16]
           [currentSquare * 6 + 1 := (currentSquare + i + 1) % TWO_16]
           [currentSquare * 6 + 2 := (currentSquare + width + i) % TWO_16]
           [currentSquare * 6 + 3 := (currentSquare + i + 1) % TWO_16]
           [currentSquare * 6 + 4 := (currentSquare + width + i + 1) % TWO_16]
           [currentSquare * 6 + 5 := (currentSquare + width + i) % TWO_16]
  }

  /**
   * The index loop of `plane_vao`: a width below two panics (`None` here); otherwise six
   * indices per grid square, each cut to 16 bits by `as u16`.
   */
  method PlaneIndices(width: nat) returns (r: Option<seq<U16>>)
    ensures r.None? <==> width < 2
    ensures r.Some? ==> |r.value| == (width - 1) * (width - 1) * 2 * 3
    ensures r.Some? ==> forall i, j, c | 0 <= i < width - 1 && 0 <= j < width - 1 && 0 <= c < 6 ::
              r.value[PlaneSlot(width, i, j, c)] == PlaneCorner(width, i, j, c) % TWO_16
  {
    if width < 2 {
      return None;
    }
    var count := (width - 1) * (width - 1) * 2 * 3;
    var indices: seq<U16> := seq(count, _ => 0);
    for i := 0 to width - 1
      invariant |indices| == count
      invariant forall i', j', c | 0 <= i' < i && 0 <= j' < width - 1 && 0 <= c < 6 ::
                  indices[PlaneSlot(width, i', j', c)] == PlaneCorner(width, i', j', c) % TWO_16
    {
      PlaneSlotsBelow(width, i, 0);
      for j := 0 to width - 1
        invariant |indices| == count
        invariant forall i', j', c | 0 <= i' < i && 0 <= j' < width - 1 && 0 <= c < 6 ::
                    indices[PlaneSlot(width, i', j', c)] == PlaneCorner(width, i', j', c) % TWO_16
        invariant forall j', c | 0 <= j' < j && 0 <= c < 6 ::
                    indices[PlaneSlot(width, i, j', c)] == PlaneCorner(width, i, j', c) % TWO_16
      {
        var currentSquare := i * (width - 1) + j;
        PlaneSlotsBelow(width, i, j);
        indices := WritePlaneQuad(indices, width, i, j, currentSquare);
      }
    }
    r := Some(indices);
  }

  /** Every square slot written before square `(i, j)` lies below that square's first slot. */
  lemma PlaneSlotsBelow(width: nat, i: nat, j: nat)
    requires i <= width - 1
    ensures forall i', j', c | 0 <= i' < i && 0 <= j' < width - 1 && 0 <= c < 6 ::
              PlaneSlot(width, i', j', c) < 6 * (i * (width - 1) + j)
  {
    forall i', j', c | 0 <= i' < i && 0 <= j' < width - 1 && 0 <= c < 6
      ensures PlaneSlot(width, i', j', c) < 6 * (i * (width - 1) + j)
    {
      RowMajorBound(i', j', width - 1, i);
    }
  }

  /**
   * Every corner names a vertex of the grid, so when the grid has at most 2^16 vertices
   * nothing is cut and every index is below `width * width`.
   */
  lemma PlaneIndicesInRange(width: nat, i: nat, j: nat, c: nat)
    requires i < width - 1 && j < width - 1 && c < 6
    ensures PlaneCorner(width, i, j, c) < width * width
    ensures width * width <= TWO_16 ==> PlaneCorner(width, i, j, c) % TWO_16 == PlaneCorner(width, i, j, c)
  {
    RowMajorBound(i + 1, j + 1, width, width);
  }

  // ---------------------------------------------------------------- skybox

  /** `INDICES` of `skybox_cube_vao`: twelve triangles over the cube's eight corners. */
  const SKYBOX_INDICES: seq<U16> := [
    0, 1, 2,  3, 2, 1,
    0, 2, 4,  2, 5, 4,
    3, 1, 6,  7, 3, 6,
    5, 7, 4,  7, 6, 4,
    4, 1, 0,  4, 6, 1,
    7, 5, 2,  7, 2, 3
  ]

  /** Thirty-six indices, each naming one of the eight corners, and every corner used. */
  lemma SkyboxIndicesInRange()
    ensures |SKYBOX_INDICES| == 36
    ensures forall k | 0 <= k < |SKYBOX_INDICES| :: SKYBOX_INDICES[k] < 8
    ensures forall v | 0 <= v < 8 :: v in SKYBOX_INDICES
  {
    assert SKYBOX_INDICES[0] == 0 && SKYBOX_INDICES[1] == 1 && SKYBOX_INDICES[2] == 2;
    assert SKYBOX_INDICES[3] == 3 && SKYBOX_INDICES[8] == 4 && SKYBOX_INDICES[10] == 5;
    assert SKYBOX_INDICES[14] == 6 && SKYBOX_INDICES[15] == 7;
  }
}
