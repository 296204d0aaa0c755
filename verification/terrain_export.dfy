/**
 * The Blender collision-mesh exporter (`TerrainExporter.execute` in
 * scripts/ozyterrain_export.py): every loop triangle's three corners are deduplicated into
 * a vertex list and an index buffer, one face normal is kept per triangle, and the three
 * blocks are written in the `.ozt` layout.
 *
 * A corner is a key of type `K`: the world-space coordinate triple Python hashes (doubles).
 * `pack` is `struct.pack('f', ...)` on each coordinate, giving the bit patterns written, and
 * `normalOf` is the cross-product-and-normalise of a triangle; both come from outside.
 */
module TerrainExport {
  import opened Wrappers
  import opened Bytes
  import opened Ozt
  import opened OzyCommon
  import opened InsertionOrder
  import Collision

  /** One loop triangle: its three corners in loop order. */
  datatype Tri<K> = Tri(a: K, b: K, c: K)

  /** Corner `c` (0, 1 or 2) of a triangle. */
  function Corner<K>(t: Tri<K>, c: nat): K
    requires c < 3
  {
    if c == 0 then t.a else if c == 1 then t.b else t.c
  }

  /** The corners in the order the exporter visits them: triangle by triangle, loop by loop. */
  function Corners<K>(tris: seq<Tri<K>>): (r: seq<K>)
    ensures |r| == 3 * |tris|
  {
    seq(3 * |tris|, m requires 0 <= m < 3 * |tris| => Corner(tris[m / 3], m % 3))
  }

  /** Corner `c` of triangle `k` is visited at step `3k + c`. */
  lemma CornersAt<K>(tris: seq<Tri<K>>, k: nat, c: nat)
    requires k < |tris| && c < 3
    ensures 3 * k + c < |Corners(tris)| && Corners(tris)[3 * k + c] == Corner(tris[k], c)
  {
    assert (3 * k + c) / 3 == k && (3 * k + c) % 3 == c;
  }

  /**
   * The dedup loop: a corner already in `vertex_index_map` reuses its index, a new one gets
   * `current_index`, which then grows by one. `order` is the map's key order, the order the
   * vertex block is written in.
   */
  method Dedup<K(==)>(corners: seq<K>) returns (order: seq<K>, indexBuffer: seq<nat>)
    ensures order == Distinct(corners)
    ensures |indexBuffer| == |corners|
    ensures forall k | 0 <= k < |corners| :: indexBuffer[k] < |order| && order[indexBuffer[k]] == corners[k]
  {
    var index: map<K, nat> := map[];
    var current := 0;
    order, indexBuffer := [], [];
    for i := 0 to |corners|
      invariant current == |order|
      invariant order == Distinct(corners[..i])
      invariant forall x | x in index :: x in order
      invariant forall k | 0 <= k < |order| :: order[k] in index
      invariant forall k | 0 <= k < |order| :: index[order[k]] == k
      invariant |indexBuffer| == i
      invariant forall k | 0 <= k < i :: indexBuffer[k] < |order| && order[indexBuffer[k]] == corners[k]
    {
      var v := corners[i];
      assert corners[..i + 1][..i] == corners[..i];
      DistinctMembers(corners[..i], v);
      if v in index {
        var k :| 0 <= k < |order| && order[k] == v;
        assert index[v] == k;
        indexBuffer := indexBuffer + [index[v]];
      } else {
        ghost var previous := order;
        index := index[v := current];
        indexBuffer := indexBuffer + [current];
        order := order + [v];
        current := current + 1;
        assert forall k | 0 <= k < |previous| :: order[k] == previous[k];
      }
    }
    assert corners[..|corners|] == corners;
  }

  /** Two corners share an index exactly when they are the same key. */
  lemma SharedIndexMeansSameCorner<K>(corners: seq<K>, order: seq<K>, indexBuffer: seq<nat>, j: nat, k: nat)
    requires order == Distinct(corners) && |indexBuffer| == |corners|
    requires forall m | 0 <= m < |corners| :: indexBuffer[m] < |order| && order[indexBuffer[m]] == corners[m]
    requires j < |corners| && k < |corners|
    ensures indexBuffer[j] == indexBuffer[k] <==> corners[j] == corners[k]
  {
    DistinctNoDuplicates(corners);
  }

  /**
   * A corner not seen before gets the next free index: the number of distinct corners
   * before it, so indices are handed out 0, 1, 2, ... in order of first sight.
   */
  lemma NewCornerGetsNextIndex<K>(corners: seq<K>, order: seq<K>, indexBuffer: seq<nat>, k: nat)
    requires order == Distinct(corners) && |indexBuffer| == |corners|
    requires forall m | 0 <= m < |corners| :: indexBuffer[m] < |order| && order[indexBuffer[m]] == corners[m]
    requires k < |corners| && corners[k] !in corners[..k]
    ensures indexBuffer[k] == |Distinct(corners[..k])|
  {
    var seen := Distinct(corners[..k]);
    assert corners[..k + 1][..k] == corners[..k];
    DistinctMembers(corners[..k], corners[k]);
    assert Distinct(corners[..k + 1]) == seen + [corners[k]];
    DistinctPrefix(corners, k + 1);
    assert order[|seen|] == corners[k];
    DistinctNoDuplicates(corners);
  }

  /** Every vertex of the deduplicated list is used by some corner. */
  lemma EveryVertexUsed<K>(corners: seq<K>, order: seq<K>, indexBuffer: seq<nat>, v: nat)
    requires order == Distinct(corners) && |indexBuffer| == |corners|
    requires forall m | 0 <= m < |corners| :: indexBuffer[m] < |order| && order[indexBuffer[m]] == corners[m]
    requires v < |order|
    ensures exists m :: 0 <= m < |corners| && indexBuffer[m] == v
  {
    DistinctMembers(corners, order[v]);
    DistinctNoDuplicates(corners);
    var m :| 0 <= m < |corners| && corners[m] == order[v];
    assert order[indexBuffer[m]] == order[v];
  }

  /** The index block: `index.to_bytes(2, "little")` per index, which fails from 65536 on. */
  function IndexBytes(indices: seq<nat>): (r: Result<seq<Byte>, PyError>)
    ensures r.Ok? <==> forall k | 0 <= k < |indices| :: indices[k] < TWO_16
    ensures r.Ok? ==> r.value == LeU16s(indices)
  {
    if indices == [] then Ok([])
    else if indices[0] >= TWO_16 then Err(OverflowError)
    else
      var more :- IndexBytes(indices[1..]);
      assert indices == [indices[0]] + indices[1..];
      Ok(LeU16(indices[0]) + more)
  }

  /**
   * The write order of `execute`: the vertex header and block, the index header and block,
   * the normal header and block. Any header or index that does not fit raises.
   */
  function WriteOzt(vertices: seq<P3>, indices: seq<nat>, normals: seq<P3>): (r: Result<seq<Byte>, PyError>)
    ensures r.Ok? <==> 12 * |vertices| < TWO_32 && 2 * |indices| < TWO_32 && 12 * |normals| < TWO_32
                       && forall k | 0 <= k < |indices| :: indices[k] < TWO_16
    ensures r.Ok? ==> FromOzt(r.value) == Some(OztTerrain(vertices, indices, normals))
  {
    var vertexHeader :- SizeAsU32(|vertices|, 12);
    var indexHeader :- SizeAsU32(|indices|, 2);
    var indexBlock :- IndexBytes(indices);
    var normalHeader :- SizeAsU32(|normals|, 12);
    var t := OztTerrain(vertices, indices, normals);
    var file := vertexHeader + P3Bytes(vertices) + indexHeader + indexBlock + normalHeader + P3Bytes(normals);
    assert file == OztBytes(t) + [];
    FromOztRoundTrip(t, []);
    Ok(file)
  }

  /**
   * `t` holds the packed distinct corners in first-seen order, three indices per triangle
   * that point at each corner's packed coordinates, and one normal per triangle.
   */
  predicate Exports<K(==)>(tris: seq<Tri<K>>, pack: K -> P3, normalOf: Tri<K> -> P3, t: OztTerrain) {
    && |t.vertices| == |Distinct(Corners(tris))|
    && (forall v | 0 <= v < |t.vertices| :: t.vertices[v] == pack(Distinct(Corners(tris))[v]))
    && IndexesCorners(tris, pack, normalOf, t)
  }

  /**
   * `t` has three indices per triangle that point at each corner's packed coordinates,
   * and one normal per triangle.
   */
  predicate IndexesCorners<K>(tris: seq<Tri<K>>, pack: K -> P3, normalOf: Tri<K> -> P3, t: OztTerrain) {
    && |t.indices| == 3 * |tris| && |t.normals| == |tris|
    && (forall m | 0 <= m < |t.indices| ::
          t.indices[m] < |t.vertices| && t.vertices[t.indices[m]] == pack(Corners(tris)[m]))
    && (forall k | 0 <= k < |tris| :: t.normals[k] == normalOf(tris[k]))
  }

  /** Each key packed into its coordinates. */
  function Packed<K>(keys: seq<K>, pack: K -> P3): (r: seq<P3>)
    ensures |r| == |keys| && forall v | 0 <= v < |keys| :: r[v] == pack(keys[v])
  {
    seq(|keys|, v requires 0 <= v < |keys| => pack(keys[v]))
  }

  /** One normal per triangle. */
  function Normals<K>(tris: seq<Tri<K>>, normalOf: Tri<K> -> P3): (r: seq<P3>)
    ensures |r| == |tris| && forall k | 0 <= k < |tris| :: r[k] == normalOf(tris[k])
  {
    seq(|tris|, k requires 0 <= k < |tris| => normalOf(tris[k]))
  }

  /** The deduplicated corners, packed, with their index buffer and the normals, are an export of `tris`. */
  lemma DedupedExports<K>(tris: seq<Tri<K>>, pack: K -> P3, normalOf: Tri<K> -> P3,
                              order: seq<K>, indexBuffer: seq<nat>)
    requires order == Distinct(Corners(tris)) && |indexBuffer| == |Corners(tris)|
    requires forall k | 0 <= k < |Corners(tris)| ::
               indexBuffer[k] < |order| && order[indexBuffer[k]] == Corners(tris)[k]
    requires forall k | 0 <= k < |indexBuffer| :: indexBuffer[k] < TWO_16
    ensures Exports(tris, pack, normalOf, OztTerrain(Packed(order, pack), indexBuffer, Normals(tris, normalOf)))
  {
  }

  /**
   * The engine's collision lookup on an exported mesh gives back the exported triangle:
   * face `k` of the loaded terrain has the packed corners of triangle `k` and its normal.
   */
  lemma ExportedTriangleLoadsBack<K>(tris: seq<Tri<K>>, pack: K -> P3, normalOf: Tri<K> -> P3,
                                         t: OztTerrain, k: nat)
    requires IndexesCorners(tris, pack, normalOf, t) && k < |tris|
    ensures var terrain := Collision.Terrain(t.vertices, t.indices, t.normals);
            && 3 * k + 2 < |t.indices|
            && Collision.GetTerrainTriangle(terrain, 3 * k)
               == Collision.Triangle(pack(tris[k].a), pack(tris[k].b), pack(tris[k].c), normalOf(tris[k]))
  {
    var corners := Corners(tris);
    CornersAt(tris, k, 0);
    CornersAt(tris, k, 1);
    CornersAt(tris, k, 2);
    var points := Packed(corners, pack);
    assert points[3 * k] == pack(tris[k].a) && points[3 * k + 1] == pack(tris[k].b) && points[3 * k + 2] == pack(tris[k].c);
    FaceLoadsBack(t, points, k);
  }

  /** Face `k` of a mesh whose index `n` points at `points[n]`. */
  lemma FaceLoadsBack(t: OztTerrain, points: seq<P3>, k: nat)
    requires |t.indices| == |points| && 3 * k + 2 < |points| && k < |t.normals|
    requires forall n | 0 <= n < |t.indices| :: t.indices[n] < |t.vertices| && t.vertices[t.indices[n]] == points[n]
    ensures Collision.GetTerrainTriangle(Collision.Terrain(t.vertices, t.indices, t.normals), 3 * k)
            == Collision.Triangle(points[3 * k], points[3 * k + 1], points[3 * k + 2], t.normals[k])
  {
    assert t.indices[3 * k + 1] < |t.vertices| && t.indices[3 * k + 2] < |t.vertices|;
    assert (3 * k) / 3 == k;
  }

  /**
   * The whole export. It fails exactly when a header does not fit in a u32 or there are
   * more than 65536 distinct corners; otherwise the file loads back, through `from_ozt`, as
   * the packed distinct corners in first-seen order, three indices per triangle that point
   * at each corner's packed coordinates, and one normal per triangle.
   */
  method ExportTerrain<K(==)>(tris: seq<Tri<K>>, pack: K -> P3, normalOf: Tri<K> -> P3)
    returns (r: Result<seq<Byte>, PyError>)
    ensures r.Ok? <==> 12 * |tris| < TWO_32 && |Distinct(Corners(tris))| <= TWO_16
    ensures r.Ok? ==> FromOzt(r.value).Some?
    ensures r.Ok? ==> Exports(tris, pack, normalOf, FromOzt(r.value).value)
  {
    var corners := Corners(tris);
    var order, indexBuffer := Dedup(corners);
    var vertices := Packed(order, pack);
    var normals := Normals(tris, normalOf);
    if |order| <= TWO_16 {
      assert forall m | 0 <= m < |indexBuffer| :: indexBuffer[m] < TWO_16;
      DedupedExports(tris, pack, normalOf, order, indexBuffer);
    } else {
      EveryVertexUsed(corners, order, indexBuffer, TWO_16);
      var m :| 0 <= m < |corners| && indexBuffer[m] == TWO_16;
    }
    r := WriteOzt(vertices, indexBuffer, normals);
    if r.Ok? {
      var t := FromOzt(r.value).value;
      assert t == OztTerrain(vertices, indexBuffer, normals);
    }
  }
}
