/**
 * Geometry and collision queries of the engine: plane, segment and ray intersection,
 * closest points, the terrain mesh scan and the sphere-triangle test.
 *
 * Arithmetic is exact over `real`. The two floating-point operations whose results the
 * model cannot compute, `f32::sqrt` and `glm::normalize`, are fields of a `Kernel`
 * passed to the queries that need them, so they stay uninterpreted. A NaN that the
 * source produces by dividing by zero is modelled as `None`.
 */
module Collision {
  import opened Wrappers
  import opened Bytes
  import opened Vectors
  import Lib

  /** The floating-point operations the model leaves uninterpreted. */
  datatype Kernel = Kernel(sqrt: real -> real, normalize: Vec3 -> Vec3)

  datatype LineSegment = LineSegment(p0: Vec3, p1: Vec3)

  datatype Ray = Ray(origin: Vec3, direction: Vec3)

  /** An infinite plane through `point` with normal `normal` (not necessarily unit length). */
  datatype Plane = Plane(point: Vec3, normal: Vec3)

  datatype PlaneBoundaries = PlaneBoundaries(xmin: real, xmax: real, ymin: real, ymax: real)

  datatype Sphere = Sphere(focus: Vec3, radius: real)

  /** A triangle with its precomputed face normal; generic so loaded raw data can use it too. */
  datatype Triangle<V> = Triangle(a: V, b: V, c: V, normal: V)

  /** An indexed triangle mesh: three indices per face, one normal per face. */
  datatype Terrain<V> = Terrain(vertices: seq<V>, indices: seq<U16>, faceNormals: seq<V>)

  /** `glm::distance(a, b)`: the length of `b - a`. */
  function Distance(k: Kernel, a: Vec3, b: Vec3): real {
    k.sqrt(DistSq(a, b))
  }

  // ---------------------------------------------------------------- segments and planes

  /** The squared extent of a segment in the x/y plane. */
  function PlanarLengthSq(s: LineSegment): real {
    (s.p1.x - s.p0.x) * (s.p1.x - s.p0.x) + (s.p1.y - s.p0.y) * (s.p1.y - s.p0.y)
  }

  /** `LineSegment::length`, which measures only the x/y extent of the segment. */
  function SegmentLength(k: Kernel, s: LineSegment): real {
    k.sqrt(PlanarLengthSq(s))
  }

  /** The length of a segment does not change when its endpoints move vertically. */
  lemma SegmentLengthIgnoresZ(k: Kernel, s: LineSegment, z0: real, z1: real)
    ensures SegmentLength(k, LineSegment(s.p0.(z := z0), s.p1.(z := z1))) == SegmentLength(k, s)
  {
    assert PlanarLengthSq(LineSegment(s.p0.(z := z0), s.p1.(z := z1))) == PlanarLengthSq(s);
  }

  /** The signed distance of `point` from `plane`, scaled by the length of the normal. */
  function PointPlaneDistance(point: Vec3, plane: Plane): real {
    Dot(plane.normal, Sub(point, plane.point))
  }

  /** Signed distance is affine along a segment. */
  lemma DistanceAlongSegment(plane: Plane, p0: Vec3, p1: Vec3, x: real)
    ensures PointPlaneDistance(Lerp(p0, p1, x), plane)
         == Affine(x, PointPlaneDistance(p0, plane), PointPlaneDistance(p1, plane))
  {
    var n, q := plane.normal, plane.point;
    CoordinateAffine(x, n.x, p0.x, p1.x, q.x);
    CoordinateAffine(x, n.y, p0.y, p1.y, q.y);
    CoordinateAffine(x, n.z, p0.z, p1.z, q.z);
    AffineSum(x, n.x * (p0.x - q.x), n.y * (p0.y - q.y), n.z * (p0.z - q.z),
                 n.x * (p1.x - q.x), n.y * (p1.y - q.y), n.z * (p1.z - q.z));
  }

  /** One coordinate of `DistanceAlongSegment`. */
  lemma CoordinateAffine(x: real, n: real, a: real, b: real, q: real)
    ensures n * ((1.0 - x) * a + x * b - q) == Affine(x, n * (a - q), n * (b - q))
  {
  }

  /** `Affine` is linear in its end values. */
  lemma AffineSum(x: real, a1: real, a2: real, a3: real, b1: real, b2: real, b3: real)
    ensures Affine(x, a1 + a2 + a3, b1 + b2 + b3) == Affine(x, a1, b1) + Affine(x, a2, b2) + Affine(x, a3, b3)
  {
  }

  /** `(1 - x) * d0 + x * d1`. */
  function Affine(x: real, d0: real, d1: real): real {
    (1.0 - x) * d0 + x * d1
  }

  /**
   * `segment_hit_plane`: the crossing point of the segment with the plane. A segment
   * parallel to the plane never hits, even one lying in it; a crossing exactly at `p0`
   * is not a hit, one exactly at `p1` is.
   */
  function SegmentHitPlane(plane: Plane, segment: LineSegment): (r: Option<Vec3>)
    ensures Dot(plane.normal, Sub(segment.p1, segment.p0)) == 0.0 ==> r.None?
    ensures r.Some? <==>
      var d0 := PointPlaneDistance(segment.p0, plane);
      var d1 := PointPlaneDistance(segment.p1, plane);
      (d0 < 0.0 <= d1) || (d1 <= 0.0 < d0)
    ensures r.Some? ==> PointPlaneDistance(r.value, plane) == 0.0
    ensures r.Some? ==> exists x :: 0.0 < x <= 1.0 && r.value == Lerp(segment.p0, segment.p1, x)
  {
    var denominator := Dot(plane.normal, Sub(segment.p1, segment.p0));
    if denominator != 0.0 then
      var x := Dot(plane.normal, Sub(plane.point, segment.p0)) / denominator;
      SegmentHitCases(plane, segment, x);
      if 0.0 < x && x <= 1.0 then Some(Lerp(segment.p0, segment.p1, x)) else None
    else
      None
  }

  /** The arithmetic behind `SegmentHitPlane`'s contract, for the parameter the source computes. */
  lemma SegmentHitCases(plane: Plane, segment: LineSegment, x: real)
    requires Dot(plane.normal, Sub(segment.p1, segment.p0)) != 0.0
    requires x == Dot(plane.normal, Sub(plane.point, segment.p0)) / Dot(plane.normal, Sub(segment.p1, segment.p0))
    ensures var d0 := PointPlaneDistance(segment.p0, plane);
            var d1 := PointPlaneDistance(segment.p1, plane);
            (0.0 < x <= 1.0) <==> ((d0 < 0.0 <= d1) || (d1 <= 0.0 < d0))
    ensures PointPlaneDistance(Lerp(segment.p0, segment.p1, x), plane) == 0.0
  {
    var d0 := PointPlaneDistance(segment.p0, plane);
    var d1 := PointPlaneDistance(segment.p1, plane);
    var num := Dot(plane.normal, Sub(plane.point, segment.p0));
    var den := Dot(plane.normal, Sub(segment.p1, segment.p0));
    assert den == d1 - d0;
    assert num == -d0;
    QuotientTimesDivisor(num, den);
    UnitParameter(d0, d1, x);
    DistanceAlongSegment(plane, segment.p0, segment.p1, x);
  }

  lemma QuotientTimesDivisor(num: real, den: real)
    requires den != 0.0
    ensures (num / den) * den == num
  {
  }

  /**
   * The crossing parameter `x`, where `x * (d1 - d0) == -d0`, lies in (0, 1] exactly when
   * the signed distances change sign from `d0` to `d1` as the source's cases say.
   */
  lemma UnitParameter(d0: real, d1: real, x: real)
    requires d1 != d0 && x * (d1 - d0) == -d0
    ensures (0.0 < x <= 1.0) <==> ((d0 < 0.0 <= d1) || (d1 <= 0.0 < d0))
    ensures Affine(x, d0, d1) == 0.0
  {
    var den := d1 - d0;
    assert Affine(x, d0, d1) == d0 + x * den;
    if den > 0.0 {
      ScaledUnitInterval(x, den, -d0);
    } else {
      assert x * (-den) == -(x * den);
      ScaledUnitInterval(x, -den, d0);
    }
  }

  /** For `e > 0`, `x` lies in (0, 1] exactly when `x * e` lies in (0, e]. */
  lemma ScaledUnitInterval(x: real, e: real, y: real)
    requires e > 0.0 && x * e == y
    ensures 0.0 < x <==> 0.0 < y
    ensures x <= 1.0 <==> y <= e
  {
    ScaleOrder(x, e, 0.0);
    ScaleOrder(x, e, 1.0);
    assert 0.0 * e == 0.0 && 1.0 * e == e;
  }

  /** Multiplying by a positive number keeps the order. */
  lemma ScaleOrder(x: real, e: real, c: real)
    requires e > 0.0
    ensures x <= c <==> x * e <= c * e
  {
    if x < c {
      PositiveProduct(c - x, e);
      assert c * e - x * e == (c - x) * e;
    } else if x > c {
      PositiveProduct(x - c, e);
      assert x * e - c * e == (x - c) * e;
    }
  }

  lemma PositiveProduct(a: real, b: real)
    requires a > 0.0 && b > 0.0
    ensures a * b > 0.0
  {
  }

  /**
   * `segment_hit_bounded_plane`: a segment hit whose point lies strictly inside the
   * x/y rectangle of `boundaries`.
   */
  function SegmentHitBoundedPlane(plane: Plane, segment: LineSegment, boundaries: PlaneBoundaries): (r: Option<Vec3>)
    ensures r.Some? <==>
      && SegmentHitPlane(plane, segment).Some?
      && InsideBoundaries(SegmentHitPlane(plane, segment).value, boundaries)
    ensures r.Some? ==> r == SegmentHitPlane(plane, segment)
  {
    match SegmentHitPlane(plane, segment)
    case Some(point) =>
      var onAabb := point.x > boundaries.xmin && point.x < boundaries.xmax
                 && point.y > boundaries.ymin && point.y < boundaries.ymax;
      if onAabb then Some(point) else None
    case None => None
  }

  /** The point lies strictly inside the rectangle, on every one of its four sides. */
  predicate InsideBoundaries(p: Vec3, b: PlaneBoundaries) {
    b.xmin < p.x < b.xmax && b.ymin < p.y < b.ymax
  }

  /**
   * `ray_hit_plane`: the parameter `t` and the point `origin + t * direction` where the
   * ray's line meets the plane. `t` may be negative; callers filter it.
   */
  function RayHitPlane(ray: Ray, plane: Plane): (r: Option<(real, Vec3)>)
    ensures r.None? <==> Dot(ray.direction, plane.normal) == 0.0
    ensures r.Some? ==> r.value.1 == Add(ray.origin, Scale(r.value.0, ray.direction))
    ensures r.Some? ==> PointPlaneDistance(r.value.1, plane) == 0.0
  {
    var denominator := Dot(ray.direction, plane.normal);
    if denominator == 0.0 then None
    else
      var t := Dot(Sub(plane.point, ray.origin), plane.normal) / denominator;
      var intersection := Add(ray.origin, Scale(t, ray.direction));
      assert PointPlaneDistance(intersection, plane)
          == t * denominator - Dot(Sub(plane.point, ray.origin), plane.normal);
      Some((t, intersection))
  }

  /** The tolerance of the point-in-triangle test (an `f32` constant in the source). */
  const EPSILON: real := 0.0001

  /**
   * `robust_point_in_triangle`: the point is taken to be inside when the normalised
   * normals of the sub-triangles (a, b, P), (b, c, P), (c, a, P) agree, i.e. when both
   * consecutive dot products lie strictly within EPSILON of 1.
   */
  predicate RobustPointInTriangle(k: Kernel, testPoint: Vec3, tri: Triangle<Vec3>) {
    var n1 := k.normalize(Cross(Sub(tri.a, tri.b), Sub(testPoint, tri.b)));
    var n2 := k.normalize(Cross(Sub(tri.b, tri.c), Sub(testPoint, tri.c)));
    var n3 := k.normalize(Cross(Sub(tri.c, tri.a), Sub(testPoint, tri.a)));
    var upper := 1.0 + EPSILON;
    var lower := 1.0 - EPSILON;
    var dot1 := Dot(n1, n2);
    var dot2 := Dot(n2, n3);
    dot1 > lower && dot1 < upper && dot2 > lower && dot2 < upper
  }

  /** When normalisation sends all three sub-triangle normals to one unit vector, the test passes. */
  lemma AgreeingNormalsPass(k: Kernel, p: Vec3, tri: Triangle<Vec3>, u: Vec3)
    requires Dot(u, u) == 1.0
    requires k.normalize(Cross(Sub(tri.a, tri.b), Sub(p, tri.b))) == u
    requires k.normalize(Cross(Sub(tri.b, tri.c), Sub(p, tri.c))) == u
    requires k.normalize(Cross(Sub(tri.c, tri.a), Sub(p, tri.a))) == u
    ensures RobustPointInTriangle(k, p, tri)
  {
  }

  /** When two consecutive sub-triangle normals are opposite unit vectors, the test fails. */
  lemma OpposedNormalsFail(k: Kernel, p: Vec3, tri: Triangle<Vec3>, u: Vec3)
    requires Dot(u, u) == 1.0
    requires k.normalize(Cross(Sub(tri.a, tri.b), Sub(p, tri.b))) == u
    requires k.normalize(Cross(Sub(tri.b, tri.c), Sub(p, tri.c))) == Scale(-1.0, u)
    ensures !RobustPointInTriangle(k, p, tri)
  {
    NegatedDot(u);
  }

  lemma NegatedDot(u: Vec3)
    ensures Dot(u, Scale(-1.0, u)) == -Dot(u, u)
  {
    assert u.x * (-1.0 * u.x) == -(u.x * u.x);
    assert u.y * (-1.0 * u.y) == -(u.y * u.y);
    assert u.z * (-1.0 * u.z) == -(u.z * u.z);
  }

  // ---------------------------------------------------------------- terrain

  /** The shape a loaded terrain must have for every face lookup to stay in bounds. */
  predicate ValidTerrain<V>(t: Terrain<V>) {
    && |t.indices| % 3 == 0
    && |t.faceNormals| >= |t.indices| / 3
    && forall i :: 0 <= i < |t.indices| ==> t.indices[i] < |t.vertices|
  }

  /**
   * `get_terrain_triangle`: the triangle whose indices start at `triangleIndex`, with the
   * normal of face `triangleIndex / 3`. Every access must be in bounds, as Rust's
   * indexing panics otherwise.
   */
  function GetTerrainTriangle<V>(terrain: Terrain<V>, triangleIndex: nat): (r: Triangle<V>)
    requires triangleIndex + 2 < |terrain.indices|
    requires terrain.indices[triangleIndex] < |terrain.vertices|
    requires terrain.indices[triangleIndex + 1] < |terrain.vertices|
    requires terrain.indices[triangleIndex + 2] < |terrain.vertices|
    requires triangleIndex / 3 < |terrain.faceNormals|
    ensures r.a == terrain.vertices[terrain.indices[triangleIndex]]
    ensures r.b == terrain.vertices[terrain.indices[triangleIndex + 1]]
    ensures r.c == terrain.vertices[terrain.indices[triangleIndex + 2]]
    ensures r.normal == terrain.faceNormals[triangleIndex / 3]
  {
    var a := terrain.vertices[terrain.indices[triangleIndex]];
    var b := terrain.vertices[terrain.indices[triangleIndex + 1]];
    var c := terrain.vertices[terrain.indices[triangleIndex + 2]];
    var normal := terrain.faceNormals[triangleIndex / 3];
    Triangle(a, b, c, normal)
  }

  /** The number of faces of a terrain. */
  function FaceCount<V>(t: Terrain<V>): nat {
    |t.indices| / 3
  }

  /** Triangle `f` of a valid terrain (the face whose indices start at `3 * f`). */
  function Face<V>(t: Terrain<V>, f: nat): Triangle<V>
    requires ValidTerrain(t) && f < FaceCount(t)
  {
    GetTerrainTriangle(t, 3 * f)
  }

  /**
   * What face `f` contributes to `ray_hit_terrain`: the ray's hit with the face's plane,
   * kept when it is not behind the origin and passes the point-in-triangle test.
   */
  function FaceHit(k: Kernel, t: Terrain<Vec3>, ray: Ray, f: nat): Option<(real, Vec3)>
    requires ValidTerrain(t) && f < FaceCount(t)
  {
    var triangle := Face(t, f);
    var plane := Plane(triangle.a, t.faceNormals[f]);
    match RayHitPlane(ray, plane)
    case None => None
    case Some(hit) => if hit.0 >= 0.0 && RobustPointInTriangle(k, hit.1, triangle) then Some(hit) else None
  }

  /**
   * `ray_hit_terrain`: the qualifying face hit with the smallest `t`; among equal `t`
   * the earliest face wins, because the running minimum is replaced only on a strictly
   * smaller `t`.
   */
  method RayHitTerrain(k: Kernel, terrain: Terrain<Vec3>, ray: Ray) returns (r: Option<(real, Vec3)>)
    requires ValidTerrain(terrain)
    ensures r.None? <==> forall f :: 0 <= f < FaceCount(terrain) ==> FaceHit(k, terrain, ray, f).None?
    ensures r.Some? ==> exists f :: 0 <= f < FaceCount(terrain) && FaceHit(k, terrain, ray, f) == r
    ensures r.Some? ==> forall g :: 0 <= g < FaceCount(terrain) && FaceHit(k, terrain, ray, g).Some?
                          ==> r.value.0 <= FaceHit(k, terrain, ray, g).value.0
    ensures r.Some? ==> exists f :: 0 <= f < FaceCount(terrain) && FaceHit(k, terrain, ray, f) == r
                          && forall g :: 0 <= g < f && FaceHit(k, terrain, ray, g).Some?
                               ==> FaceHit(k, terrain, ray, g).value.0 > r.value.0
  {
    var closestIntersection: Option<(real, Vec3)> := None;
    ghost var best: nat := 0;
    ghost var n: nat := 0;
    var i := 0;
    while i < |terrain.indices|
      invariant i == 3 * n && n <= FaceCount(terrain)
      invariant closestIntersection.None? <==> forall g :: 0 <= g < n ==> FaceHit(k, terrain, ray, g).None?
      invariant closestIntersection.Some? ==>
        && best < n
        && FaceHit(k, terrain, ray, best) == closestIntersection
        && (forall g :: 0 <= g < n && FaceHit(k, terrain, ray, g).Some?
              ==> closestIntersection.value.0 <= FaceHit(k, terrain, ray, g).value.0)
        && (forall g :: 0 <= g < best && FaceHit(k, terrain, ray, g).Some?
              ==> FaceHit(k, terrain, ray, g).value.0 > closestIntersection.value.0)
    {
      // The triangle, its plane, the ray's hit, and the `t >= 0` and point-in-triangle tests.
      assert i / 3 == n;
      var candidate := FaceHit(k, terrain, ray, i / 3);
      ghost var previous := closestIntersection;
      if candidate.Some? && (closestIntersection.None? || candidate.value.0 < closestIntersection.value.0) {
        closestIntersection := candidate;
        best := n;
      }
      forall g | 0 <= g < n + 1 && FaceHit(k, terrain, ray, g).Some?
        ensures closestIntersection.value.0 <= FaceHit(k, terrain, ray, g).value.0
      {
        if g < n {
          assert previous.value.0 <= FaceHit(k, terrain, ray, g).value.0;
        }
      }
      i := i + 3;
      n := n + 1;
    }
    r := closestIntersection;
  }

  /**
   * `segment_plane_tallest_collision`: among the planes the segment hits, the hit with
   * the greatest z, returned as a plane through that point with the hit plane's normal.
   * The running maximum is replaced only on a strictly greater z, so the earliest plane
   * wins ties.
   */
  method SegmentPlaneTallestCollision(segment: LineSegment, planes: seq<Plane>) returns (r: Option<Plane>)
    ensures r.None? <==> forall j :: 0 <= j < |planes| ==> SegmentHitPlane(planes[j], segment).None?
    ensures r.Some? ==> forall j :: 0 <= j < |planes| && SegmentHitPlane(planes[j], segment).Some?
                          ==> SegmentHitPlane(planes[j], segment).value.z <= r.value.point.z
    ensures r.Some? ==> exists j :: 0 <= j < |planes|
                          && SegmentHitPlane(planes[j], segment) == Some(r.value.point)
                          && r.value.normal == planes[j].normal
                          && forall g :: 0 <= g < j && SegmentHitPlane(planes[g], segment).Some?
                               ==> SegmentHitPlane(planes[g], segment).value.z < r.value.point.z
  {
    var collision: Option<Plane> := None;
    ghost var best: nat := 0;
    for i := 0 to |planes|
      invariant collision.None? <==> forall j :: 0 <= j < i ==> SegmentHitPlane(planes[j], segment).None?
      invariant collision.Some? ==>
        && best < i
        && SegmentHitPlane(planes[best], segment) == Some(collision.value.point)
        && collision.value.normal == planes[best].normal
        && (forall j :: 0 <= j < i && SegmentHitPlane(planes[j], segment).Some?
              ==> SegmentHitPlane(planes[j], segment).value.z <= collision.value.point.z)
        && (forall g :: 0 <= g < best && SegmentHitPlane(planes[g], segment).Some?
              ==> SegmentHitPlane(planes[g], segment).value.z < collision.value.point.z)
    {
      var plane := planes[i];
      var hit := SegmentHitPlane(plane, segment);
      if hit.Some? {
        var point := hit.value;
        // The source starts the running maximum at negative infinity.
        var higher := collision.None? || point.z > collision.value.point.z;
        if higher {
          collision := Some(Plane(point, plane.normal));
          best := i;
        }
      }
    }
    r := collision;
  }

  // ---------------------------------------------------------------- closest points

  /** The point at parameter `s` along the segment from `a` to `b`. */
  function SegmentPoint(a: Vec3, b: Vec3, s: real): Vec3 {
    Add(a, Scale(s, Sub(b, a)))
  }

  /**
   * `closest_point_on_line_segment`: project onto the line through `a` and `b` and clamp
   * the parameter to [0, 1]. The divisor `dot(ab, ab)` is zero exactly when `a == b`
   * (`ZeroLengthIffCoincident`); the source then divides zero by zero and every
   * coordinate of its result is NaN, which is `None` here.
   */
  function ClosestPointOnLineSegment(point: Vec3, a: Vec3, b: Vec3): (r: Option<Vec3>)
    ensures r.None? <==> a == b
    ensures r.Some? ==> ClosestOnSegment(point, a, b, r.value)
  {
    if a == b then None else Some(ClampedProjection(point, a, b))
  }

  /** A segment has zero length exactly when its endpoints coincide. */
  lemma ZeroLengthIffCoincident(a: Vec3, b: Vec3)
    ensures Dot(Sub(b, a), Sub(b, a)) == 0.0 <==> a == b
  {
    if Dot(Sub(b, a), Sub(b, a)) == 0.0 {
      CoincidentEndpoints(a, b);
    }
  }

  /** `q` is a point of the segment from `a` to `b`, and no point of the segment is closer to `p`. */
  ghost predicate ClosestOnSegment(p: Vec3, a: Vec3, b: Vec3, q: Vec3) {
    && (exists s :: 0.0 <= s <= 1.0 && q == SegmentPoint(a, b, s))
    && (forall s :: 0.0 <= s <= 1.0 ==> DistSq(p, q) <= DistSq(p, SegmentPoint(a, b, s)))
  }

  /** The projection of `point` onto the line, its parameter clamped to the segment. */
  function ClampedProjection(point: Vec3, a: Vec3, b: Vec3): (r: Vec3)
    requires a != b
    ensures ClosestOnSegment(point, a, b, r)
  {
    ZeroLengthIffCoincident(a, b);
    var ab := Sub(b, a);
    var t := Dot(Sub(point, a), ab) / Dot(ab, ab);
    ClampedParameterIsClosest(point, a, b, t);
    SegmentPoint(a, b, Lib.Clamp(t, 0.0, 1.0))
  }

  /** A segment of zero length has equal endpoints. */
  lemma CoincidentEndpoints(a: Vec3, b: Vec3)
    requires Dot(Sub(b, a), Sub(b, a)) == 0.0
    ensures a == b
  {
    SquaresVanish(Sub(b, a));
    ZeroDifference(a, b);
  }

  lemma ZeroDifference(a: Vec3, b: Vec3)
    requires Sub(b, a) == Zero
    ensures a == b
  {
  }

  lemma SquarePositive(x: real)
    requires x != 0.0
    ensures x * x > 0.0
  {
    if x > 0.0 {
      assert x * x > 0.0 * x;
    } else {
      assert (-x) * (-x) > 0.0 * (-x);
    }
  }

  /** A vector whose squared length is zero is the zero vector. */
  lemma SquaresVanish(v: Vec3)
    requires Dot(v, v) == 0.0
    ensures v == Zero
  {
    var x2, y2, z2 := v.x * v.x, v.y * v.y, v.z * v.z;
    assert x2 + y2 + z2 == 0.0;
    SquareNonNegative(v.x);
    SquareNonNegative(v.y);
    SquareNonNegative(v.z);
    assert x2 == 0.0 && y2 == 0.0 && z2 == 0.0;
    ZeroSquare(v.x);
    ZeroSquare(v.y);
    ZeroSquare(v.z);
  }

  lemma ZeroSquare(x: real)
    requires x * x == 0.0
    ensures x == 0.0
  {
    if x != 0.0 {
      SquarePositive(x);
      calc { 0.0; < x * x; == 0.0; }
    }
  }

  lemma SquareNonNegative(x: real)
    ensures x * x >= 0.0
  {
    if x != 0.0 { SquarePositive(x); }
  }

  lemma SquaredLengthNonNegative(v: Vec3)
    ensures Dot(v, v) >= 0.0
  {
    SquareNonNegative(v.x);
    SquareNonNegative(v.y);
    SquareNonNegative(v.z);
  }

  /** One coordinate of the squared distance from `p` to a point of the line. */
  lemma CoordinateSquare(s: real, u: real, v: real)
    ensures (s * v - u) * (s * v - u) == Quadratic(s, v * v, u * v, u * u)
  {
  }

  /** `Quadratic` is linear in its coefficients. */
  lemma QuadraticSum(s: real, l1: real, l2: real, l3: real, m1: real, m2: real, m3: real, n1: real, n2: real, n3: real)
    ensures Quadratic(s, l1 + l2 + l3, m1 + m2 + m3, n1 + n2 + n3)
         == Quadratic(s, l1, m1, n1) + Quadratic(s, l2, m2, n2) + Quadratic(s, l3, m3, n3)
  {
    assert s * s * (l1 + l2 + l3) == s * s * l1 + s * s * l2 + s * s * l3;
    assert 2.0 * s * (m1 + m2 + m3) == 2.0 * s * m1 + 2.0 * s * m2 + 2.0 * s * m3;
  }

  /** The squared length of `s v - u`, expanded. */
  lemma OffsetSquare(s: real, u: Vec3, v: Vec3)
    ensures Dot(Sub(Scale(s, v), u), Sub(Scale(s, v), u)) == Quadratic(s, Dot(v, v), Dot(u, v), Dot(u, u))
  {
    CoordinateSquare(s, u.x, v.x);
    CoordinateSquare(s, u.y, v.y);
    CoordinateSquare(s, u.z, v.z);
    QuadraticSum(s, v.x * v.x, v.y * v.y, v.z * v.z, u.x * v.x, u.y * v.y, u.z * v.z, u.x * u.x, u.y * u.y, u.z * u.z);
  }

  /** `x^2 len - 2 x uv + uu`: the squared distance to the point at parameter `x`. */
  function Quadratic(x: real, len: real, uv: real, uu: real): real {
    x * x * len - 2.0 * x * uv + uu
  }

  /** Completing the square in `ds == s^2 len - 2 s uv + uu`, given `t * len == uv`. */
  lemma CompleteSquare(s: real, t: real, len: real, uv: real, ds: real, uu: real)
    requires t * len == uv
    requires ds == Quadratic(s, len, uv, uu)
    ensures ds == Parabola(len, t, s) + uu
  {
    assert 2.0 * s * uv == 2.0 * s * (t * len);
  }

  lemma QuotientScaled(num: real, den: real, t: real)
    requires den != 0.0 && t == num / den
    ensures t * den == num
  {
  }

  /** The squared distance to the point at parameter `s`, as a polynomial in `s`. */
  lemma DistSqExpanded(p: Vec3, a: Vec3, b: Vec3, s: real)
    ensures DistSq(p, SegmentPoint(a, b, s))
         == Quadratic(s, Dot(Sub(b, a), Sub(b, a)), Dot(Sub(p, a), Sub(b, a)), Dot(Sub(p, a), Sub(p, a)))
  {
    var u, v := Sub(p, a), Sub(b, a);
    assert Sub(SegmentPoint(a, b, s), p) == Sub(Scale(s, v), u);
    OffsetSquare(s, u, v);
  }

  /** `len * ((s - t)^2 - t^2)`: the change in squared distance from `a` to parameter `s`. */
  function Parabola(len: real, t: real, s: real): real {
    len * ((s - t) * (s - t) - t * t)
  }

  /** Clamping the unconstrained minimiser to [0, 1] gives the closest point of the segment. */
  lemma ClampedParameterIsClosest(p: Vec3, a: Vec3, b: Vec3, t: real)
    requires Dot(Sub(b, a), Sub(b, a)) != 0.0
    requires t == Dot(Sub(p, a), Sub(b, a)) / Dot(Sub(b, a), Sub(b, a))
    ensures ClosestOnSegment(p, a, b, SegmentPoint(a, b, Lib.Clamp(t, 0.0, 1.0)))
  {
    QuotientScaled(Dot(Sub(p, a), Sub(b, a)), Dot(Sub(b, a), Sub(b, a)), t);
    forall s | 0.0 <= s <= 1.0
      ensures DistSq(p, SegmentPoint(a, b, Lib.Clamp(t, 0.0, 1.0))) <= DistSq(p, SegmentPoint(a, b, s))
    {
      ClampedBeatsParameter(p, a, b, t, s);
    }
  }

  /** The clamped parameter's point is at least as close as the point at any `s` in [0, 1]. */
  lemma ClampedBeatsParameter(p: Vec3, a: Vec3, b: Vec3, t: real, s: real)
    requires t * Dot(Sub(b, a), Sub(b, a)) == Dot(Sub(p, a), Sub(b, a))
    requires 0.0 <= s <= 1.0
    ensures DistSq(p, SegmentPoint(a, b, Lib.Clamp(t, 0.0, 1.0))) <= DistSq(p, SegmentPoint(a, b, s))
  {
    SquaredLengthNonNegative(Sub(b, a));
    DistSqExpanded(p, a, b, Lib.Clamp(t, 0.0, 1.0));
    DistSqExpanded(p, a, b, s);
    ClampedCentreLowest(Dot(Sub(b, a), Sub(b, a)), Dot(Sub(p, a), Sub(b, a)), Dot(Sub(p, a), Sub(p, a)), t, s,
                        DistSq(p, SegmentPoint(a, b, Lib.Clamp(t, 0.0, 1.0))), DistSq(p, SegmentPoint(a, b, s)));
  }

  /**
   * For `q(x) = x^2 len - 2 x uv + uu` with `len >= 0` and centre `t` (`t * len == uv`), the
   * clamped centre is no higher than any point of [0, 1].
   */
  lemma ClampedCentreLowest(len: real, uv: real, uu: real, t: real, s: real, dc: real, ds: real)
    requires len >= 0.0 && t * len == uv && 0.0 <= s <= 1.0
    requires dc == Quadratic(Lib.Clamp(t, 0.0, 1.0), len, uv, uu)
    requires ds == Quadratic(s, len, uv, uu)
    ensures dc <= ds
  {
    var c := Lib.Clamp(t, 0.0, 1.0);
    CompleteSquare(c, t, len, uv, dc, uu);
    CompleteSquare(s, t, len, uv, ds, uu);
    ParabolaOrder(len, t, c, s);
  }

  /** On a parabola opening upwards, the clamped centre is the lowest point of [0, 1]. */
  lemma ParabolaOrder(len: real, t: real, c: real, s: real)
    requires len >= 0.0 && c == Lib.Clamp(t, 0.0, 1.0) && 0.0 <= s <= 1.0
    ensures Parabola(len, t, c) <= Parabola(len, t, s)
  {
    SquaresOrdered(s - t, c - t);
    MultiplyNonNegative(len, (s - t) * (s - t) - (c - t) * (c - t));
    assert Parabola(len, t, s) - Parabola(len, t, c) == len * ((s - t) * (s - t) - (c - t) * (c - t));
  }

  /** The clamped parameter is never farther from `t` than another parameter in [0, 1]. */
  lemma SquaresOrdered(x: real, y: real)
    requires 0.0 <= y <= x || x <= y <= 0.0 || y == 0.0
    ensures y * y <= x * x
  {
    SquareNonNegative(x);
    if 0.0 <= y <= x {
      assert y * y <= x * y <= x * x;
    } else if x <= y <= 0.0 {
      assert y * y <= x * y <= x * x;
    }
  }

  lemma MultiplyNonNegative(x: real, y: real)
    requires x >= 0.0 && y >= 0.0
    ensures x * y >= 0.0
  {
  }

  /**
   * The candidate an edge offers `closest_point_on_triangle`: the distance and the
   * closest point, or `None` where the source's values are NaN.
   */
  function EdgeCandidate(k: Kernel, p: Vec3, a: Vec3, b: Vec3): Option<(real, Vec3)> {
    match ClosestPointOnLineSegment(p, a, b)
    case None => None
    case Some(q) => Some((Distance(k, p, q), q))
  }

  /** `<` on possibly-NaN distances: false whenever either side is NaN. */
  predicate Closer(x: Option<(real, Vec3)>, y: Option<(real, Vec3)>) {
    x.Some? && y.Some? && x.value.0 < y.value.0
  }

  /**
   * `closest_point_on_triangle`: the nearest of the closest points on the edges ab, bc
   * and ca, with its distance. A later edge replaces the best only when strictly
   * closer, so the earliest edge at the minimal distance wins; a NaN distance on ab
   * (degenerate edge) is never replaced because no comparison with NaN holds.
   */
  function ClosestPointOnTriangle(k: Kernel, testPoint: Vec3, triangle: Triangle<Vec3>): (r: Option<(real, Vec3)>)
    ensures var c0 := EdgeCandidate(k, testPoint, triangle.a, triangle.b);
            var c1 := EdgeCandidate(k, testPoint, triangle.b, triangle.c);
            var c2 := EdgeCandidate(k, testPoint, triangle.c, triangle.a);
            && (r == c0 || r == c1 || r == c2)
            && (r.Some? <==> c0.Some?)
            && (r.Some? ==> c0.Some? && r.value.0 <= c0.value.0)
            && (r.Some? && c1.Some? ==> r.value.0 <= c1.value.0)
            && (r.Some? && c2.Some? ==> r.value.0 <= c2.value.0)
            && (r.Some? && r.value.0 == c0.value.0 ==> r == c0)
            && (r.Some? && r != c0 && c1.Some? && r.value.0 == c1.value.0 ==> r == c1)
  {
    var best0 := EdgeCandidate(k, testPoint, triangle.a, triangle.b);
    var next1 := EdgeCandidate(k, testPoint, triangle.b, triangle.c);
    var best1 := if Closer(next1, best0) then next1 else best0;
    var next2 := EdgeCandidate(k, testPoint, triangle.c, triangle.a);
    if Closer(next2, best1) then next2 else best1
  }

  // ---------------------------------------------------------------- planes, points, spheres

  /**
   * `projected_point_on_plane`: the signed distance of `point` and the point reached by
   * moving back along the normal by that distance.
   */
  function ProjectedPointOnPlane(point: Vec3, plane: Plane): (r: (real, Vec3))
    ensures r.0 == PointPlaneDistance(point, plane)
    ensures Dot(plane.normal, plane.normal) == 1.0 ==> PointPlaneDistance(r.1, plane) == 0.0
    ensures Dot(plane.normal, plane.normal) == 1.0 ==> DistSq(point, r.1) == r.0 * r.0
  {
    var dist1 := PointPlaneDistance(point, plane);
    var p := Add(point, Scale(-dist1, plane.normal));
    assert PointPlaneDistance(p, plane) == dist1 - dist1 * Dot(plane.normal, plane.normal);
    assert DistSq(point, p) == dist1 * dist1 * Dot(plane.normal, plane.normal);
    (dist1, p)
  }

  /** With a unit normal, projecting a projected point leaves it where it is. */
  lemma ProjectionIdempotent(point: Vec3, plane: Plane)
    requires Dot(plane.normal, plane.normal) == 1.0
    ensures var p := ProjectedPointOnPlane(point, plane).1;
            ProjectedPointOnPlane(p, plane) == (0.0, p)
  {
    var p := ProjectedPointOnPlane(point, plane).1;
    assert PointPlaneDistance(p, plane) == 0.0;
    assert Add(p, Scale(-0.0, plane.normal)) == p;
  }

  /** `midpoint`: half of the sum of the two points. */
  function Midpoint(p0: Vec3, p1: Vec3): (r: Vec3)
    ensures Sub(r, p0) == Sub(p1, r)
    ensures DistSq(r, p0) == DistSq(r, p1)
    ensures r == Lerp(p0, p1, 0.5)
  {
    Scale(0.5, Add(p0, p1))
  }

  /** `spheres_collide`: the distance between the centres is below the sum of the radii. */
  predicate SpheresCollide(k: Kernel, s1: Sphere, s2: Sphere) {
    Distance(k, s1.focus, s2.focus) < s1.radius + s2.radius
  }

  /** Sphere overlap does not depend on the order of the spheres. */
  lemma SpheresCollideSymmetric(k: Kernel, s1: Sphere, s2: Sphere)
    ensures SpheresCollide(k, s1, s2) <==> SpheresCollide(k, s2, s1)
  {
    DistSqSymmetric(s1.focus, s2.focus);
  }

  /** `f32::abs`. */
  function Abs(x: real): real {
    if x < 0.0 then -x else x
  }

  /**
   * `triangle_sphere_collision_point`: a broad phase on the bounding spheres, then the
   * sphere's centre projected onto the face when it is close enough and inside the
   * triangle, else the closest edge point when it is within the radius.
   */
  function TriangleSphereCollisionPoint(k: Kernel, sphere: Sphere, triangle: Triangle<Vec3>, triangleSphere: Sphere)
    : (r: Option<(real, Vec3)>)
    ensures !SpheresCollide(k, sphere, triangleSphere) ==> r.None?
    ensures r.Some? ==> r.value.0 < sphere.radius
    ensures var plane := Plane(triangle.a, triangle.normal);
            var (d, q) := ProjectedPointOnPlane(sphere.focus, plane);
            (SpheresCollide(k, sphere, triangleSphere) && Abs(d) < sphere.radius && RobustPointInTriangle(k, q, triangle) ==>
               r == Some((d, q)))
    ensures var plane := Plane(triangle.a, triangle.normal);
            var (d, q) := ProjectedPointOnPlane(sphere.focus, plane);
            (!(Abs(d) < sphere.radius && RobustPointInTriangle(k, q, triangle)) ==>
               r.None? || r == ClosestPointOnTriangle(k, sphere.focus, triangle))
    ensures var plane := Plane(triangle.a, triangle.normal);
            var (d, q) := ProjectedPointOnPlane(sphere.focus, plane);
            var e := ClosestPointOnTriangle(k, sphere.focus, triangle);
            (SpheresCollide(k, sphere, triangleSphere) && !(Abs(d) < sphere.radius && RobustPointInTriangle(k, q, triangle)) ==>
               (r.Some? <==> e.Some? && e.value.0 < sphere.radius))
  {
    var trianglePlane := Plane(triangle.a, triangle.normal);
    if SpheresCollide(k, sphere, triangleSphere) then
      var (dist, pointOnPlane) := ProjectedPointOnPlane(sphere.focus, trianglePlane);
      if Abs(dist) < sphere.radius && RobustPointInTriangle(k, pointOnPlane, triangle) then
        Some((dist, pointOnPlane))
      else
        // A NaN distance fails the comparison with the radius.
        match ClosestPointOnTriangle(k, sphere.focus, triangle)
        case Some((bestDist, bestPoint)) => if bestDist < sphere.radius then Some((bestDist, bestPoint)) else None
        case None => None
    else
      None
  }

  /**
   * The correction for a contact at `point` at signed distance `dist`: the unit direction
   * from the contact point to the centre (reversed when the centre is behind the face)
   * scaled by the penetration depth.
   */
  function Correction(k: Kernel, focus: Vec3, radius: real, dist: real, point: Vec3): Vec3 {
    var flip := if dist < 0.0 then -1.0 else 1.0;
    Scale(radius - dist, Scale(flip, k.normalize(Sub(focus, point))))
  }

  /**
   * `triangle_collide_sphere`: the vector that moves the sphere out of the triangle, or the
   * zero vector when the contact point is the centre itself.
   */
  function TriangleCollideSphere(k: Kernel, actorSphere: Sphere, triangle: Triangle<Vec3>, triangleSphere: Sphere)
    : (r: Option<Vec3>)
    ensures r.None? <==> TriangleSphereCollisionPoint(k, actorSphere, triangle, triangleSphere).None?
    ensures r.Some? ==>
      var (dist, point) := TriangleSphereCollisionPoint(k, actorSphere, triangle, triangleSphere).value;
      && (actorSphere.focus == point ==> r.value == Zero)
      && actorSphere.radius - dist > 0.0
      && (actorSphere.focus != point ==> DepthLong(k, actorSphere.focus, actorSphere.radius, dist, point, r.value))
      && (actorSphere.focus != point ==> PointsAway(k, actorSphere.focus, dist, point, r.value))
  {
    var contact := TriangleSphereCollisionPoint(k, actorSphere, triangle, triangleSphere);
    if contact.None? then None
    else if actorSphere.focus == contact.value.1 then Some(Zero)
    else
      CorrectionLengthIsDepth(k, actorSphere.focus, actorSphere.radius, contact.value.0, contact.value.1);
      CorrectionPointsAway(k, actorSphere.focus, actorSphere.radius, contact.value.0, contact.value.1);
      Some(Correction(k, actorSphere.focus, actorSphere.radius, contact.value.0, contact.value.1))
  }

  /** When `normalize` returns a unit vector, `v` is exactly as long as the penetration depth. */
  predicate DepthLong(k: Kernel, focus: Vec3, radius: real, dist: real, point: Vec3, v: Vec3) {
    var n := k.normalize(Sub(focus, point));
    Dot(n, n) == 1.0 ==> Dot(v, v) == (radius - dist) * (radius - dist)
  }

  /** The correction vector is as long as the penetration depth. */
  lemma CorrectionLengthIsDepth(k: Kernel, focus: Vec3, radius: real, dist: real, point: Vec3)
    ensures DepthLong(k, focus, radius, dist, point, Correction(k, focus, radius, dist, point))
  {
    var n := k.normalize(Sub(focus, point));
    var flip := if dist < 0.0 then -1.0 else 1.0;
    assert flip * flip == 1.0;
    ScaledSquare(radius - dist, flip, n.x);
    ScaledSquare(radius - dist, flip, n.y);
    ScaledSquare(radius - dist, flip, n.z);
  }

  /**
   * When `normalize` keeps the direction of `focus - point` (its result has a positive dot
   * product with it), `v` points from the contact towards the centre for a contact in front
   * of the face, and the other way for a centre behind it (negative `dist`).
   */
  predicate PointsAway(k: Kernel, focus: Vec3, dist: real, point: Vec3, v: Vec3) {
    var u := Sub(focus, point);
    Dot(k.normalize(u), u) > 0.0 ==> (if dist < 0.0 then Dot(v, u) < 0.0 else Dot(v, u) > 0.0)
  }

  /** With a positive penetration depth the correction pushes the sphere out of the contact. */
  lemma CorrectionPointsAway(k: Kernel, focus: Vec3, radius: real, dist: real, point: Vec3)
    requires radius - dist > 0.0
    ensures PointsAway(k, focus, dist, point, Correction(k, focus, radius, dist, point))
  {
    var u := Sub(focus, point);
    var n := k.normalize(u);
    var flip := if dist < 0.0 then -1.0 else 1.0;
    ScaledDot(radius - dist, flip, n, u);
    if Dot(n, u) > 0.0 {
      assert (radius - dist) * Dot(n, u) > 0.0;
    }
  }

  lemma ScaledDot(d: real, f: real, n: Vec3, u: Vec3)
    ensures Dot(Scale(d, Scale(f, n)), u) == f * (d * Dot(n, u))
  {
  }

  /**
   * A `normalize` that scales its argument by a positive factor keeps its direction, so the
   * premise of `PointsAway` holds for any contact other than the centre itself.
   */
  lemma PositiveScalingKeepsDirection(k: Kernel, focus: Vec3, point: Vec3, c: real)
    requires focus != point && c > 0.0
    requires k.normalize(Sub(focus, point)) == Scale(c, Sub(focus, point))
    ensures Dot(k.normalize(Sub(focus, point)), Sub(focus, point)) > 0.0
  {
    var u := Sub(focus, point);
    ZeroLengthIffCoincident(point, focus);
    assert Dot(u, u) > 0.0 by { SquaredLengthNonNegative(u); }
    assert Dot(Scale(c, u), u) == c * Dot(u, u);
    assert c * Dot(u, u) > 0.0;
  }

  lemma ScaledSquare(d: real, f: real, x: real)
    requires f * f == 1.0
    ensures (d * (f * x)) * (d * (f * x)) == (d * d) * (x * x)
  {
    assert (d * (f * x)) * (d * (f * x)) == (d * d) * (f * f) * (x * x);
  }
}
