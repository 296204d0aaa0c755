/** Real-valued 3-vectors: the exact counterpart of `glm::TVec3<f32>`. */
module Vectors {

  datatype Vec3 = Vec3(x: real, y: real, z: real)

  const Zero: Vec3 := Vec3(0.0, 0.0, 0.0)

  function Add(a: Vec3, b: Vec3): Vec3 {
    Vec3(a.x + b.x, a.y + b.y, a.z + b.z)
  }

  function Sub(a: Vec3, b: Vec3): Vec3 {
    Vec3(a.x - b.x, a.y - b.y, a.z - b.z)
  }

  function Scale(s: real, v: Vec3): Vec3 {
    Vec3(s * v.x, s * v.y, s * v.z)
  }

  function Dot(a: Vec3, b: Vec3): real {
    a.x * b.x + a.y * b.y + a.z * b.z
  }

  function Cross(a: Vec3, b: Vec3): Vec3 {
    Vec3(a.y * b.z - a.z * b.y, a.z * b.x - a.x * b.z, a.x * b.y - a.y * b.x)
  }

  /** Squared Euclidean distance; exact, unlike the `sqrt`-based `glm::distance`. */
  function DistSq(a: Vec3, b: Vec3): real {
    Dot(Sub(b, a), Sub(b, a))
  }

  /** `(1 - x) * p0 + x * p1`, the parametrisation used for segment hits. */
  function Lerp(p0: Vec3, p1: Vec3, x: real): Vec3 {
    Add(Scale(1.0 - x, p0), Scale(x, p1))
  }

  lemma DistSqSymmetric(a: Vec3, b: Vec3)
    ensures DistSq(a, b) == DistSq(b, a)
  {
  }
}
