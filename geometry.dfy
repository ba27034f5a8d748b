/** Unity's vector and colour values as the exporter sees them. Single-precision
    components are modelled as `real`: equality is exact and the order is the
    total order of the reals; rounding is not modelled. */
module Geometry {
  datatype Vec2 = Vec2(x: real, y: real)
  datatype Vec3 = Vec3(x: real, y: real, z: real)
  datatype Color32 = Color32(r: int, g: int, b: int, a: int)

  function Add3(a: Vec3, b: Vec3): Vec3 { Vec3(a.x + b.x, a.y + b.y, a.z + b.z) }
  function Sub3(a: Vec3, b: Vec3): Vec3 { Vec3(a.x - b.x, a.y - b.y, a.z - b.z) }
  function Cross(a: Vec3, b: Vec3): Vec3 {
    Vec3(a.y * b.z - a.z * b.y, a.z * b.x - a.x * b.z, a.x * b.y - a.y * b.x)
  }
  /** The squared length, compared against squared thresholds instead of taking a root. */
  function SqrMagnitude(a: Vec3): real { a.x * a.x + a.y * a.y + a.z * a.z }

  /** Component `axis` (0 = x, 1 = y, 2 = z), as Unity's `Vector3` indexer. */
  function Axis(a: Vec3, axis: nat): real
    requires axis < 3
  {
    if axis == 0 then a.x else if axis == 1 then a.y else a.z
  }

  function Abs(r: real): real { if r < 0.0 then -r else r }
  function Min(a: real, b: real): real { if a <= b then a else b }
  function Max(a: real, b: real): real { if a >= b then a else b }
}
