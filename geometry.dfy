/**
 * Three-component velocity and position vectors (east, north, up) as the conflict
 * resolver uses them, and the transcendental functions it calls, which the model takes
 * as given functions rather than computing them.
 */
module Geometry {
  datatype Vec3 = Vec3(x: real, y: real, z: real)

  const Zero: Vec3 := Vec3(0.0, 0.0, 0.0)

  function Add(a: Vec3, b: Vec3): Vec3 {
    Vec3(a.x + b.x, a.y + b.y, a.z + b.z)
  }

  function Sub(a: Vec3, b: Vec3): Vec3 {
    Vec3(a.x - b.x, a.y - b.y, a.z - b.z)
  }

  function Neg(a: Vec3): Vec3 {
    Vec3(-a.x, -a.y, -a.z)
  }

  function Scale(a: Vec3, k: real): Vec3 {
    Vec3(a.x * k, a.y * k, a.z * k)
  }

  lemma SubAdd(a: Vec3, b: Vec3)
    ensures Add(Sub(a, b), b) == a
  {
  }

  /**
   * `sqrt`, `sin`/`cos` of an angle in degrees (`np.sin(np.radians(q))`), `arcsin`, `cos`
   * of radians, and `arctan2(x, y)` converted to degrees.
   */
  datatype Math = Math(
    sqrt: real -> real,
    sinDeg: real -> real,
    cosDeg: real -> real,
    arcsin: real -> real,
    cos: real -> real,
    atan2Deg: (real, real) -> real)

  /** `np.sign`. */
  function Sign(x: real): (s: real)
    ensures s == 1.0 || s == 0.0 || s == -1.0
    ensures (s > 0.0 <==> x > 0.0) && (s < 0.0 <==> x < 0.0)
  {
    if x > 0.0 then 1.0 else if x < 0.0 then -1.0 else 0.0
  }

  function Max(a: real, b: real): real {
    if a >= b then a else b
  }

  function Min(a: real, b: real): real {
    if a <= b then a else b
  }
}
