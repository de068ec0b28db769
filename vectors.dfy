/**
 * The small fixed-size vectors the geometry code passes around.  Their
 * components are `float`s in the program; here they are reals, which the
 * model only stores, copies and compares.
 */
module Vectors {
  datatype Vec3 = Vec3(x: real, y: real, z: real)
  datatype Vec2 = Vec2(u: real, v: real)

  /** `Vector3f::Zero()`. */
  const Zero3: Vec3 := Vec3(0.0, 0.0, 0.0)
  /** `Vector2f::Zero()`. */
  const Zero2: Vec2 := Vec2(0.0, 0.0)
}
