/**
 * A ray: an origin and a direction. src/ray.rs is not part of this model; the
 * type is the one its uses in src/objects.rs and src/camera.rs require, with
 * `at(t) = origin + dir * t`.
 */
module Rays {
  import opened Vectors

  datatype Ray = Ray(origin: Vec3, dir: Vec3)
  {
    /** The point `t` direction-lengths along the ray. */
    function At(t: real): (p: Vec3)
      ensures p.Sub(origin) == dir.Mul(t)
    {
      origin.Add(dir.Mul(t))
    }
  }
}
