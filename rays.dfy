/** Rays: an origin and a direction (src/ray.rs). */
module Rays {
  import opened Vectors
  import opened Points

  datatype Ray = Ray(origin: Point3, direction: Vec3) {

    /** The point the ray reaches at time `t`: displaced from the origin by `t` times the direction. */
    function At(t: real): (r: Point3)
      ensures r.SubPoint(origin) == ScalarMul(t, direction)
    {
      origin.AddVec(ScalarMul(t, direction))
    }
  }

  /** At time zero the ray is at its origin. */
  lemma AtZero(ray: Ray)
    ensures ray.At(0.0) == ray.origin
  {
  }

  /** Travelling for `s` and then for `t` more is travelling for `s + t`. */
  lemma AtAdditive(ray: Ray, s: real, t: real)
    ensures ray.At(s + t) == ray.At(s).AddVec(ScalarMul(t, ray.direction))
  {
  }
}
