/**
 * Points in 3D space and their affine rules (src/point3.rs).
 *
 * A point wraps a vector but has its own, smaller set of operations: a vector
 * can be added to or subtracted from a point, and two points can be
 * subtracted to give a vector.  There is no point + point: `Point3` and
 * `Vec3` are distinct types, so such an expression does not type-check.
 */
module Points {
  import opened Vectors

  datatype Point3 = Point3(v: Vec3) {

    /** `Point3 + Vec3`: translation, component-wise. */
    function AddVec(d: Vec3): (r: Point3)
      ensures r.v == Vec3(v.x + d.x, v.y + d.y, v.z + d.z)
    {
      Point3(v.Add(d))
    }

    /** `Point3 - Point3`: the vector leading from `q` to this point. */
    function SubPoint(q: Point3): (r: Vec3)
      ensures q.AddVec(r) == this
    {
      v.Sub(q.v)
    }

    /** `Point3 - Vec3`: translation by the negated vector. */
    function SubVec(d: Vec3): (r: Point3)
      ensures r.v == Vec3(v.x - d.x, v.y - d.y, v.z - d.z)
    {
      AddVec(d.Neg())
    }
  }

  /** `Vec3 + Point3`, delegating to `Point3 + Vec3`. */
  function VecAddPoint(d: Vec3, p: Point3): (r: Point3)
    ensures r.v == Vec3(d.x + p.v.x, d.y + p.v.y, d.z + p.v.z)
  {
    p.AddVec(d)
  }

  /** Translating by a vector and back returns the original point. */
  lemma AddSubRoundTrip(p: Point3, d: Vec3)
    ensures p.AddVec(d).SubVec(d) == p
    ensures p.SubVec(d).AddVec(d) == p
  {
  }

  /** The difference of two points, added to the second, gives the first. */
  lemma DifferenceRoundTrip(p: Point3, q: Point3)
    ensures q.AddVec(p.SubPoint(q)) == p
    ensures p.SubPoint(q) == q.SubPoint(p).Neg()
  {
  }

  /** Mixed addition commutes. */
  lemma MixedAddCommutes(p: Point3, d: Vec3)
    ensures VecAddPoint(d, p) == p.AddVec(d)
  {
  }

  /** A point minus itself is the zero vector. */
  lemma SubSelfZero(p: Point3)
    ensures p.SubPoint(p) == Zero
  {
  }

  /** Translation is additive: moving by `a` then `b` is moving by `a + b`. */
  lemma AddVecAssociative(p: Point3, a: Vec3, b: Vec3)
    ensures p.AddVec(a).AddVec(b) == p.AddVec(a.Add(b))
  {
  }
}
