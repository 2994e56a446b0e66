/**
 * Ray–object intersection (src/object.rs): spheres, the record of a hit, and
 * a world of objects that reports the nearest hit among them.
 */
module Objects {
  import opened Options
  import opened Vectors
  import opened Points
  import opened Rays
  import opened Materials

  /** The upper end of the time interval of a query: a finite bound, or none at all (`INF`). */
  datatype Limit = Finite(bound: real) | Infinite

  /** `t` lies strictly inside the interval (tMin, tMax). */
  predicate InRange(t: real, tMin: real, tMax: Limit)
  {
    tMin < t && (tMax.Finite? ==> t < tMax.bound)
  }

  /**
   * What a hit reports: the time, the point, the normal at the point (the one
   * of the two that points against the ray), whether the ray hit the outside
   * of the surface, and the surface's material.
   */
  datatype HitRecord = HitRecord(t: real, p: Point3, normal: Vec3, isFront: bool, material: Material)

  datatype Sphere = Sphere(center: Point3, radius: real, material: Material)

  /** The point `q` lies on the sphere's surface. */
  predicate OnSphere(s: Sphere, q: Point3)
  {
    q.SubPoint(s.center).LengthSquared() == Sq(s.radius)
  }

  /** The vector from the centre to the ray's origin. */
  function Offset(s: Sphere, ray: Ray): Vec3
  {
    ray.origin.SubPoint(s.center)
  }

  /* The coefficients of a·t² + 2·halfB·t + c = 0, whose roots are the times the ray meets the sphere. */

  function QuadA(ray: Ray): real
  {
    ray.direction.LengthSquared()
  }

  function QuadHalfB(s: Sphere, ray: Ray): real
  {
    Offset(s, ray).Dot(ray.direction)
  }

  function QuadC(s: Sphere, ray: Ray): real
  {
    Offset(s, ray).LengthSquared() - Sq(s.radius)
  }

  function Discriminant(s: Sphere, ray: Ray): real
  {
    Sq(QuadHalfB(s, ray)) - QuadA(ray) * QuadC(s, ray)
  }

  /** The smaller root. */
  function NearRoot(s: Sphere, ray: Ray, sqrt: real -> real): real
    requires QuadA(ray) != 0.0
  {
    (-QuadHalfB(s, ray) - sqrt(Discriminant(s, ray))) / QuadA(ray)
  }

  /** The larger root. */
  function FarRoot(s: Sphere, ray: Ray, sqrt: real -> real): real
    requires QuadA(ray) != 0.0
  {
    (-QuadHalfB(s, ray) + sqrt(Discriminant(s, ray))) / QuadA(ray)
  }

  /** The outward normal at the point the ray reaches at time `t`: the radius vector divided by the radius. */
  function OutwardNormal(s: Sphere, ray: Ray, t: real): Vec3
    requires s.radius != 0.0
  {
    ray.At(t).SubPoint(s.center).Div(s.radius)
  }

  /** The record of a hit at time `t`: the normal is flipped when the ray comes from inside. */
  function SphereRecord(s: Sphere, ray: Ray, t: real): (r: HitRecord)
    requires s.radius != 0.0
    ensures r.t == t && r.p == ray.At(t) && r.material == s.material
    ensures r.isFront <==> ray.direction.Dot(OutwardNormal(s, ray, t)) < 0.0
  {
    var outNormal := OutwardNormal(s, ray, t);
    var isFront := ray.direction.Dot(outNormal) < 0.0;
    HitRecord(t, ray.At(t), if isFront then outNormal else outNormal.Neg(), isFront, s.material)
  }

  /**
   * `Sphere::hit_by`: the hit at the nearer root inside (tMin, tMax), else at
   * the farther root, else none.  A negative discriminant means the ray
   * misses.  For a zero direction (a = 0) the roots are 0/0, NaN in floating
   * point, which fail both range tests: there is no hit.
   */
  function SphereHit(s: Sphere, ray: Ray, tMin: real, tMax: Limit, sqrt: real -> real): (r: Option<HitRecord>)
    requires s.radius != 0.0
    ensures Discriminant(s, ray) < 0.0 ==> r.None?
    ensures r.Some? ==> InRange(r.value.t, tMin, tMax) && r.value == SphereRecord(s, ray, r.value.t)
  {
    if Discriminant(s, ray) < 0.0 then None
    else if QuadA(ray) == 0.0 then None
    else if InRange(NearRoot(s, ray, sqrt), tMin, tMax) then Some(SphereRecord(s, ray, NearRoot(s, ray, sqrt)))
    else if InRange(FarRoot(s, ray, sqrt), tMin, tMax) then Some(SphereRecord(s, ray, FarRoot(s, ray, sqrt)))
    else None
  }

  /* The sphere's equation along the ray, as a quadratic in t. */

  /** |At(t) − centre|² − radius² is the quadratic a·t² + 2·halfB·t + c. */
  lemma SphereEquation(s: Sphere, ray: Ray, t: real)
    ensures ray.At(t).SubPoint(s.center).LengthSquared() - Sq(s.radius)
         == QuadA(ray) * Sq(t) + 2.0 * QuadHalfB(s, ray) * t + QuadC(s, ray)
  {
    var oc, d := Offset(s, ray), ray.direction;
    assert ray.At(t).SubPoint(s.center) == oc.Add(ScalarMul(t, d));
    AddScaledLengthSquared(oc, d, t);
    DotSymmetric(d, oc);
  }

  /** `x / a` is the unique solution of `a·t == x`. */
  lemma DivSolves(x: real, a: real, t: real)
    requires a != 0.0
    ensures t == x / a <==> a * t == x
  {
  }

  /** Completing the square: a times the quadratic is the product of its two linear factors. */
  lemma QuadraticFactor(a: real, hb: real, c: real, sd: real, t: real)
    requires Sq(sd) == Sq(hb) - a * c
    ensures a * (a * Sq(t) + 2.0 * hb * t + c) == (a * t + hb - sd) * (a * t + hb + sd)
  {
    var u := a * t + hb;
    assert (u - sd) * (u + sd) == Sq(u) - Sq(sd);
    assert Sq(u) == a * a * Sq(t) + 2.0 * a * hb * t + Sq(hb);
  }

  /** A product vanishes exactly when one of its factors does. */
  lemma MulZeroIff(a: real, b: real)
    ensures a * b == 0.0 <==> a == 0.0 || b == 0.0
  {
    if a * b == 0.0 {
      MulZero(a, b);
    }
  }

  /** The roots of a·t² + 2·hb·t + c with discriminant sd² are (−hb ∓ sd)/a, and nothing else. */
  lemma QuadraticRoots(a: real, hb: real, c: real, sd: real, t: real)
    requires a != 0.0 && Sq(sd) == Sq(hb) - a * c
    ensures a * Sq(t) + 2.0 * hb * t + c == 0.0 <==> (t == (-hb - sd) / a || t == (-hb + sd) / a)
  {
    var q := a * Sq(t) + 2.0 * hb * t + c;
    var lo, hi := a * t + hb - sd, a * t + hb + sd;
    QuadraticFactor(a, hb, c, sd, t);
    assert a * q == lo * hi;
    MulZeroIff(a, q);
    MulZeroIff(lo, hi);
    DivSolves(-hb - sd, a, t);
    DivSolves(-hb + sd, a, t);
  }

  /** With a negative discriminant the quadratic has no root. */
  lemma QuadraticNoRoot(a: real, hb: real, c: real, t: real)
    requires 0.0 < a && Sq(hb) - a * c < 0.0
    ensures a * Sq(t) + 2.0 * hb * t + c != 0.0
  {
    var q := a * Sq(t) + 2.0 * hb * t + c;
    var u := a * t + hb;
    assert a * q == Sq(u) - (Sq(hb) - a * c);
    SqSign(u);
    assert 0.0 < a * q;
  }

  /** Dividing by a positive number keeps the order. */
  lemma DivOrder(x: real, y: real, a: real)
    requires x <= y && 0.0 < a
    ensures x / a <= y / a
  {
    assert (y - x) / a == y / a - x / a;
  }

  /** With a non-negative discriminant, the ray meets the sphere exactly at the two roots. */
  lemma SphereRoots(s: Sphere, ray: Ray, t: real, sqrt: real -> real)
    requires IsSqrt(sqrt) && QuadA(ray) != 0.0 && 0.0 <= Discriminant(s, ray)
    ensures OnSphere(s, ray.At(t)) <==> (t == NearRoot(s, ray, sqrt) || t == FarRoot(s, ray, sqrt))
  {
    SphereEquation(s, ray, t);
    QuadraticRoots(QuadA(ray), QuadHalfB(s, ray), QuadC(s, ray), sqrt(Discriminant(s, ray)), t);
  }

  /** With a negative discriminant, the ray never meets the sphere. */
  lemma SphereMissed(s: Sphere, ray: Ray, t: real)
    requires ray.direction != Zero && Discriminant(s, ray) < 0.0
    ensures !OnSphere(s, ray.At(t))
  {
    SphereEquation(s, ray, t);
    QuadraticNoRoot(QuadA(ray), QuadHalfB(s, ray), QuadC(s, ray), t);
  }

  /** The near root is never after the far one. */
  lemma RootsOrdered(s: Sphere, ray: Ray, sqrt: real -> real)
    requires IsSqrt(sqrt) && ray.direction != Zero && 0.0 <= Discriminant(s, ray)
    ensures NearRoot(s, ray, sqrt) <= FarRoot(s, ray, sqrt)
  {
    var sd := sqrt(Discriminant(s, ray));
    DivOrder(-QuadHalfB(s, ray) - sd, -QuadHalfB(s, ray) + sd, QuadA(ray));
  }

  /**
   * The hit a sphere reports is the earliest time in (tMin, tMax) at which
   * the ray is on its surface, and there is none exactly when no such time
   * exists.
   */
  lemma SphereHitNearest(s: Sphere, ray: Ray, tMin: real, tMax: Limit, sqrt: real -> real)
    requires IsSqrt(sqrt) && s.radius != 0.0 && ray.direction != Zero
    ensures SphereHit(s, ray, tMin, tMax, sqrt).Some? ==>
              OnSphere(s, SphereHit(s, ray, tMin, tMax, sqrt).value.p) &&
              forall t :: InRange(t, tMin, tMax) && OnSphere(s, ray.At(t)) ==> SphereHit(s, ray, tMin, tMax, sqrt).value.t <= t
    ensures SphereHit(s, ray, tMin, tMax, sqrt).None? <==> forall t :: InRange(t, tMin, tMax) ==> !OnSphere(s, ray.At(t))
  {
    var r := SphereHit(s, ray, tMin, tMax, sqrt);
    if Discriminant(s, ray) < 0.0 {
      forall t | InRange(t, tMin, tMax)
        ensures !OnSphere(s, ray.At(t))
      {
        SphereMissed(s, ray, t);
      }
    } else {
      var near, far := NearRoot(s, ray, sqrt), FarRoot(s, ray, sqrt);
      RootsOrdered(s, ray, sqrt);
      forall t | InRange(t, tMin, tMax) && OnSphere(s, ray.At(t))
        ensures r.Some? && r.value.t <= t
      {
        SphereRoots(s, ray, t, sqrt);
      }
      if r.Some? {
        SphereRoots(s, ray, r.value.t, sqrt);
      }
    }
  }

  /** On the surface, the outward normal has unit length. */
  lemma OutwardNormalUnit(s: Sphere, ray: Ray, t: real)
    requires s.radius != 0.0 && OnSphere(s, ray.At(t))
    ensures OutwardNormal(s, ray, t).LengthSquared() == 1.0
  {
    var w := ray.At(t).SubPoint(s.center);
    var k := 1.0 / s.radius;
    calc {
      OutwardNormal(s, ray, t).LengthSquared();
      w.MulScalar(k).LengthSquared();
      { ScaleLengthSquared(w, k); }
      Sq(k) * w.LengthSquared();
      Sq(k) * Sq(s.radius);
      { SqInverse(s.radius); }
      1.0;
    }
  }

  /**
   * A reported hit lies on the sphere, and its normal is the outward normal
   * or its negation, has unit length and points against the ray; the hit is
   * on the front face exactly when the ray travels against the outward normal.
   */
  lemma SphereHitNormal(s: Sphere, ray: Ray, tMin: real, tMax: Limit, sqrt: real -> real)
    requires IsSqrt(sqrt) && s.radius != 0.0
    ensures var r := SphereHit(s, ray, tMin, tMax, sqrt);
            r.Some? ==>
              OnSphere(s, r.value.p) &&
              r.value.normal.LengthSquared() == 1.0 &&
              ray.direction.Dot(r.value.normal) <= 0.0 &&
              (r.value.isFront <==> ray.direction.Dot(OutwardNormal(s, ray, r.value.t)) < 0.0) &&
              r.value.normal == (if r.value.isFront then OutwardNormal(s, ray, r.value.t) else OutwardNormal(s, ray, r.value.t).Neg())
  {
    var r := SphereHit(s, ray, tMin, tMax, sqrt);
    if r.Some? {
      var t := r.value.t;
      SphereRoots(s, ray, t, sqrt);
      OutwardNormalUnit(s, ray, t);
      NegLengthSquared(OutwardNormal(s, ray, t));
      NegDot(ray.direction, OutwardNormal(s, ray, t));
    }
  }

  /**
   * Of two optional hits, the nearer one; on a tie the first is kept, as
   * `Iterator::min_by` keeps the first of several equal minima.
   */
  function Closer(acc: Option<HitRecord>, next: Option<HitRecord>): Option<HitRecord>
  {
    match acc
    case None => next
    case Some(a) =>
      match next
      case None => acc
      case Some(b) => if a.t > b.t then next else acc
  }

  /** The nearest of a sequence of optional hits, folding `Closer` from left to right. */
  function Nearest(hits: seq<Option<HitRecord>>): Option<HitRecord>
  {
    if |hits| == 0 then None else Closer(Nearest(hits[..|hits| - 1]), hits[|hits| - 1])
  }

  /**
   * `Nearest` is none exactly when every hit is none; otherwise it is one of
   * the hits, no hit is nearer, and every hit before it is strictly farther.
   */
  lemma {:induction false} NearestIsFirstMinimum(hits: seq<Option<HitRecord>>)
    ensures Nearest(hits).None? <==> forall i :: 0 <= i < |hits| ==> hits[i].None?
    ensures Nearest(hits).Some? ==>
              forall i :: 0 <= i < |hits| && hits[i].Some? ==> Nearest(hits).value.t <= hits[i].value.t
    ensures Nearest(hits).Some? ==>
              exists k :: 0 <= k < |hits| && hits[k] == Nearest(hits) &&
                forall j :: 0 <= j < k && hits[j].Some? ==> hits[j].value.t > Nearest(hits).value.t
  {
    if |hits| > 0 {
      var init := hits[..|hits| - 1];
      var last := hits[|hits| - 1];
      NearestIsFirstMinimum(init);
      assert forall i :: 0 <= i < |init| ==> init[i] == hits[i];
      var acc := Nearest(init);
      if acc.Some? {
        var k :| 0 <= k < |init| && init[k] == acc &&
                 forall j :: 0 <= j < k && init[j].Some? ==> init[j].value.t > acc.value.t;
        if last.Some? && acc.value.t > last.value.t {
          assert hits[|hits| - 1] == Nearest(hits);
        } else {
          assert hits[k] == Nearest(hits);
        }
      } else if last.Some? {
        assert hits[|hits| - 1] == Nearest(hits);
      }
    }
  }

  /** What each sphere of a world reports for the ray. */
  function Hits(objects: seq<Sphere>, ray: Ray, tMin: real, tMax: Limit, sqrt: real -> real): (r: seq<Option<HitRecord>>)
    requires forall i :: 0 <= i < |objects| ==> objects[i].radius != 0.0
    ensures |r| == |objects|
    ensures forall i :: 0 <= i < |objects| ==> r[i] == SphereHit(objects[i], ray, tMin, tMax, sqrt)
  {
    seq(|objects|, i requires 0 <= i < |objects| => SphereHit(objects[i], ray, tMin, tMax, sqrt))
  }

  /** A world: the spheres in the order they were added. */
  class World {
    var objects: seq<Sphere>

    /** `World::new`: an empty world. */
    constructor ()
      ensures objects == []
    {
      objects := [];
    }

    /** `World::add`: the sphere is appended; the earlier ones stay in place. */
    method Add(s: Sphere)
      modifies this
      ensures objects == old(objects) + [s]
    {
      objects := objects + [s];
    }

    /**
     * Every sphere has a nonzero radius, so that its normals are defined, and
     * a material whose scattering is defined.
     */
    predicate Proper()
      reads this
    {
      forall i :: 0 <= i < |objects| ==> objects[i].radius != 0.0 && ProperMaterial(objects[i].material)
    }

    /** `World::hit_by`: the nearest of the spheres' hits, the first one added on a tie. */
    function HitBy(ray: Ray, tMin: real, tMax: Limit, sqrt: real -> real): Option<HitRecord>
      reads this
      requires Proper()
    {
      Nearest(Hits(objects, ray, tMin, tMax, sqrt))
    }
  }

  /**
   * A world reports no hit exactly when none of its spheres does; otherwise
   * it reports the hit of some sphere, no sphere reports a nearer one, and
   * every sphere added before it reports a strictly farther hit or none.
   */
  lemma WorldHitNearest(w: World, ray: Ray, tMin: real, tMax: Limit, sqrt: real -> real)
    requires w.Proper()
    ensures w.HitBy(ray, tMin, tMax, sqrt).None? <==>
              forall i :: 0 <= i < |w.objects| ==> SphereHit(w.objects[i], ray, tMin, tMax, sqrt).None?
    ensures w.HitBy(ray, tMin, tMax, sqrt).Some? ==>
              exists k :: 0 <= k < |w.objects| &&
                SphereHit(w.objects[k], ray, tMin, tMax, sqrt) == w.HitBy(ray, tMin, tMax, sqrt) &&
                (forall j :: 0 <= j < k && SphereHit(w.objects[j], ray, tMin, tMax, sqrt).Some? ==>
                   SphereHit(w.objects[j], ray, tMin, tMax, sqrt).value.t > w.HitBy(ray, tMin, tMax, sqrt).value.t)
    ensures w.HitBy(ray, tMin, tMax, sqrt).Some? ==>
              forall i :: 0 <= i < |w.objects| && SphereHit(w.objects[i], ray, tMin, tMax, sqrt).Some? ==>
                w.HitBy(ray, tMin, tMax, sqrt).value.t <= SphereHit(w.objects[i], ray, tMin, tMax, sqrt).value.t
  {
    NearestIsFirstMinimum(Hits(w.objects, ray, tMin, tMax, sqrt));
  }

  /** A hit a world reports has a unit normal that points against the ray, and the material of one of its spheres. */
  lemma WorldHitProper(w: World, ray: Ray, tMin: real, tMax: Limit, sqrt: real -> real)
    requires IsSqrt(sqrt) && w.Proper()
    ensures w.HitBy(ray, tMin, tMax, sqrt).Some? ==>
              w.HitBy(ray, tMin, tMax, sqrt).value.normal.LengthSquared() == 1.0 &&
              ray.direction.Dot(w.HitBy(ray, tMin, tMax, sqrt).value.normal) <= 0.0 &&
              ProperMaterial(w.HitBy(ray, tMin, tMax, sqrt).value.material) &&
              exists k :: 0 <= k < |w.objects| && w.HitBy(ray, tMin, tMax, sqrt).value.material == w.objects[k].material
  {
    var r := w.HitBy(ray, tMin, tMax, sqrt);
    if r.Some? {
      WorldHitNearest(w, ray, tMin, tMax, sqrt);
      var k :| 0 <= k < |w.objects| && SphereHit(w.objects[k], ray, tMin, tMax, sqrt) == r;
      SphereHitNormal(w.objects[k], ray, tMin, tMax, sqrt);
    }
  }

  /** Adding a sphere to a world makes it report the nearer of its old hit and the new sphere's. */
  lemma HitsAppend(objects: seq<Sphere>, s: Sphere, ray: Ray, tMin: real, tMax: Limit, sqrt: real -> real)
    requires forall i :: 0 <= i < |objects| ==> objects[i].radius != 0.0
    requires s.radius != 0.0
    ensures Nearest(Hits(objects + [s], ray, tMin, tMax, sqrt))
         == Closer(Nearest(Hits(objects, ray, tMin, tMax, sqrt)), SphereHit(s, ray, tMin, tMax, sqrt))
  {
    var all := objects + [s];
    var hits := Hits(all, ray, tMin, tMax, sqrt);
    assert hits[..|hits| - 1] == Hits(objects, ray, tMin, tMax, sqrt);
  }

  /** A world just created reports no hit. */
  lemma EmptyWorldMisses(w: World, ray: Ray, tMin: real, tMax: Limit, sqrt: real -> real)
    requires w.objects == []
    ensures w.Proper() && w.HitBy(ray, tMin, tMax, sqrt).None?
  {
  }
}
