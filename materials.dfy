/**
 * Surface materials and the optics they use (src/material.rs): mirror
 * reflection, refraction by Snell's law with its total-internal-reflection
 * test, and Schlick's approximation of the reflectance.  The scatter
 * decisions of the three materials are in the `Scattering` module, because
 * they read a hit record, which itself holds a material.
 */
module Materials {
  import opened Options
  import opened Vectors
  import opened Colors

  /** The three kinds of surface. */
  datatype Material =
    | Lambertian(albedo: Color)
    | Metal(albedo: Color, fuzz: real)
    | Dielectric(refractiveIndex: real)

  function Min(a: real, b: real): real
  {
    if a < b then a else b
  }

  /** A dielectric's refractive index must keep its ratio finite and off −1, where Schlick's formula divides by zero. */
  predicate ProperMaterial(m: Material)
  {
    m.Dielectric? ==> m.refractiveIndex != 0.0 && m.refractiveIndex != -1.0
  }

  /** `Metal::new`: the fuzziness is capped at one. */
  function MetalNew(albedo: Color, fuzz: real): (r: Material)
    ensures r.Metal? && r.albedo == albedo
    ensures r.fuzz <= 1.0
    ensures fuzz <= 1.0 ==> r.fuzz == fuzz
    ensures 1.0 < fuzz ==> r.fuzz == 1.0
  {
    Metal(albedo, Min(fuzz, 1.0))
  }

  /** `reflect`: the mirror image of `v` in the plane with normal `n`. */
  function Reflect(v: Vec3, n: Vec3): Vec3
  {
    v.Sub(ScalarMul(2.0 * n.Dot(v), n))
  }

  /** Subtracting a multiple of `c` changes a dot product linearly. */
  lemma DotSubScaled(a: Vec3, b: Vec3, s: real, c: Vec3)
    ensures a.Dot(b.Sub(ScalarMul(s, c))) == a.Dot(b) - s * a.Dot(c)
  {
  }

  /** For a unit normal, reflection negates the normal component. */
  lemma ReflectNormalComponent(v: Vec3, n: Vec3)
    requires n.LengthSquared() == 1.0
    ensures n.Dot(Reflect(v, n)) == -n.Dot(v)
  {
    var k := n.Dot(v);
    DotSubScaled(n, v, 2.0 * k, n);
    assert n.Dot(n) == 1.0;
  }

  /** For a unit normal, reflection keeps the squared length. */
  lemma ReflectLengthSquared(v: Vec3, n: Vec3)
    requires n.LengthSquared() == 1.0
    ensures Reflect(v, n).LengthSquared() == v.LengthSquared()
  {
    var k := n.Dot(v);
    var r := Reflect(v, n);
    var s := 2.0 * k;
    ReflectNormalComponent(v, n);
    DotSubScaled(r, v, s, n);
    DotSubScaled(v, v, s, n);
    DotSymmetric(r, n);
    DotSymmetric(v, n);
    DotSymmetric(r, v);
    assert r.Dot(r) == r.Dot(v) - s * r.Dot(n);
    assert r.Dot(n) == -k;
    assert v.Dot(r) == v.Dot(v) - s * k;
    var sk := s * k;
    assert s * -k == -sk;
  }

  /** For a unit normal, reflecting twice gives back the vector. */
  lemma ReflectInvolution(v: Vec3, n: Vec3)
    requires n.LengthSquared() == 1.0
    ensures Reflect(Reflect(v, n), n) == v
  {
    ReflectNormalComponent(v, n);
  }

  /** The tangential part of `w` with respect to a unit normal `n`. */
  function Tangential(w: Vec3, n: Vec3): Vec3
  {
    w.Sub(ScalarMul(n.Dot(w), n))
  }

  /** The cosine of the incidence angle, capped at one as the source does. */
  function IncidenceCos(v: Vec3, n: Vec3): real
  {
    Min(-v.Dot(n), 1.0)
  }

  /** The test for total internal reflection: Snell's law asks for a refracted sine above one. */
  predicate Exceeds(ratio: real, sin: real)
  {
    ratio * sin > 1.0
  }

  /** The sine of the incidence angle, from the cosine. */
  function IncidenceSin(v: Vec3, n: Vec3, sqrt: real -> real): real
  {
    sqrt(1.0 - Sq(IncidenceCos(v, n)))
  }

  /** The component of the refracted vector perpendicular to the normal. */
  function RefractedPerp(v: Vec3, n: Vec3, ratio: real): Vec3
  {
    ScalarMul(ratio, v.Add(ScalarMul(IncidenceCos(v, n), n)))
  }

  /**
   * `refract`: the direction of `v` after crossing a surface with normal `n`
   * from a medium with refractive index `ratio` times that of the other, or
   * `None` when the refraction is impossible (total internal reflection).
   */
  function Refract(v: Vec3, n: Vec3, ratio: real, sqrt: real -> real): (r: Option<Vec3>)
    ensures r.None? <==> Exceeds(ratio, IncidenceSin(v, n, sqrt))
  {
    if Exceeds(ratio, IncidenceSin(v, n, sqrt)) then None
    else
      var perp := RefractedPerp(v, n, ratio);
      var para := ScalarMul(-sqrt(Abs(1.0 - perp.LengthSquared())), n);
      Some(perp.Add(para))
  }

  /** The squared sine of the angle between two unit vectors. */
  function SineSquared(v: Vec3, n: Vec3): real
  {
    1.0 - Sq(v.Dot(n))
  }

  /** For unit vectors the cosine is at most one, so the cap never applies, and its square is at most one. */
  lemma IncidenceCosUncapped(v: Vec3, n: Vec3)
    requires v.LengthSquared() == 1.0 && n.LengthSquared() == 1.0
    ensures IncidenceCos(v, n) == -v.Dot(n)
    ensures Sq(v.Dot(n)) <= 1.0
  {
    Lagrange(v, n);
    MulOnes(v.LengthSquared(), n.LengthSquared());
    SqBound(v.Dot(n));
  }

  /**
   * Total internal reflection: for unit vectors and a non-negative ratio,
   * `refract` fails exactly when Snell's law asks for a refracted sine above
   * one, that is ratio² · sin² > 1.
   */
  lemma RefractTotalInternal(v: Vec3, n: Vec3, ratio: real, sqrt: real -> real)
    requires IsSqrt(sqrt) && v.LengthSquared() == 1.0 && n.LengthSquared() == 1.0 && 0.0 <= ratio
    ensures Refract(v, n, ratio, sqrt).None? <==> 1.0 < Sq(ratio) * SineSquared(v, n)
  {
    assert 0.0 <= IncidenceSin(v, n, sqrt) && Sq(IncidenceSin(v, n, sqrt)) == SineSquared(v, n) by {
      IncidenceCosUncapped(v, n);
      SqNeg(v.Dot(n));
    }
    ExceedsSquared(ratio, IncidenceSin(v, n, sqrt), v, n);
  }

  /** For non-negative factors, the test compares the squares instead. */
  lemma ExceedsSquared(ratio: real, sin: real, v: Vec3, n: Vec3)
    requires 0.0 <= ratio && 0.0 <= sin && Sq(sin) == SineSquared(v, n)
    ensures Exceeds(ratio, sin) <==> 1.0 < Sq(ratio) * SineSquared(v, n)
  {
    MulNonNegative(ratio, sin);
    SqAboveOne(ratio * sin);
    calc {
      Sq(ratio) * SineSquared(v, n);
      Sq(ratio) * Sq(sin);
      { SqMul(ratio, sin); }
      Sq(ratio * sin);
    }
  }

  /** The squared length of `p + s·n`, expanded. */
  lemma AddScaledLengthSquared(p: Vec3, n: Vec3, s: real)
    ensures p.Add(ScalarMul(s, n)).LengthSquared() == p.LengthSquared() + 2.0 * s * n.Dot(p) + Sq(s) * n.LengthSquared()
  {
  }

  /**
   * Adding a multiple `s` of a unit normal to a vector orthogonal to it: the
   * squared lengths add, the normal component is `s`, and the tangential part
   * is the original vector.
   */
  lemma OrthogonalSum(p: Vec3, n: Vec3, s: real)
    requires n.LengthSquared() == 1.0 && n.Dot(p) == 0.0
    ensures p.Add(ScalarMul(s, n)).LengthSquared() == p.LengthSquared() + Sq(s)
    ensures n.Dot(p.Add(ScalarMul(s, n))) == s
    ensures Tangential(p.Add(ScalarMul(s, n)), n) == p
  {
    calc {
      p.Add(ScalarMul(s, n)).LengthSquared();
    ==  { AddScaledLengthSquared(p, n, s); }
      p.LengthSquared() + 2.0 * s * n.Dot(p) + Sq(s) * n.LengthSquared();
    ==
      p.LengthSquared() + 2.0 * s * 0.0 + Sq(s) * 1.0;
    }
    calc {
      n.Dot(p.Add(ScalarMul(s, n)));
    ==
      n.Dot(p) + s * n.Dot(n);
    ==
      0.0 + s * 1.0;
    }
  }

  /** The tangential part is the vector plus the negated normal component times the normal. */
  lemma TangentialAsSum(w: Vec3, n: Vec3)
    ensures Tangential(w, n) == w.Add(ScalarMul(-n.Dot(w), n))
  {
  }

  /** The tangential part is orthogonal to a unit normal. */
  lemma TangentialOrthogonal(w: Vec3, n: Vec3)
    requires n.LengthSquared() == 1.0
    ensures n.Dot(Tangential(w, n)) == 0.0
  {
    var k := n.Dot(w);
    calc {
      n.Dot(Tangential(w, n));
    ==  { DotSubScaled(n, w, k, n); }
      k - k * n.Dot(n);
    ==
      k - k * 1.0;
    }
  }

  /** For unit vectors, the capped cosine gives exactly the tangential part of `v`. */
  lemma TangentialOfUnit(v: Vec3, n: Vec3)
    requires v.LengthSquared() == 1.0 && n.LengthSquared() == 1.0
    ensures v.Add(ScalarMul(IncidenceCos(v, n), n)) == Tangential(v, n)
  {
    IncidenceCosUncapped(v, n);
    DotSymmetric(v, n);
    TangentialAsSum(v, n);
  }

  /** For unit vectors, the tangential part has squared length sin². */
  lemma TangentialLengthSquared(v: Vec3, n: Vec3)
    requires v.LengthSquared() == 1.0 && n.LengthSquared() == 1.0
    ensures Tangential(v, n).LengthSquared() == SineSquared(v, n)
  {
    DotSymmetric(v, n);
    var k := n.Dot(v);
    calc {
      Tangential(v, n).LengthSquared();
    ==  { TangentialAsSum(v, n); }
      v.Add(ScalarMul(-k, n)).LengthSquared();
    ==  { AddScaledLengthSquared(v, n, -k); }
      v.LengthSquared() + 2.0 * -k * k + Sq(-k) * n.LengthSquared();
    ==
      1.0 + 2.0 * -k * k + Sq(-k) * 1.0;
    ==  { SqNeg(k); }
      1.0 - Sq(k);
    }
  }

  /**
   * For unit vectors, the perpendicular component is `ratio` times the
   * tangential part of `v`: orthogonal to the normal, with squared length
   * ratio²·sin².
   */
  lemma RefractedPerpFacts(v: Vec3, n: Vec3, ratio: real)
    requires v.LengthSquared() == 1.0 && n.LengthSquared() == 1.0
    ensures RefractedPerp(v, n, ratio) == ScalarMul(ratio, Tangential(v, n))
    ensures n.Dot(RefractedPerp(v, n, ratio)) == 0.0
    ensures RefractedPerp(v, n, ratio).LengthSquared() == Sq(ratio) * SineSquared(v, n)
  {
    TangentialOfUnit(v, n);
    var t := Tangential(v, n);
    calc {
      n.Dot(ScalarMul(ratio, t));
    ==  { DotLinear(n, t, t, ratio); }
      ratio * n.Dot(t);
    ==  { TangentialOrthogonal(v, n); }
      ratio * 0.0;
    }
    calc {
      ScalarMul(ratio, t).LengthSquared();
    ==  { ScaleLengthSquared(t, ratio); }
      Sq(ratio) * t.LengthSquared();
    ==  { TangentialLengthSquared(v, n); }
      Sq(ratio) * SineSquared(v, n);
    }
  }

  /** The length of the normal component of a refracted direction. */
  function RefractedNormalLength(v: Vec3, n: Vec3, ratio: real, sqrt: real -> real): real
  {
    sqrt(Abs(1.0 - RefractedPerp(v, n, ratio).LengthSquared()))
  }

  /** A refracted direction is the perpendicular component minus the normal component. */
  lemma RefractValue(v: Vec3, n: Vec3, ratio: real, sqrt: real -> real)
    ensures Refract(v, n, ratio, sqrt).Some? ==>
      Refract(v, n, ratio, sqrt).value
        == RefractedPerp(v, n, ratio).Add(ScalarMul(-RefractedNormalLength(v, n, ratio, sqrt), n))
  {
  }

  /**
   * Snell's law in vector form: for unit vectors, the tangential part of the
   * refracted direction is `ratio` times that of the incident one.
   */
  lemma RefractSnell(v: Vec3, n: Vec3, ratio: real, sqrt: real -> real)
    requires v.LengthSquared() == 1.0 && n.LengthSquared() == 1.0
    ensures Refract(v, n, ratio, sqrt).Some? ==>
      Tangential(Refract(v, n, ratio, sqrt).value, n) == ScalarMul(ratio, Tangential(v, n))
  {
    RefractValue(v, n, ratio, sqrt);
    RefractedPerpFacts(v, n, ratio);
    OrthogonalSum(RefractedPerp(v, n, ratio), n, -RefractedNormalLength(v, n, ratio, sqrt));
  }

  /**
   * For unit vectors and a non-negative ratio, a refracted direction is a
   * unit vector on the far side of the surface: its dot product with the
   * normal is not positive.
   */
  lemma RefractUnit(v: Vec3, n: Vec3, ratio: real, sqrt: real -> real)
    requires IsSqrt(sqrt) && v.LengthSquared() == 1.0 && n.LengthSquared() == 1.0 && 0.0 <= ratio
    ensures Refract(v, n, ratio, sqrt).Some? ==>
      Refract(v, n, ratio, sqrt).value.LengthSquared() == 1.0 && n.Dot(Refract(v, n, ratio, sqrt).value) <= 0.0
  {
    if Refract(v, n, ratio, sqrt).Some? {
      RefractTotalInternal(v, n, ratio, sqrt);
      RefractedPerpFacts(v, n, ratio);
      var perp := RefractedPerp(v, n, ratio);
      var m := RefractedNormalLength(v, n, ratio, sqrt);
      assert 0.0 <= m && Sq(m) == 1.0 - perp.LengthSquared();
      RefractValue(v, n, ratio, sqrt);
      OrthogonalSum(perp, n, -m);
      SqNeg(m);
    }
  }

  /** A vector orthogonal to a unit normal, minus a multiple of the normal whose square completes |p|² to one, is nonzero. */
  lemma OrthogonalCompletionNonZero(p: Vec3, n: Vec3, m: real)
    requires n.LengthSquared() == 1.0 && n.Dot(p) == 0.0 && Sq(m) == Abs(1.0 - p.LengthSquared())
    ensures p.Add(ScalarMul(-m, n)) != Zero
  {
    var w := p.Add(ScalarMul(-m, n));
    var len, sq := p.LengthSquared(), Sq(m);
    OrthogonalSum(p, n, -m);
    SqNeg(m);
    assert w.LengthSquared() == len + sq;
    CompletionPositive(len, sq);
  }

  lemma CompletionPositive(len: real, sq: real)
    requires 0.0 <= len && sq == Abs(1.0 - len)
    ensures 0.0 < len + sq
  {
  }

  /** For unit vectors and any ratio, a refracted direction is never the zero vector. */
  lemma RefractNonZero(v: Vec3, n: Vec3, ratio: real, sqrt: real -> real)
    requires IsSqrt(sqrt) && v.LengthSquared() == 1.0 && n.LengthSquared() == 1.0
    ensures Refract(v, n, ratio, sqrt).Some? ==> Refract(v, n, ratio, sqrt).value != Zero
  {
    if Refract(v, n, ratio, sqrt).Some? {
      RefractedPerpFacts(v, n, ratio);
      RefractValue(v, n, ratio, sqrt);
      OrthogonalCompletionNonZero(RefractedPerp(v, n, ratio), n, RefractedNormalLength(v, n, ratio, sqrt));
    }
  }

  /** `powi`: `x` to the `k`-th power by repeated multiplication. */
  function Pow(x: real, k: nat): real
  {
    if k == 0 then 1.0 else x * Pow(x, k - 1)
  }

  /** Powers of a number in [0, 1] stay in [0, 1]. */
  lemma {:induction false} PowUnitInterval(x: real, k: nat)
    requires 0.0 <= x <= 1.0
    ensures 0.0 <= Pow(x, k) <= 1.0
  {
    if k > 0 {
      PowUnitInterval(x, k - 1);
      var p := Pow(x, k - 1);
      MulAtMost(p, x);
      assert Pow(x, k) == p * x;
    }
  }

  /** Schlick's reflectance at normal incidence, ((1 − ρ)/(1 + ρ))². */
  function SchlickR0(refRatio: real): real
    requires refRatio != -1.0
  {
    Sq((1.0 - refRatio) / (1.0 + refRatio))
  }

  /**
   * `Dielectric::reflectance`: Schlick's approximation of the fraction of
   * light reflected at incidence cosine `cosine`, for the ratio `refRatio`
   * of the two refractive indices.
   */
  function Reflectance(cosine: real, refRatio: real): real
    requires refRatio != -1.0
  {
    SchlickR0(refRatio) + (1.0 - SchlickR0(refRatio)) * Pow(1.0 - cosine, 5)
  }

  /** At normal incidence the reflectance is r0. */
  lemma ReflectanceNormal(refRatio: real)
    requires refRatio != -1.0
    ensures Reflectance(1.0, refRatio) == SchlickR0(refRatio)
  {
    assert Pow(0.0, 5) == 0.0;
  }

  /** At grazing incidence everything is reflected. */
  lemma ReflectanceGrazing(refRatio: real)
    requires refRatio != -1.0
    ensures Reflectance(0.0, refRatio) == 1.0
  {
    assert Pow(1.0, 5) == 1.0;
  }

  /** For a non-negative ratio, r0 is in [0, 1]. */
  lemma SchlickR0Bounds(refRatio: real)
    requires 0.0 <= refRatio
    ensures 0.0 <= SchlickR0(refRatio) <= 1.0
  {
    var q := (1.0 - refRatio) / (1.0 + refRatio);
    assert q * (1.0 + refRatio) == 1.0 - refRatio;
    assert -1.0 <= q <= 1.0 by {
      if q < -1.0 {
        MulPositive(-1.0 - q, 1.0 + refRatio);
      }
      if 1.0 < q {
        MulPositive(q - 1.0, 1.0 + refRatio);
      }
    }
    SqSign(q);
    if 0.0 <= q {
      MulAtMost(q, q);
    } else {
      MulAtMost(-q, -q);
    }
  }

  /**
   * For a non-negative ratio and a cosine in [0, 1], the reflectance is a
   * probability, at least r0.
   */
  lemma ReflectanceBounds(cosine: real, refRatio: real)
    requires 0.0 <= cosine <= 1.0 && 0.0 <= refRatio
    ensures SchlickR0(refRatio) <= Reflectance(cosine, refRatio) <= 1.0
  {
    SchlickR0Bounds(refRatio);
    PowUnitInterval(1.0 - cosine, 5);
    MulAtMost(1.0 - SchlickR0(refRatio), Pow(1.0 - cosine, 5));
  }

  /** Which ratio is over which does not matter: ρ and 1/ρ give the same reflectance. */
  lemma ReflectanceSymmetric(cosine: real, refRatio: real)
    requires refRatio != 0.0 && refRatio != -1.0
    ensures Reflectance(cosine, refRatio) == Reflectance(cosine, 1.0 / refRatio)
  {
    var q := (1.0 - refRatio) / (1.0 + refRatio);
    assert (1.0 - 1.0 / refRatio) / (1.0 + 1.0 / refRatio) == -q;
    SqNeg(q);
  }
}
