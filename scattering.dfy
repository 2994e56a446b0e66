/**
 * How each material scatters a ray that hits it (the `scatter` methods of
 * src/material.rs).  They live apart from the materials themselves because
 * they read the hit record, which in turn holds a material.
 *
 * Every scatter draws from the uniform source, starting at `pos`, and
 * returns the position of the next unused draw.
 */
module Scattering {
  import opened Options
  import opened Vectors
  import opened Points
  import opened Colors
  import opened Rays
  import opened Random
  import opened Materials
  import opened Objects

  /** A child ray and the colour attenuation the surface applies to it. */
  datatype Scattered = Scattered(attenuation: Color, ray: Ray)

  /** The attenuation of a dielectric: none at all. */
  const White: Color := Color(Vec3(1.0, 1.0, 1.0))

  /** The Lambertian direction: the normal plus a random unit vector, or the normal alone when that sum is nearly zero. */
  function LambertianDirection(normal: Vec3, rng: Rng, pos: nat, sqrt: real -> real): (r: Drawn<Vec3>)
    requires IsSqrt(sqrt) && Admissible(rng)
    ensures (SampleNonZero(rng, pos);
             var u := UnitVec(rng, pos, sqrt);
             var v := normal.Add(u.value);
             r.next == u.next && (v.NearZero() ==> r.value == normal) && (!v.NearZero() ==> r.value == v))
  {
    SampleNonZero(rng, pos);
    var u := UnitVec(rng, pos, sqrt);
    var v := normal.Add(u.value);
    Drawn(if v.NearZero() then normal else v, u.next)
  }

  /** The Metal direction: the mirror reflection of the unit incoming direction, perturbed by `fuzz` times a vector in the unit ball. */
  function MetalDirection(fuzz: real, rIn: Ray, rec: HitRecord, rng: Rng, pos: nat, sqrt: real -> real): (r: Drawn<Vec3>)
    requires IsSqrt(sqrt) && Admissible(rng) && rIn.direction != Zero
    ensures fuzz == 0.0 ==> r.value == Reflect(rIn.direction.Unit(sqrt), rec.normal)
    ensures r.next == Sample(Ball, rng, pos).next
  {
    var refV := Reflect(rIn.direction.Unit(sqrt), rec.normal);
    var ball := Sample(Ball, rng, pos);
    FuzzFree(refV, fuzz, ball.value);
    Drawn(refV.Add(ScalarMul(fuzz, ball.value)), ball.next)
  }

  /** Without fuzz, the perturbation leaves the reflection as it is. */
  lemma FuzzFree(refV: Vec3, fuzz: real, ball: Vec3)
    ensures fuzz == 0.0 ==> refV.Add(ScalarMul(fuzz, ball)) == refV
  {
  }

  /** The perturbation moves the reflection by less than the unit ball scaled by `fuzz`. */
  lemma FuzzBound(refV: Vec3, fuzz: real, b: Vec3)
    requires b.LengthSquared() < 1.0
    ensures refV.Add(ScalarMul(fuzz, b)).Sub(refV).LengthSquared() <= Sq(fuzz)
  {
    var e := refV.Add(ScalarMul(fuzz, b)).Sub(refV);
    assert e == b.MulScalar(fuzz);
    ScaleLengthSquared(b, fuzz);
    SqSign(fuzz);
    MulAtMost(Sq(fuzz), b.LengthSquared());
  }

  /** The fuzzed Metal direction lies within `fuzz` of the mirror reflection: the closer fuzz is to 0, the closer to a mirror. */
  lemma MetalNearMirror(fuzz: real, rIn: Ray, rec: HitRecord, rng: Rng, pos: nat, sqrt: real -> real)
    requires IsSqrt(sqrt) && Admissible(rng) && rIn.direction != Zero
    ensures MetalDirection(fuzz, rIn, rec, rng, pos, sqrt).value.Sub(Reflect(rIn.direction.Unit(sqrt), rec.normal)).LengthSquared() <= Sq(fuzz)
  {
    FuzzBound(Reflect(rIn.direction.Unit(sqrt), rec.normal), fuzz, Sample(Ball, rng, pos).value);
  }

  /** The ratio of refractive indices across the surface: 1/ior entering through the front face, ior leaving. */
  function RefractionRatio(ior: real, isFront: bool): real
    requires ior != 0.0
  {
    if isFront then 1.0 / ior else ior
  }

  /**
   * The Dielectric direction: when refraction is possible, one draw decides
   * between the refracted direction (draw above the Schlick reflectance) and
   * the mirror reflection; under total internal reflection it reflects
   * without drawing.
   */
  function DielectricDirection(ior: real, rIn: Ray, rec: HitRecord, rng: Rng, pos: nat, sqrt: real -> real): (r: Drawn<Vec3>)
    requires IsSqrt(sqrt) && rIn.direction != Zero && ior != 0.0 && ior != -1.0
  {
    var ratio := RefractionRatio(ior, rec.isFront);
    var vIn := rIn.direction.Unit(sqrt);
    match Refract(vIn, rec.normal, ratio, sqrt)
    case Some(v) =>
      var u := Float(rng, pos);
      Drawn(if u.value > Reflectance(-vIn.Dot(rec.normal), ratio) then v else Reflect(vIn, rec.normal), u.next)
    case None => Drawn(Reflect(vIn, rec.normal), pos)
  }

  /** A positive refractive index gives a positive ratio on either side. */
  lemma RefractionRatioPositive(ior: real, isFront: bool)
    requires 0.0 < ior
    ensures 0.0 < RefractionRatio(ior, isFront)
  {
  }

  /**
   * `scatter` of the hit's material: Lambertian and Dielectric always
   * scatter, Metal only when the perturbed direction leaves above the
   * surface.  The child ray starts at the hit point.
   */
  function Scatter(rIn: Ray, rec: HitRecord, rng: Rng, pos: nat, sqrt: real -> real): (r: Drawn<Option<Scattered>>)
    requires IsSqrt(sqrt) && Admissible(rng) && rIn.direction != Zero && ProperMaterial(rec.material)
    ensures r.value.Some? ==> r.value.value.ray.origin == rec.p
    ensures rec.material.Lambertian? ==>
              r.value == Some(Scattered(rec.material.albedo, Ray(rec.p, LambertianDirection(rec.normal, rng, pos, sqrt).value)))
    ensures rec.material.Metal? ==>
              var d := MetalDirection(rec.material.fuzz, rIn, rec, rng, pos, sqrt).value;
              r.value == (if d.Dot(rec.normal) > 0.0 then Some(Scattered(rec.material.albedo, Ray(rec.p, d))) else None)
    ensures rec.material.Dielectric? ==>
              r.value == Some(Scattered(White, Ray(rec.p, DielectricDirection(rec.material.refractiveIndex, rIn, rec, rng, pos, sqrt).value)))
    ensures pos <= r.next
  {
    match rec.material
    case Lambertian(albedo) =>
      var d := LambertianDirection(rec.normal, rng, pos, sqrt);
      Drawn(Some(Scattered(albedo, Ray(rec.p, d.value))), d.next)
    case Metal(albedo, fuzz) =>
      var d := MetalDirection(fuzz, rIn, rec, rng, pos, sqrt);
      Drawn(if d.value.Dot(rec.normal) > 0.0 then Some(Scattered(albedo, Ray(rec.p, d.value))) else None, d.next)
    case Dielectric(ior) =>
      var d := DielectricDirection(ior, rIn, rec, rng, pos, sqrt);
      Drawn(Some(Scattered(White, Ray(rec.p, d.value))), d.next)
  }

  /** The zero vector is near zero, so a vector that is not near zero is not zero. */
  lemma NotNearZeroNonZero(v: Vec3)
    requires !v.NearZero()
    ensures v != Zero
  {
  }

  /**
   * A Lambertian direction is the normal itself or ends on the unit sphere
   * around the tip of the normal; it is never the zero vector when the normal
   * is a unit vector.
   */
  lemma LambertianOnUnitSphere(normal: Vec3, rng: Rng, pos: nat, sqrt: real -> real)
    requires IsSqrt(sqrt) && Admissible(rng) && normal.LengthSquared() == 1.0
    ensures var d := LambertianDirection(normal, rng, pos, sqrt).value;
            d != Zero && (d == normal || d.Sub(normal).LengthSquared() == 1.0)
  {
    SampleNonZero(rng, pos);
    var u := UnitVec(rng, pos, sqrt).value;
    var v := normal.Add(u);
    if !v.NearZero() {
      NotNearZeroNonZero(v);
      assert v.Sub(normal) == u;
    }
  }

  /**
   * A perfect mirror (fuzz 0) hit from the side its normal faces scatters
   * exactly along the mirror reflection of the unit incoming direction, which
   * leaves above the surface.
   */
  lemma MetalMirror(albedo: Color, rIn: Ray, rec: HitRecord, rng: Rng, pos: nat, sqrt: real -> real)
    requires IsSqrt(sqrt) && Admissible(rng) && rIn.direction != Zero
    requires rec.material == Metal(albedo, 0.0) && rec.normal.LengthSquared() == 1.0
    requires rIn.direction.Dot(rec.normal) < 0.0
    ensures Scatter(rIn, rec, rng, pos, sqrt).value
         == Some(Scattered(albedo, Ray(rec.p, Reflect(rIn.direction.Unit(sqrt), rec.normal))))
  {
    var u := rIn.direction.Unit(sqrt);
    var ball := Sample(Ball, rng, pos).value;
    assert ScalarMul(0.0, ball) == Zero;
    assert Reflect(u, rec.normal).Add(Zero) == Reflect(u, rec.normal);
    UnitDotSign(rIn.direction, rec.normal, sqrt);
    DotSymmetric(u, rec.normal);
    ReflectNormalComponent(u, rec.normal);
    DotSymmetric(rec.normal, Reflect(u, rec.normal));
  }

  /** A vector with a positive dot product is not the zero vector. */
  lemma PositiveDotNonZero(d: Vec3, n: Vec3)
    requires d.Dot(n) > 0.0
    ensures d != Zero
  {
  }

  /** A Metal scatter, when there is one, leaves strictly above the surface, so its direction is nonzero. */
  lemma MetalAbove(rIn: Ray, rec: HitRecord, rng: Rng, pos: nat, sqrt: real -> real)
    requires IsSqrt(sqrt) && Admissible(rng) && rIn.direction != Zero && rec.material.Metal?
    ensures Scatter(rIn, rec, rng, pos, sqrt).value.Some? ==>
              Scatter(rIn, rec, rng, pos, sqrt).value.value.ray.direction.Dot(rec.normal) > 0.0 &&
              Scatter(rIn, rec, rng, pos, sqrt).value.value.ray.direction != Zero
  {
    var r := Scatter(rIn, rec, rng, pos, sqrt).value;
    if r.Some? {
      PositiveDotNonZero(r.value.ray.direction, rec.normal);
    }
  }

  /**
   * When `refract` fails (total internal reflection, characterised by
   * `RefractTotalInternal`), a dielectric reflects, without drawing.
   */
  lemma DielectricReflectsWhenRefractFails(rIn: Ray, rec: HitRecord, rng: Rng, pos: nat, sqrt: real -> real)
    requires IsSqrt(sqrt) && rIn.direction != Zero
    requires rec.material.Dielectric? && rec.material.refractiveIndex != 0.0 && rec.material.refractiveIndex != -1.0
    requires Refract(rIn.direction.Unit(sqrt), rec.normal, RefractionRatio(rec.material.refractiveIndex, rec.isFront), sqrt).None?
    ensures DielectricDirection(rec.material.refractiveIndex, rIn, rec, rng, pos, sqrt)
         == Drawn(Reflect(rIn.direction.Unit(sqrt), rec.normal), pos)
  {
  }

  /**
   * A dielectric with a positive refractive index sends the ray along a unit
   * vector: refracted (obeying Snell's law) or reflected.
   */
  lemma DielectricUnit(rIn: Ray, rec: HitRecord, rng: Rng, pos: nat, sqrt: real -> real)
    requires IsSqrt(sqrt) && rIn.direction != Zero && rec.normal.LengthSquared() == 1.0
    requires rec.material.Dielectric? && 0.0 < rec.material.refractiveIndex
    ensures DielectricDirection(rec.material.refractiveIndex, rIn, rec, rng, pos, sqrt).value.LengthSquared() == 1.0
  {
    var ior := rec.material.refractiveIndex;
    var ratio := RefractionRatio(ior, rec.isFront);
    var vIn := rIn.direction.Unit(sqrt);
    RefractionRatioPositive(ior, rec.isFront);
    RefractUnit(vIn, rec.normal, ratio, sqrt);
    ReflectLengthSquared(vIn, rec.normal);
  }

  /**
   * When refraction is possible and the draw exceeds Schlick's reflectance,
   * the dielectric refracts, and the tangential part of the new direction is
   * the ratio times that of the unit incoming one (Snell's law).
   */
  lemma DielectricSnell(rIn: Ray, rec: HitRecord, rng: Rng, pos: nat, sqrt: real -> real)
    requires IsSqrt(sqrt) && rIn.direction != Zero && rec.normal.LengthSquared() == 1.0
    requires rec.material.Dielectric? && rec.material.refractiveIndex != 0.0 && rec.material.refractiveIndex != -1.0
    requires var ratio := RefractionRatio(rec.material.refractiveIndex, rec.isFront);
             var vIn := rIn.direction.Unit(sqrt);
             Refract(vIn, rec.normal, ratio, sqrt).Some? && rng(pos) > Reflectance(-vIn.Dot(rec.normal), ratio)
    ensures var ratio := RefractionRatio(rec.material.refractiveIndex, rec.isFront);
            var vIn := rIn.direction.Unit(sqrt);
            var d := DielectricDirection(rec.material.refractiveIndex, rIn, rec, rng, pos, sqrt);
            d.next == pos + 1 &&
            Tangential(d.value, rec.normal) == ScalarMul(ratio, Tangential(vIn, rec.normal))
  {
    var ratio := RefractionRatio(rec.material.refractiveIndex, rec.isFront);
    RefractSnell(rIn.direction.Unit(sqrt), rec.normal, ratio, sqrt);
  }

  /** A dielectric never sends the ray along the zero vector. */
  lemma DielectricNonZero(rIn: Ray, rec: HitRecord, rng: Rng, pos: nat, sqrt: real -> real)
    requires IsSqrt(sqrt) && rIn.direction != Zero && rec.normal.LengthSquared() == 1.0
    requires rec.material.Dielectric? && rec.material.refractiveIndex != 0.0 && rec.material.refractiveIndex != -1.0
    ensures DielectricDirection(rec.material.refractiveIndex, rIn, rec, rng, pos, sqrt).value != Zero
  {
    var vIn := rIn.direction.Unit(sqrt);
    RefractNonZero(vIn, rec.normal, RefractionRatio(rec.material.refractiveIndex, rec.isFront), sqrt);
    ReflectLengthSquared(vIn, rec.normal);
  }

  /** Every scattered ray has a nonzero direction, so it can be traced further. */
  lemma ScatterNonZero(rIn: Ray, rec: HitRecord, rng: Rng, pos: nat, sqrt: real -> real)
    requires IsSqrt(sqrt) && Admissible(rng) && rIn.direction != Zero && ProperMaterial(rec.material)
    requires rec.normal.LengthSquared() == 1.0
    ensures Scatter(rIn, rec, rng, pos, sqrt).value.Some? ==>
              Scatter(rIn, rec, rng, pos, sqrt).value.value.ray.direction != Zero
  {
    match rec.material
    case Lambertian(_) =>
      LambertianOnUnitSphere(rec.normal, rng, pos, sqrt);
    case Metal(_, _) =>
      MetalAbove(rIn, rec, rng, pos, sqrt);
    case Dielectric(_) =>
      DielectricNonZero(rIn, rec, rng, pos, sqrt);
  }
}
