/**
 * The colour of a ray (`Ray::color` in src/ray.rs): follow the ray through
 * the world, scattering at each surface it hits until the depth budget runs
 * out, and colour a ray that escapes by the sky's gradient.
 */
module Tracing {
  import opened Options
  import opened Vectors
  import opened Colors
  import opened Rays
  import opened Random
  import opened Materials
  import opened Objects
  import opened Scattering

  /** The lower end of the hit interval, set above zero so that a ray does not hit the surface it leaves. */
  const TMin: real := 0.001

  /** The colour of the sky straight up. */
  const Blue: Color := Color(Vec3(0.5, 0.7, 1.0))

  /** The sky: white at the horizon below, blue straight up, blended by the height of the unit direction. */
  function Sky(ray: Ray, sqrt: real -> real): Color
    requires IsSqrt(sqrt) && ray.direction != Zero
  {
    var u := ray.direction.Unit(sqrt);
    var t := 0.5 * (u.y + 1.0);
    Scale(1.0 - t, White).Add(Scale(t, Blue))
  }

  /**
   * `Ray::color`: black once the depth budget is spent or when the surface
   * absorbs the ray; the surface's attenuation times the colour of the
   * scattered ray when it scatters; the sky when nothing is hit.
   */
  function RayColor(world: World, ray: Ray, depth: nat, rng: Rng, pos: nat, sqrt: real -> real): (r: Drawn<Color>)
    reads world
    requires IsSqrt(sqrt) && Admissible(rng) && ray.direction != Zero && world.Proper()
    ensures pos <= r.next
    ensures depth == 0 ==> r == Drawn(Black, pos)
    ensures depth > 0 && world.HitBy(ray, TMin, Infinite, sqrt).None? ==> r == Drawn(Sky(ray, sqrt), pos)
    decreases depth
  {
    if depth == 0 then Drawn(Black, pos)
    else
      match world.HitBy(ray, TMin, Infinite, sqrt)
      case None => Drawn(Sky(ray, sqrt), pos)
      case Some(rec) =>
        WorldHitProper(world, ray, TMin, Infinite, sqrt);
        var s := Scatter(ray, rec, rng, pos, sqrt);
        match s.value
        case None => Drawn(Black, s.next)
        case Some(sc) =>
          ScatterNonZero(ray, rec, rng, pos, sqrt);
          var child := RayColor(world, sc.ray, depth - 1, rng, s.next, sqrt);
          Drawn(sc.attenuation.Mul(child.value), child.next)
  }

  /** Every channel of the colour lies in [0, 1]. */
  predicate WithinUnit(c: Color)
  {
    0.0 <= c.v.x <= 1.0 && 0.0 <= c.v.y <= 1.0 && 0.0 <= c.v.z <= 1.0
  }

  /** The colour a material attenuates by, when it has one of its own. */
  predicate AlbedoWithinUnit(m: Material)
  {
    (m.Lambertian? || m.Metal?) ==> WithinUnit(m.albedo)
  }

  /** Every sphere's albedo lies in the unit cube. */
  predicate AlbedosWithinUnit(world: World)
    reads world
  {
    forall i :: 0 <= i < |world.objects| ==> AlbedoWithinUnit(world.objects[i].material)
  }

  /** Every component of a unit vector lies in [−1, 1]. */
  lemma UnitComponents(u: Vec3)
    requires u.LengthSquared() == 1.0
    ensures -1.0 <= u.x <= 1.0 && -1.0 <= u.y <= 1.0 && -1.0 <= u.z <= 1.0
  {
    SqSign(u.x);
    SqSign(u.y);
    SqSign(u.z);
    SqBound(u.x);
    SqBound(u.y);
    SqBound(u.z);
  }

  /**
   * The sky blends linearly from white to blue: with t the blend factor in
   * [0, 1], red is 1 − t/2, green is 1 − 3t/10 and blue is one, so every
   * channel lies in [0, 1], red in [0.5, 1] and green in [0.7, 1].
   */
  lemma SkyGradient(ray: Ray, sqrt: real -> real)
    requires IsSqrt(sqrt) && ray.direction != Zero
    ensures var c := Sky(ray, sqrt);
            var t := 0.5 * (ray.direction.Unit(sqrt).y + 1.0);
            0.0 <= t <= 1.0 &&
            c.v == Vec3(1.0 - 0.5 * t, 1.0 - 0.3 * t, 1.0) &&
            0.5 <= c.v.x <= 1.0 && 0.7 <= c.v.y <= 1.0
  {
    UnitComponents(ray.direction.Unit(sqrt));
  }

  /** A ray aimed straight up sees pure blue; one aimed straight down sees pure white. */
  lemma SkyVertical(ray: Ray, sqrt: real -> real, k: real)
    requires IsSqrt(sqrt) && 0.0 < k
    ensures ray.direction == Vec3(0.0, k, 0.0) ==> Sky(ray, sqrt) == Blue
    ensures ray.direction == Vec3(0.0, -k, 0.0) ==> Sky(ray, sqrt) == White
  {
    if ray.direction == Vec3(0.0, k, 0.0) || ray.direction == Vec3(0.0, -k, 0.0) {
      var u := ray.direction.Unit(sqrt);
      var len := ray.direction.Length(sqrt);
      SqrtUnique(sqrt, Sq(k), k);
      assert len == k;
      assert u == ray.direction.Div(len);
    }
  }

  /** A ray that misses every sphere, with depth to spare, takes the sky's colour: between blue and white, channel by channel. */
  lemma RayColorMissed(world: World, ray: Ray, depth: nat, rng: Rng, pos: nat, sqrt: real -> real)
    requires IsSqrt(sqrt) && Admissible(rng) && ray.direction != Zero && world.Proper()
    requires 0 < depth && world.HitBy(ray, TMin, Infinite, sqrt).None?
    ensures var c := RayColor(world, ray, depth, rng, pos, sqrt).value;
            Blue.v.x <= c.v.x <= White.v.x && Blue.v.y <= c.v.y <= White.v.y && c.v.z == 1.0
  {
    SkyGradient(ray, sqrt);
  }

  /** A ray that hits a sphere which absorbs it, with depth to spare, is black. */
  lemma RayColorAbsorbed(world: World, ray: Ray, depth: nat, rng: Rng, pos: nat, sqrt: real -> real)
    requires IsSqrt(sqrt) && Admissible(rng) && ray.direction != Zero && world.Proper()
    ensures depth > 0 && world.HitBy(ray, TMin, Infinite, sqrt).Some? ==>
              (WorldHitProper(world, ray, TMin, Infinite, sqrt);
               var s := Scatter(ray, world.HitBy(ray, TMin, Infinite, sqrt).value, rng, pos, sqrt);
               s.value.None? ==> RayColor(world, ray, depth, rng, pos, sqrt) == Drawn(Black, s.next))
  {
  }

  /**
   * A ray that hits a sphere which scatters it, with depth to spare, takes
   * the attenuation times the colour of the scattered ray, traced with one
   * less depth from the next unused draw.
   */
  lemma RayColorScattered(world: World, ray: Ray, depth: nat, rng: Rng, pos: nat, sqrt: real -> real)
    requires IsSqrt(sqrt) && Admissible(rng) && ray.direction != Zero && world.Proper()
    ensures depth > 0 && world.HitBy(ray, TMin, Infinite, sqrt).Some? ==>
              (WorldHitProper(world, ray, TMin, Infinite, sqrt);
               var rec := world.HitBy(ray, TMin, Infinite, sqrt).value;
               var s := Scatter(ray, rec, rng, pos, sqrt);
               s.value.Some? ==>
                 (ScatterNonZero(ray, rec, rng, pos, sqrt);
                  var child := RayColor(world, s.value.value.ray, depth - 1, rng, s.next, sqrt);
                  RayColor(world, ray, depth, rng, pos, sqrt) == Drawn(s.value.value.attenuation.Mul(child.value), child.next)))
  {
  }

  /** A product of two channel values in [0, 1] lies in [0, 1]. */
  lemma MulWithinUnit(a: Color, b: Color)
    requires WithinUnit(a) && WithinUnit(b)
    ensures WithinUnit(a.Mul(b))
  {
    MulAtMost(a.v.x, b.v.x);
    MulAtMost(a.v.y, b.v.y);
    MulAtMost(a.v.z, b.v.z);
  }

  /** A surface whose albedo lies in the unit cube attenuates by a colour in the unit cube. */
  lemma AttenuationWithinUnit(ray: Ray, rec: HitRecord, rng: Rng, pos: nat, sqrt: real -> real)
    requires IsSqrt(sqrt) && Admissible(rng) && ray.direction != Zero && ProperMaterial(rec.material)
    requires AlbedoWithinUnit(rec.material)
    ensures Scatter(ray, rec, rng, pos, sqrt).value.Some? ==> WithinUnit(Scatter(ray, rec, rng, pos, sqrt).value.value.attenuation)
  {
  }

  /**
   * Energy is never created: when every albedo lies in the unit cube, so
   * does the colour of every ray, at every depth.
   */
  lemma {:induction false} RayColorWithinUnit(world: World, ray: Ray, depth: nat, rng: Rng, pos: nat, sqrt: real -> real)
    requires IsSqrt(sqrt) && Admissible(rng) && ray.direction != Zero && world.Proper()
    requires AlbedosWithinUnit(world)
    ensures WithinUnit(RayColor(world, ray, depth, rng, pos, sqrt).value)
    decreases depth, 1
  {
    if depth > 0 {
      if world.HitBy(ray, TMin, Infinite, sqrt).None? {
        RayColorMissed(world, ray, depth, rng, pos, sqrt);
      } else {
        HitColorWithinUnit(world, ray, depth, rng, pos, sqrt);
      }
    }
  }

  /** The step of the energy bound at a hit: absorbed is black, scattered is an attenuated colour in the unit cube. */
  lemma {:induction false} HitColorWithinUnit(world: World, ray: Ray, depth: nat, rng: Rng, pos: nat, sqrt: real -> real)
    requires IsSqrt(sqrt) && Admissible(rng) && ray.direction != Zero && world.Proper()
    requires AlbedosWithinUnit(world)
    requires 0 < depth && world.HitBy(ray, TMin, Infinite, sqrt).Some?
    ensures WithinUnit(RayColor(world, ray, depth, rng, pos, sqrt).value)
    decreases depth, 0
  {
    var rec := world.HitBy(ray, TMin, Infinite, sqrt).value;
    WorldHitProper(world, ray, TMin, Infinite, sqrt);
    var k :| 0 <= k < |world.objects| && rec.material == world.objects[k].material;
    assert AlbedoWithinUnit(rec.material);
    AttenuationWithinUnit(ray, rec, rng, pos, sqrt);
    var s := Scatter(ray, rec, rng, pos, sqrt);
    if s.value.Some? {
      var sc := s.value.value;
      ScatterNonZero(ray, rec, rng, pos, sqrt);
      RayColorWithinUnit(world, sc.ray, depth - 1, rng, s.next, sqrt);
      MulWithinUnit(sc.attenuation, RayColor(world, sc.ray, depth - 1, rng, s.next, sqrt).value);
    }
  }
}
