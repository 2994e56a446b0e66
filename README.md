# hooray, modelled in Dafny

A model of the core of `hooray`, a small path tracer written in Rust in the
style of *Ray Tracing in One Weekend*. The model covers:

- vector, point and colour algebra;
- rays and the depth-bounded recursive ray colour;
- sphere intersection and the world's nearest hit;
- the Lambertian, metal and dielectric materials, with reflection,
  refraction and Schlick's reflectance;
- the thin-lens camera;
- the random helpers built on a uniform source in [0, 1).

Arithmetic is over Dafny's `real`, so every result is the exact value that
the floating-point code approximates.

The model makes three of the source's external pieces into parameters:

- **Square root.** `sqrt: real -> real` is a parameter. Every member that
  takes one requires `IsSqrt(sqrt)`: for every `x >= 0`, `sqrt(x) >= 0`
  and `sqrt(x) * sqrt(x) == x`.
- **Randomness.** It is a stream `Rng = nat -> Unit01` of values in
  [0, 1) together with a position. Every random helper returns a
  `Drawn(value, next)`: the value and the position of the next unused draw.
  `float()` is the draw at the current position.
- **Field of view.** `Camera::new` takes the viewport height directly; the
  source computes it from the vertical field of view with `tan` and
  `to_radians`.

The rejection loops are `SubunitVec` in `random.rs` and `GetRay` in
`camera.rs`. They are imperative `while` loops. They are proved to end
whenever the stream eventually yields an accepted candidate
(`Reachable`), by decreasing the number of tries still to come.

Module layout, one Dafny file per module:

| module | file | source |
|---|---|---|
| `Options` | options.dfy | the `Option` datatype |
| `Vectors` | vectors.dfy | src/vec3.rs |
| `Points` | points.dfy | src/point3.rs |
| `Colors` | colors.dfy | src/color.rs |
| `Rays` | rays.dfy | src/ray.rs (`Ray`, `at`) |
| `Random` | random.dfy | src/random.rs |
| `Materials` | materials.dfy | src/material.rs (the material datatype and the optics) |
| `Objects` | objects.dfy | src/object.rs |
| `Scattering` | scattering.dfy | src/material.rs (`scatter`) |
| `Tracing` | tracing.dfy | src/ray.rs (`color`) |
| `Cameras` | cameras.dfy | src/camera.rs |

`material.rs` and `ray.rs` are each split in two. Dafny modules cannot
depend on each other in a cycle, and here scattering needs hit records
while hit records need materials.

Several functions only compute, such as `Vec3.Dot`, `Reflect` or `Sky`,
and have no contract of their own. The "## Model" row of the lemma that
states such a function's properties names the function in its third column.

The project is verified with

    dafny verify --resource-limit 2000000 --verification-time-limit 0 --warn-contradictory-assumptions *.dfy

The sphere intersection's nonlinear arithmetic needs these settings.
Without them, `Objects.SphereHit` can exceed the verifier's default
30-second limit.

Points where the model departs from the code or its documents:

- **Material type.** `Material` is declared as a trait in `material.rs`.
  The rest of the code stores it by value and builds it through
  constructors, so the model makes it a three-variant datatype.
- **`vec_in_hemisphere`.** Its doc comment promises a dot product "≥ 1"
  with the normal. The code guarantees only that the dot product is ≥ 0,
  and that is what `Random.VecInHemisphere` states.
- **`refract`.** It is documented for unit vectors, so its facts are stated
  for unit `v` and `n`. The `min(1.0)` guard on the cosine never changes
  a unit vector's value, by `Materials.IncidenceCosUncapped`.
- **Total internal reflection in the dielectric.** This follows from two
  lemmas taken together:
  - `Materials.RefractTotalInternal` gives exactly when `refract` fails;
  - `Scattering.DielectricReflectsWhenRefractFails` shows that the
    dielectric then reflects without a draw.

## Model

| member | source | states |
|---|---|---|
| Vectors.Vec3.LengthSquared | src/vec3.rs:39-41 | the squared length is the vector's dot product with itself, is never negative, and is zero exactly for the zero vector |
| Vectors.Vec3.Length | src/vec3.rs:35-37 | the length is non-negative, its square is the squared length, and it is zero exactly for the zero vector |
| Vectors.Vec3.Unit | src/vec3.rs:44-46 | a non-zero vector's unit vector has squared length 1, and scaling it by the length gives back the vector |
| Vectors.Vec3.Cross | src/vec3.rs:61-67 | the cross product is orthogonal to both operands |
| Vectors.Vec3.Index | src/vec3.rs:78-89 | indices 0, 1 and 2 give x, y and z; any other index is excluded, as the source panics on it |
| Vectors.Vec3.Sub | src/vec3.rs:107-113 | subtraction is component-wise, and adding the subtrahend back with `Vec3.Add` gives the minuend |
| Vectors.Vec3.Div | src/vec3.rs:147-153 | division by a non-zero scalar is component-wise division, and multiplying back by the scalar undoes it |
| Vectors.ScalarMul | src/vec3.rs:123-137 | `f64 * Vec3` equals `Vec3 * f64` (`Vec3.MulScalar`), i.e. scalar multiplication commutes |
| Vectors.DotSymmetric | src/vec3.rs:56-58 | the dot product `Vec3.Dot` is symmetric |
| Vectors.DotLinear | src/vec3.rs:56-58 | `Vec3.Dot` is linear in its second operand over `Vec3.Add`, subtraction and scaling |
| Vectors.NegInvolution | src/vec3.rs:70-76 | negating twice with `Vec3.Neg` gives back the vector |
| Vectors.NegDot | src/vec3.rs:70-76 | negating one operand negates the dot product |
| Vectors.NegLengthSquared | src/vec3.rs:70-76 | negation keeps the squared length |
| Vectors.SubSelf | src/vec3.rs:107-113 | a vector minus itself is the zero vector |
| Vectors.ScaleLengthSquared | src/vec3.rs:123-129 | scaling by `s` multiplies the squared length by `s²` |
| Vectors.ScaledDotSign | src/vec3.rs:123-129 | scaling by a positive factor keeps the sign of a dot product |
| Vectors.UnitDotSign | src/vec3.rs:44-46 | a vector and its unit vector have dot products of the same sign with any vector |
| Vectors.Lagrange | src/vec3.rs:56-67 | Lagrange's identity: `‖a×b‖² = ‖a‖²‖b‖² − (a·b)²` |
| Vectors.MutVec3.constructor | src/vec3.rs:19-21 | a new vector variable holds the given value |
| Vectors.MutVec3.AddAssign | src/vec3.rs:99-105 | `+=` leaves the variable equal to the old value plus the operand |
| Vectors.MutVec3.MulAssign | src/vec3.rs:139-145 | `*=` leaves the variable equal to the old value times the scalar |
| Vectors.MutVec3.DivAssign | src/vec3.rs:155-159 | `/=` by a non-zero scalar leaves the variable equal to the old value divided by it |
| Points.Point3.AddVec | src/point3.rs:29-35 | translating a point adds the vector component-wise |
| Points.Point3.SubPoint | src/point3.rs:45-51 | the difference of two points is the vector that translates the second onto the first |
| Points.Point3.SubVec | src/point3.rs:53-59 | subtracting a vector from a point subtracts component-wise |
| Points.VecAddPoint | src/point3.rs:37-43 | `Vec3 + Point3` adds component-wise |
| Points.AddSubRoundTrip | src/point3.rs:29-59 | translating by a vector and back, in either order, gives back the point |
| Points.DifferenceRoundTrip | src/point3.rs:29-51 | `q + (p − q) == p`, and `p − q` is the negation of `q − p` |
| Points.MixedAddCommutes | src/point3.rs:37-43 | `v + p == p + v` |
| Points.SubSelfZero | src/point3.rs:45-51 | `p − p` is the zero vector |
| Points.AddVecAssociative | src/point3.rs:29-35 | translating by `a` and then by `b` is translating by `a + b` |
| Colors.Clamp | src/color.rs:26-28 | the clamped value lies in the range; a value below it gives the lower bound, a value above it the upper bound, and a value inside it is unchanged |
| Colors.AsByte | src/color.rs:26-30 | the saturating `as u8` cast truncates a value in [0, 256) to the byte just below it |
| Colors.Color.ToBytes | src/color.rs:22-31 | three bytes: the red, green and blue channels, each averaged over the samples, gamma-corrected, clamped and quantised |
| Colors.Color.Add | src/color.rs:34-40 | colour addition is component-wise |
| Colors.Color.Mul | src/color.rs:56-62 | `Color * Color` is component-wise multiplication, i.e. the `Vec3.Mul` of the channels |
| Colors.Scale | src/color.rs:48-54 | `f64 * Color` scales every channel |
| Colors.ChannelZero | src/color.rs:26-30 | a zero channel quantises to 0 |
| Colors.ToBytesBlack | src/color.rs:22-31 | black quantises to `[0, 0, 0]` |
| Colors.ChannelSaturates | src/color.rs:26-30 | a channel whose accumulated value reaches the sample count quantises to 255 |
| Colors.ChannelMonotone | src/color.rs:26-30 | quantisation is monotone: a larger accumulated value never gives a smaller byte |
| Colors.QuantiseMonotone | src/color.rs:26-30 | the gamma-clamp-scale-cast chain is monotone |
| Colors.MutColor.constructor | src/color.rs:17-19 | a new colour variable holds the given colour |
| Colors.MutColor.AddAssign | src/color.rs:42-46 | `+=` leaves the colour equal to the old colour plus the operand |
| Rays.Ray.At | src/ray.rs:30-32 | the point at time `t` is displaced from the origin by `t` times the direction |
| Rays.AtZero | src/ray.rs:30-32 | at time 0 the ray is at its origin |
| Rays.AtAdditive | src/ray.rs:30-32 | travelling for `s` and then `t` more is travelling for `s + t` |
| Random.Float | src/random.rs:15-19 | `float()` is in [0, 1) and consumes one draw |
| Random.FloatBetween | src/random.rs:21-24 | `float_between(min, max)` is at least `min`, below `max` when `min < max`, and consumes one draw |
| Random.RandomColor | src/random.rs:57-60 | every channel of a random colour is in [0, 1); three draws are consumed |
| Random.ColorBetween | src/random.rs:62-69 | every channel of `color_between(min, max)` is in [min, max); three draws are consumed |
| Random.Candidate | src/random.rs:29-32 | each component of a candidate is in [−1, 1), and a disk candidate lies in the plane z = 0 |
| Random.TriesStep | src/random.rs:28-37 | a rejected candidate leaves the stream still reachable, with strictly fewer tries to go |
| Random.Sample | src/random.rs:26-38 | the first accepted candidate lies inside the shape, has every component in [−1, 1), and is drawn after the start position |
| Random.SubunitVec | src/random.rs:26-38 | the rejection loop returns exactly the first accepted candidate, whose squared length is below 1 |
| Random.UnitVec | src/random.rs:40-43 | `unit_vec` has squared length 1 and consumes the same draws as its ball sample |
| Random.VecInHemisphere | src/random.rs:45-55 | the result is the ball sample or its negation, has a non-negative dot product with `n`, and lies strictly inside the unit ball |
| Random.SampleNonZero | src/random.rs:40-43 | under an admissible stream the ball sample is non-zero, so `unit_vec` is defined |
| Random.ConstantAdmissible | src/random.rs:15-19 | a constant stream of 0.25 is admissible, so the stream assumption can be met |
| Materials.MetalNew | src/material.rs:95-102 | `Metal::new` keeps the albedo and stores `min(fuzz, 1)`, so the stored fuzz is at most 1 |
| Materials.ReflectNormalComponent | src/material.rs:12-14 | for a unit normal, `Reflect` negates the component along the normal |
| Materials.ReflectLengthSquared | src/material.rs:7-14 | for a unit normal, `Reflect` keeps the squared length, as its doc comment promises |
| Materials.ReflectInvolution | src/material.rs:12-14 | reflecting twice with `Reflect` in the same unit normal gives back the vector |
| Materials.Refract | src/material.rs:22-37 | `refract` fails exactly when `ratio * sin > 1` |
| Materials.IncidenceCosUncapped | src/material.rs:23 | for unit vectors the `min(1.0)` cap never applies: the cosine is `−v·n` |
| Materials.RefractTotalInternal | src/material.rs:22-29 | for unit vectors and a non-negative ratio, `refract` fails exactly when `ratio² · (1 − cos²) > 1` |
| Materials.TangentialOrthogonal | src/material.rs:31-32 | the tangential part of a vector is orthogonal to the unit normal |
| Materials.TangentialLengthSquared | src/material.rs:23-24 | the tangential part of a unit vector has squared length `1 − cos²`, the square of `sin` |
| Materials.RefractedPerpFacts | src/material.rs:32 | the perpendicular part of the refracted vector is `ratio` times the incoming tangential part, orthogonal to the normal, with squared length `ratio² sin²` |
| Materials.RefractValue | src/material.rs:31-36 | a refracted vector is the perpendicular part plus the parallel part along the normal |
| Materials.RefractSnell | src/material.rs:31-36 | Snell's law: the refracted vector's tangential part is `ratio` times the incoming one |
| Materials.RefractUnit | src/material.rs:22-37 | for unit vectors and a non-negative ratio, a refracted vector is a unit vector pointing against the normal |
| Materials.RefractNonZero | src/material.rs:22-37 | for unit vectors a refracted vector is never zero |
| Materials.ReflectanceNormal | src/material.rs:139-144 | at normal incidence `Reflectance` is `SchlickR0`, `r0 = ((1 − r)/(1 + r))²` |
| Materials.ReflectanceGrazing | src/material.rs:139-144 | at grazing incidence `Reflectance` is 1 |
| Materials.SchlickR0Bounds | src/material.rs:140-141 | for a non-negative ratio, `SchlickR0` lies in [0, 1] |
| Materials.ReflectanceBounds | src/material.rs:139-144 | for a cosine in [0, 1] and a non-negative ratio, `Reflectance` lies between `r0` and 1, so it is a probability |
| Materials.ReflectanceSymmetric | src/material.rs:136-138 | `Reflectance` is the same for `r` and `1/r`: as documented, it does not matter which index is over which |
| Materials.PowUnitInterval | src/material.rs:143 | a `Pow` of a number in [0, 1] stays in [0, 1] |
| Objects.SphereRecord | src/object.rs:89-101 | the record holds `t`, the point `ray.at(t)` and the sphere's material, and is front-facing exactly when the direction opposes the outward normal |
| Objects.SphereHit | src/object.rs:68-102 | a negative discriminant gives no hit, and any hit has `t_min < t < t_max` and is the record at that `t` |
| Objects.SphereEquation | src/object.rs:69-76 | the squared distance from the centre at time `t`, less `radius²`, is the quadratic `a t² + 2 half_b t + c` |
| Objects.SphereRoots | src/object.rs:76-83 | with a non-negative discriminant, the ray is on the sphere at `t` exactly when `t` is one of the two roots |
| Objects.SphereMissed | src/object.rs:76-79 | with a negative discriminant, the ray is never on the sphere |
| Objects.RootsOrdered | src/object.rs:83 | the first root tried is the smaller one |
| Objects.SphereHitNearest | src/object.rs:68-102 | a hit point lies on the sphere at the smallest in-range time at which the ray meets it; no hit exactly when the ray meets the sphere at no in-range time |
| Objects.OutwardNormalUnit | src/object.rs:90 | on the sphere, the outward normal is a unit vector |
| Objects.SphereHitNormal | src/object.rs:89-93 | a hit's normal is a unit vector opposing the ray: the outward normal when front-facing, its negation otherwise |
| Objects.NearestIsFirstMinimum | src/object.rs:125-129 | the `min_by` fold finds nothing exactly when there are no hits, and otherwise returns the first hit of smallest `t` |
| Objects.Hits | src/object.rs:125-127 | one sphere hit per object, in order |
| Objects.World.constructor | src/object.rs:113-115 | a new world is empty |
| Objects.World.Add | src/object.rs:118-120 | adding appends exactly the one object and keeps the earlier ones |
| Objects.WorldHitNearest | src/object.rs:124-130 | `World.HitBy` is none exactly when no object is hit; otherwise it is the first object's hit whose `t` is at most every other hit's `t` |
| Objects.WorldHitProper | src/object.rs:124-130 | a hit from `World.HitBy` has a unit normal opposing the ray and the material of one of the world's objects |
| Objects.HitsAppend | src/object.rs:118-130 | after an append, the nearest hit is the old nearest hit compared with the new object's hit |
| Objects.EmptyWorldMisses | src/object.rs:113-130 | an empty world is hit by no ray |
| Scattering.Scatter | src/material.rs:69-176 | every scattered ray starts at the hit point; a Lambertian surface always scatters with its albedo; a metal scatters with its albedo exactly when the fuzzed reflection points above the surface; a dielectric always scatters with attenuation (1, 1, 1) |
| Scattering.RefractionRatioPositive | src/material.rs:151-155 | a positive refractive index gives a positive `RefractionRatio` on either face |
| Scattering.LambertianDirection | src/material.rs:73-75 | the direction is the normal plus the `unit_vec` draw, except that a sum that is near zero in every component is replaced by the normal itself; exactly the `unit_vec` draws are consumed |
| Scattering.NotNearZeroNonZero | src/vec3.rs:48-53 | a vector that is not `Vec3.NearZero` is not the zero vector |
| Scattering.LambertianOnUnitSphere | src/material.rs:73-75 | the Lambertian direction is non-zero and is the normal or lies on the unit sphere about the normal's tip |
| Scattering.MetalDirection | src/material.rs:106-108 | with fuzz 0 the metal direction is the mirror reflection of the unit incoming direction; exactly the draws of one ball sample are consumed |
| Scattering.MetalNearMirror | src/material.rs:90-91 | the fuzzed direction lies within distance `fuzz` of the mirror reflection of the unit incoming direction, so a smaller fuzz is closer to a perfect mirror |
| Scattering.MetalMirror | src/material.rs:104-121 | a fuzz-free metal hit from in front returns the mirror reflection with its albedo |
| Scattering.MetalAbove | src/material.rs:110-119 | a ray the metal scatters points strictly above the surface |
| Scattering.DielectricReflectsWhenRefractFails | src/material.rs:159-169 | when `refract` fails, `DielectricDirection` reflects and draws nothing |
| Scattering.DielectricUnit | src/material.rs:157-170 | for a positive index the dielectric's direction is a unit vector, whether refracted or reflected |
| Scattering.DielectricSnell | src/material.rs:159-164 | when refraction is possible and the draw exceeds the reflectance, the dielectric refracts by Snell's law and one draw is consumed |
| Scattering.DielectricNonZero | src/material.rs:147-176 | the dielectric's direction is never zero |
| Scattering.ScatterNonZero | src/material.rs:69-176 | every scattered ray has a non-zero direction, so the recursion can follow it |
| Tracing.RayColor | src/ray.rs:36-67 | the colour at depth 0 is black and consumes no draw; with depth to spare, a ray that misses the world is the sky's colour and consumes no draw; no call rewinds the stream |
| Tracing.SkyGradient | src/ray.rs:56-66 | the blend factor of `Sky` is in [0, 1] and the sky is `(1 − t/2, 1 − 0.3 t, 1)`, with every channel between blue and white |
| Tracing.RayColorMissed | src/ray.rs:56-66 | a ray that misses the world, with depth to spare, has a colour between blue and white in each channel |
| Tracing.RayColorAbsorbed | src/ray.rs:44-54 | a ray whose hit is absorbed, with depth to spare, is black, and the stream continues after the scatter's draws |
| Tracing.RayColorScattered | src/ray.rs:44-50 | a ray whose hit scatters, with depth to spare, has the attenuation times the colour of the scattered ray traced from the next unused draw with one less depth |
| Tracing.SkyVertical | src/ray.rs:60-66 | straight up the sky is blue, straight down it is white |
| Tracing.MulWithinUnit | src/ray.rs:49 | attenuating one colour in [0, 1] by another keeps it in [0, 1] |
| Tracing.RayColorWithinUnit | src/ray.rs:36-67 | when every albedo lies in [0, 1], every channel of a ray's colour lies in [0, 1] at every depth |
| Cameras.NewCamera | src/camera.rs:70-75 | the camera's origin is `look_from` and its lens radius is `aperture / 2` |
| Cameras.UnitFrame | src/camera.rs:63-65 | the look direction and the two unit sides are unit vectors and mutually orthogonal |
| Cameras.NewCameraFrame | src/camera.rs:61-68 | the horizontal and vertical sides are orthogonal to each other and to the look direction, with lengths the viewport width and height |
| Cameras.NewCameraCentred | src/camera.rs:74 | the middle of the viewport is `look_from + focus_dist · look_to` |
| Cameras.CameraRay | src/camera.rs:83-95 | the ray of the first accepted disk sample reaches the viewport point at time 1, after at least one draw |
| Cameras.GetRay | src/camera.rs:81-96 | the loop returns `CameraRay`: the ray through the viewport point from the lens point of the first accepted disk sample, and consumes at least one draw |
| Cameras.RayThroughLands | src/camera.rs:92-95 | whatever the lens offset, origin plus direction is the viewport point `lower_left_corner + u·horizontal + v·vertical` |
| Cameras.LensOffsetLength | src/camera.rs:88 | with orthogonal sides, the lens offset has squared length `lens_radius² (x² + y²)` |
| Cameras.LensOffsetWithinLens | src/camera.rs:83-90 | an accepted sample's lens offset lies within the lens radius |
| Cameras.Pinhole | src/camera.rs:83-95 | with lens radius 0, every ray starts at the camera origin and points at the viewport point |

## Left out

- IEEE floating point: the model has no rounding, NaN or infinities.
  `INF` is the `Infinite` upper limit. A negative channel, whose square
  root would be NaN, quantises to 0, as NaN does after the saturating cast.
- The `abs()` guard in `refract` and the `min(1.0)` cap on the cosine are
  modelled literally. They have no effect for the unit vectors that the
  dielectric's scatter passes, nor, for a positive refractive index, for
  its ratio (`Materials.IncidenceCosUncapped`, `Materials.RefractUnit`). For other
  inputs they can change the result, and the model keeps them so.
- The `partial_cmp().unwrap()` panic exists only for NaN, so the model
  leaves it out.
- `rand::random`: the actual random generator is a foreign library. The
  model uses a stream of draws in [0, 1). Statistical claims, such as
  uniformity or the probability of a Schlick reflection, are out of reach.
- `tan` and `to_radians` in `Camera::new`: the viewport height is an input.
- `Ray::new` and the constructors of `Vec3`, `Point3`, `Color`, `Sphere` and
  the materials are datatype constructors.
- `dyn Object`: the world holds spheres only, and there are no nested worlds.
  The shown code has no other object.
- src/main.rs, src/lib.rs and examples/in-one-weekend.rs are not part of
  this model. Their content is image encoding, file output, scene setup,
  parallel rendering and re-exports.
- The rejection loops never end when every candidate is rejected. The model
  has no `decreases *`, so its loops and `Random.Sample` require a stream
  that eventually accepts (`Reachable`).
- Random.UnitVec: requires the ball sample to be non-zero, which the source
  assumes silently. `Random.Admissible` bundles this with reachability, and
  `Random.SampleNonZero` discharges it.
- Scattering.Scatter: requires a refractive index other than 0 and −1.
  The source divides by the index and by `1 + ratio` without a check.
- Scattering.Scatter: requires a non-zero incoming direction, whose unit
  vector the source takes unguarded.
- Objects.SphereHit: requires a non-zero radius, by which the source divides.
  When `a == 0` the model returns no hit, as the source does, whose NaN
  roots fail both range tests.
- Objects.SphereHitNearest: requires a non-zero ray direction. Without one
  the quadratic degenerates.
- Tracing.RayColor: requires a non-zero ray direction, an admissible stream
  and a proper world, meaning non-zero radii and valid refractive indices.
- Tracing.RayColor: its own contract covers depth 0 and the miss, and
  states that the stream is never rewound. The absorbed and scattered cases are stated by
  `Tracing.RayColorAbsorbed` and `Tracing.RayColorScattered`, not by
  `RayColor`'s own ensures.
- Cameras.NewCamera: requires the look direction not to be parallel to
  `vup`. Otherwise the horizontal side has no direction, and the source
  produces NaN.
- Cameras.GetRay: requires non-zero horizontal and vertical sides, whose
  unit vectors the source takes unguarded. `Cameras.NewCameraFrame` gives
  them lengths equal to the viewport width and height, so they are non-zero
  for every camera `Camera::new` builds with a non-zero viewport.
- Cameras.LensOffsetWithinLens: assumes orthogonal sides, which
  `Cameras.NewCameraFrame` proves for every camera `Camera::new` builds.
- The statement that `near_zero` holds iff every component is below `1e-8`
  in absolute value is the predicate's definition, so it appears in no
  contract of its own. `Scattering.NotNearZeroNonZero` uses it.
