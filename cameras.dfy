/**
 * The camera (src/camera.rs): a viewport placed at the focus distance in
 * front of the viewpoint, framed by two orthogonal sides, and a thin lens
 * from which rays start at random offsets to simulate depth of field.
 *
 * `Camera::new` derives the viewport height from the vertical field of view
 * through `tan` and `to_radians`; the model takes the viewport height itself.
 */
module Cameras {
  import opened Vectors
  import opened Points
  import opened Rays
  import opened Random

  datatype Camera = Camera(
    origin: Point3,
    horizontal: Vec3,
    vertical: Vec3,
    lowerLeftCorner: Point3,
    lensRadius: real)

  /** The unit direction the camera looks in. */
  function LookDirection(lookFrom: Point3, lookAt: Point3, sqrt: real -> real): Vec3
    requires IsSqrt(sqrt) && lookAt.SubPoint(lookFrom) != Zero
  {
    lookAt.SubPoint(lookFrom).Unit(sqrt)
  }

  /** Scaling the left operand of a cross product scales the product. */
  lemma CrossScaled(a: Vec3, k: real, b: Vec3)
    ensures a.MulScalar(k).Cross(b) == ScalarMul(k, a.Cross(b))
  {
    ScaledDifference(a.y, b.z, a.z, b.y, k);
    ScaledDifference(a.z, b.x, a.x, b.z, k);
    ScaledDifference(a.x, b.y, a.y, b.x, k);
  }

  lemma ScaledDifference(p: real, q: real, r: real, t: real, k: real)
    ensures (p * k) * q - (r * k) * t == k * (p * q - r * t)
  {
  }

  /** A vector and its unit vector have the same cross products up to scale, so neither is zero when the other is not. */
  lemma UnitCrossNonZero(d: Vec3, b: Vec3, sqrt: real -> real)
    requires IsSqrt(sqrt) && d != Zero && d.Cross(b) != Zero
    ensures d.Unit(sqrt).Cross(b) != Zero
  {
    CrossScaled(d.Unit(sqrt), d.Length(sqrt), b);
  }

  /** The unit vector along the horizontal side: perpendicular to the look direction and to `vup`. */
  function UnitHorizontal(lookFrom: Point3, lookAt: Point3, vup: Vec3, sqrt: real -> real): Vec3
    requires IsSqrt(sqrt) && lookAt.SubPoint(lookFrom).Cross(vup) != Zero
  {
    UnitCrossNonZero(lookAt.SubPoint(lookFrom), vup, sqrt);
    LookDirection(lookFrom, lookAt, sqrt).Cross(vup).Unit(sqrt)
  }

  /** The unit vector along the vertical side: the cross product of the horizontal side and the look direction. */
  function UnitVertical(lookFrom: Point3, lookAt: Point3, vup: Vec3, sqrt: real -> real): Vec3
    requires IsSqrt(sqrt) && lookAt.SubPoint(lookFrom).Cross(vup) != Zero
  {
    UnitHorizontal(lookFrom, lookAt, vup, sqrt).Cross(LookDirection(lookFrom, lookAt, sqrt))
  }

  /**
   * The camera built on a frame: the sides are the unit side vectors scaled
   * to the viewport's width and height, and the lower left corner lies half
   * a side back from the point at the focus distance along the look direction.
   */
  function FramedCamera(lookFrom: Point3, lookTo: Vec3, unitHorizontal: Vec3, unitVertical: Vec3,
                        viewportWidth: real, viewportHeight: real, aperture: real, focusDist: real): (c: Camera)
    ensures c.origin == lookFrom
    ensures c.lensRadius == aperture / 2.0
  {
    var horizontal := ScalarMul(viewportWidth, unitHorizontal);
    var vertical := ScalarMul(viewportHeight, unitVertical);
    Camera(lookFrom, horizontal, vertical,
           lookFrom.AddVec(ScalarMul(focusDist, lookTo)).SubVec(horizontal.Div(2.0)).SubVec(vertical.Div(2.0)),
           aperture / 2.0)
  }

  /**
   * `Camera::new`.  The look direction and `vup` must not be parallel, so
   * that the horizontal side has a direction.
   */
  function NewCamera(lookFrom: Point3, lookAt: Point3, vup: Vec3, viewportHeight: real, aspectRatio: real,
                     aperture: real, focusDist: real, sqrt: real -> real): (c: Camera)
    requires IsSqrt(sqrt) && lookAt.SubPoint(lookFrom).Cross(vup) != Zero
    ensures c.origin == lookFrom
    ensures c.lensRadius == aperture / 2.0
  {
    FramedCamera(lookFrom, LookDirection(lookFrom, lookAt, sqrt),
                 UnitHorizontal(lookFrom, lookAt, vup, sqrt), UnitVertical(lookFrom, lookAt, vup, sqrt),
                 aspectRatio * viewportHeight, viewportHeight, aperture, focusDist)
  }

  /** A vector orthogonal to `a` has a unit vector orthogonal to `a`. */
  lemma UnitOrthogonal(w: Vec3, a: Vec3, sqrt: real -> real)
    requires IsSqrt(sqrt) && w != Zero && a.Dot(w) == 0.0
    ensures a.Dot(w.Unit(sqrt)) == 0.0
  {
    var u := w.Unit(sqrt);
    var len := w.Length(sqrt);
    var d := a.Dot(u);
    assert a.Dot(u.MulScalar(len)) == len * d;
    MulZero(len, d);
  }

  /** The frame of unit vectors: the look direction and the two sides are unit vectors, mutually orthogonal. */
  lemma UnitFrame(lookFrom: Point3, lookAt: Point3, vup: Vec3, sqrt: real -> real)
    requires IsSqrt(sqrt) && lookAt.SubPoint(lookFrom).Cross(vup) != Zero
    ensures var lookTo := LookDirection(lookFrom, lookAt, sqrt);
            var uh := UnitHorizontal(lookFrom, lookAt, vup, sqrt);
            var uv := UnitVertical(lookFrom, lookAt, vup, sqrt);
            lookTo.LengthSquared() == 1.0 && uh.LengthSquared() == 1.0 && uv.LengthSquared() == 1.0 &&
            lookTo.Dot(uh) == 0.0 && lookTo.Dot(uv) == 0.0 && uh.Dot(uv) == 0.0
  {
    var lookTo := LookDirection(lookFrom, lookAt, sqrt);
    var uh := UnitHorizontal(lookFrom, lookAt, vup, sqrt);
    UnitCrossNonZero(lookAt.SubPoint(lookFrom), vup, sqrt);
    UnitOrthogonal(lookTo.Cross(vup), lookTo, sqrt);
    Lagrange(uh, lookTo);
    MulOnes(uh.LengthSquared(), lookTo.LengthSquared());
  }

  /** Orthogonality and squared lengths survive scaling both vectors. */
  lemma ScaledPair(a: Vec3, b: Vec3, s: real, t: real)
    requires a.Dot(b) == 0.0 && a.LengthSquared() == 1.0 && b.LengthSquared() == 1.0
    ensures ScalarMul(s, a).Dot(ScalarMul(t, b)) == 0.0
    ensures ScalarMul(s, a).LengthSquared() == Sq(s)
  {
    var sa := ScalarMul(s, a);
    assert sa.Dot(ScalarMul(t, b)) == t * sa.Dot(b);
    assert sa.Dot(b) == s * a.Dot(b);
    ScaleLengthSquared(a, s);
  }

  /** On an orthonormal frame, the sides are orthogonal to each other and to the look direction, with the given lengths. */
  lemma FramedCameraSides(lookFrom: Point3, lookTo: Vec3, uh: Vec3, uv: Vec3,
                          viewportWidth: real, viewportHeight: real, aperture: real, focusDist: real)
    requires uh.LengthSquared() == 1.0 && uv.LengthSquared() == 1.0
    requires lookTo.Dot(uh) == 0.0 && lookTo.Dot(uv) == 0.0 && uh.Dot(uv) == 0.0
    ensures var c := FramedCamera(lookFrom, lookTo, uh, uv, viewportWidth, viewportHeight, aperture, focusDist);
            c.horizontal.Dot(c.vertical) == 0.0 &&
            lookTo.Dot(c.horizontal) == 0.0 && lookTo.Dot(c.vertical) == 0.0 &&
            c.horizontal.LengthSquared() == Sq(viewportWidth) &&
            c.vertical.LengthSquared() == Sq(viewportHeight)
  {
    ScaledPair(uh, uv, viewportWidth, viewportHeight);
    ScaledPair(uv, uh, viewportHeight, viewportWidth);
    DotLinear(lookTo, uh, uh, viewportWidth);
    DotLinear(lookTo, uv, uv, viewportHeight);
  }

  /**
   * The viewport frame of a new camera `c` looking along `lookTo`: the
   * horizontal and vertical sides are orthogonal to each other and to the
   * look direction, and their lengths are the viewport width (aspect ratio
   * times height) and height.
   */
  lemma NewCameraFrame(lookFrom: Point3, lookAt: Point3, vup: Vec3, viewportHeight: real, aspectRatio: real,
                       aperture: real, focusDist: real, sqrt: real -> real, c: Camera, lookTo: Vec3)
    requires IsSqrt(sqrt) && lookAt.SubPoint(lookFrom).Cross(vup) != Zero
    requires c == NewCamera(lookFrom, lookAt, vup, viewportHeight, aspectRatio, aperture, focusDist, sqrt)
    requires lookTo == LookDirection(lookFrom, lookAt, sqrt)
    ensures c.horizontal.Dot(c.vertical) == 0.0
    ensures lookTo.Dot(c.horizontal) == 0.0 && lookTo.Dot(c.vertical) == 0.0
    ensures c.horizontal.LengthSquared() == Sq(aspectRatio * viewportHeight)
    ensures c.vertical.LengthSquared() == Sq(viewportHeight)
  {
    var uh, uv := UnitHorizontal(lookFrom, lookAt, vup, sqrt), UnitVertical(lookFrom, lookAt, vup, sqrt);
    var width := aspectRatio * viewportHeight;
    assert c == FramedCamera(lookFrom, lookTo, uh, uv, width, viewportHeight, aperture, focusDist);
    UnitFrame(lookFrom, lookAt, vup, sqrt);
    FramedCameraSides(lookFrom, lookTo, uh, uv, width, viewportHeight, aperture, focusDist);
  }

  /** The point of the viewport at relative width `u` and height `v`. */
  function ViewportPoint(cam: Camera, u: real, v: real): Point3
  {
    cam.lowerLeftCorner.AddVec(ScalarMul(u, cam.horizontal)).AddVec(ScalarMul(v, cam.vertical))
  }

  /** A camera whose lower left corner lies half a side back from `q` along both sides has the middle of its viewport at `q`. */
  lemma CornerCentred(c: Camera, q: Point3)
    requires c.lowerLeftCorner == q.SubVec(c.horizontal.Div(2.0)).SubVec(c.vertical.Div(2.0))
    ensures ViewportPoint(c, 0.5, 0.5) == q
  {
  }

  /** The middle of a new camera's viewport is the point at the focus distance along the look direction `lookTo`. */
  lemma NewCameraCentred(lookFrom: Point3, lookAt: Point3, vup: Vec3, viewportHeight: real, aspectRatio: real,
                         aperture: real, focusDist: real, sqrt: real -> real, c: Camera, lookTo: Vec3)
    requires IsSqrt(sqrt) && lookAt.SubPoint(lookFrom).Cross(vup) != Zero
    requires c == NewCamera(lookFrom, lookAt, vup, viewportHeight, aspectRatio, aperture, focusDist, sqrt)
    requires lookTo == LookDirection(lookFrom, lookAt, sqrt)
    ensures ViewportPoint(c, 0.5, 0.5) == lookFrom.AddVec(ScalarMul(focusDist, lookTo))
  {
    var uh, uv := UnitHorizontal(lookFrom, lookAt, vup, sqrt), UnitVertical(lookFrom, lookAt, vup, sqrt);
    var width := aspectRatio * viewportHeight;
    assert c == FramedCamera(lookFrom, lookTo, uh, uv, width, viewportHeight, aperture, focusDist);
    CornerCentred(c, lookFrom.AddVec(ScalarMul(focusDist, lookTo)));
  }

  /** The lens offset of an accepted disk sample: its coordinates along the unit sides, scaled by the lens radius. */
  function LensOffset(cam: Camera, s: Vec3, sqrt: real -> real): Vec3
    requires IsSqrt(sqrt) && cam.horizontal != Zero && cam.vertical != Zero
  {
    ScalarMul(s.x, cam.horizontal.Unit(sqrt)).Add(ScalarMul(s.y, cam.vertical.Unit(sqrt))).MulScalar(cam.lensRadius)
  }

  /** The ray from the lens point at `offset` to the viewport point. */
  function RayThrough(cam: Camera, u: real, v: real, offset: Vec3): Ray
  {
    Ray(cam.origin.AddVec(offset), ViewportPoint(cam, u, v).SubPoint(cam.origin).Sub(offset))
  }

  /** What `get_ray` computes: the ray through the viewport point from the lens point of the first accepted disk sample. */
  function CameraRay(cam: Camera, u: real, v: real, rng: Rng, pos: nat, sqrt: real -> real): (r: Drawn<Ray>)
    requires IsSqrt(sqrt) && Reachable(Disk, rng, pos) && cam.horizontal != Zero && cam.vertical != Zero
    ensures r.value.At(1.0) == ViewportPoint(cam, u, v)
    ensures pos < r.next
  {
    var s := Sample(Disk, rng, pos);
    Drawn(RayThrough(cam, u, v, LensOffset(cam, s.value, sqrt)), s.next)
  }

  /**
   * `Camera::get_ray`: draw two coordinates in [-1, 1) until they fall
   * strictly inside the unit disk, then cast the ray from that lens point.
   */
  method GetRay(cam: Camera, u: real, v: real, rng: Rng, pos: nat, sqrt: real -> real) returns (ray: Ray, next: nat)
    requires IsSqrt(sqrt) && Reachable(Disk, rng, pos) && cam.horizontal != Zero && cam.vertical != Zero
    ensures Drawn(ray, next) == CameraRay(cam, u, v, rng, pos, sqrt)
    ensures pos < next
  {
    var p := pos;
    while true
      invariant pos <= p
      invariant Reachable(Disk, rng, p)
      invariant Sample(Disk, rng, p) == Sample(Disk, rng, pos)
      decreases Tries(Disk, rng, p)
    {
      var x := FloatBetween(rng, p, -1.0, 1.0);
      var y := FloatBetween(rng, x.next, -1.0, 1.0);
      if x.value * x.value + y.value * y.value < 1.0 {
        var offset := ScalarMul(x.value, cam.horizontal.Unit(sqrt))
                        .Add(ScalarMul(y.value, cam.vertical.Unit(sqrt)))
                        .MulScalar(cam.lensRadius);
        ray := Ray(cam.origin.AddVec(offset),
                   cam.lowerLeftCorner.AddVec(ScalarMul(u, cam.horizontal)).AddVec(ScalarMul(v, cam.vertical))
                     .SubPoint(cam.origin).Sub(offset));
        next := y.next;
        return;
      }
      TriesStep(Disk, rng, p);
      p := y.next;
    }
  }

  /** Whatever the lens offset, the ray arrives at the viewport point at time one. */
  lemma RayThroughLands(cam: Camera, u: real, v: real, offset: Vec3)
    ensures RayThrough(cam, u, v, offset).At(1.0) == ViewportPoint(cam, u, v)
  {
  }

  /** When the two sides are orthogonal, the lens offset has squared length the lens radius squared times the sample's squared length. */
  lemma LensOffsetLength(cam: Camera, s: Vec3, sqrt: real -> real)
    requires IsSqrt(sqrt) && cam.horizontal != Zero && cam.vertical != Zero
    requires cam.horizontal.Dot(cam.vertical) == 0.0
    ensures LensOffset(cam, s, sqrt).LengthSquared() == Sq(cam.lensRadius) * (Sq(s.x) + Sq(s.y))
  {
    var hu, vu := cam.horizontal.Unit(sqrt), cam.vertical.Unit(sqrt);
    UnitOrthogonal(cam.vertical, hu, sqrt) by {
      UnitOrthogonal(cam.horizontal, cam.vertical, sqrt);
      DotSymmetric(cam.vertical, hu);
    }
    var w := ScalarMul(s.x, hu).Add(ScalarMul(s.y, vu));
    assert w.LengthSquared() == Sq(s.x) + Sq(s.y) by {
      OrthogonalPlane(hu, vu, s.x, s.y);
    }
    ScaleLengthSquared(w, cam.lensRadius);
  }

  /** The lens point of an accepted disk sample lies within the lens radius, when the two sides are orthogonal. */
  lemma LensOffsetWithinLens(cam: Camera, s: Vec3, sqrt: real -> real)
    requires IsSqrt(sqrt) && cam.horizontal != Zero && cam.vertical != Zero
    requires cam.horizontal.Dot(cam.vertical) == 0.0 && Inside(Disk, s)
    ensures LensOffset(cam, s, sqrt).LengthSquared() <= Sq(cam.lensRadius)
  {
    LensOffsetLength(cam, s, sqrt);
    SqSign(cam.lensRadius);
    SqSign(s.x);
    SqSign(s.y);
    ScaledAtMost(LensOffset(cam, s, sqrt).LengthSquared(), Sq(cam.lensRadius), Sq(s.x) + Sq(s.y));
  }

  lemma ScaledAtMost(x: real, a: real, b: real)
    requires x == a * b && 0.0 <= a && 0.0 <= b <= 1.0
    ensures x <= a
  {
    MulAtMost(a, b);
  }

  /** A combination of two orthogonal unit vectors has the squared length of its coefficients. */
  lemma OrthogonalPlane(a: Vec3, b: Vec3, s: real, t: real)
    requires a.LengthSquared() == 1.0 && b.LengthSquared() == 1.0 && a.Dot(b) == 0.0
    ensures ScalarMul(s, a).Add(ScalarMul(t, b)).LengthSquared() == Sq(s) + Sq(t)
  {
    ScaledPair(a, b, s, t);
    ScaledPair(b, a, t, s);
    var sa, tb := ScalarMul(s, a), ScalarMul(t, b);
    assert sa.Add(tb).LengthSquared() == sa.LengthSquared() + 2.0 * sa.Dot(tb) + tb.LengthSquared();
  }

  /** A pinhole camera (lens radius zero) casts every ray from its origin. */
  lemma Pinhole(cam: Camera, u: real, v: real, rng: Rng, pos: nat, sqrt: real -> real)
    requires IsSqrt(sqrt) && Reachable(Disk, rng, pos) && cam.horizontal != Zero && cam.vertical != Zero
    requires cam.lensRadius == 0.0
    ensures CameraRay(cam, u, v, rng, pos, sqrt).value.origin == cam.origin
    ensures CameraRay(cam, u, v, rng, pos, sqrt).value.direction == ViewportPoint(cam, u, v).SubPoint(cam.origin)
  {
  }
}
