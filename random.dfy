/**
 * Random utilities over an explicit uniform source (src/random.rs).
 *
 * `float()` calls the foreign `rand::random`.  Here the source is a stream
 * `rng` of reals in [0, 1): the n-th draw of a computation is `rng(n)`, and
 * every sampling function takes the position of its first draw and returns,
 * beside its value, the position of the next unused draw.
 *
 * The rejection loops (`subunit_vec` here, the lens sampling of `get_ray`)
 * draw until a candidate falls inside the unit ball or disk.  They stop only
 * if some later candidate is accepted; `Reachable` states that, and the
 * number of rejected candidates, `Tries`, is the loops' termination measure.
 */
module Random {
  import opened Vectors
  import opened Colors

  /** A value of `rand::random::<f64>()`: a real in [0, 1). */
  type Unit01 = r: real | 0.0 <= r < 1.0

  /** The uniform source: the n-th call of `float()` returns `rng(n)`. */
  type Rng = nat -> Unit01

  /** A value computed from the source, with the position of the next unused draw. */
  datatype Drawn<T> = Drawn(value: T, next: nat)

  /** `float`: one draw, in [0, 1). */
  function Float(rng: Rng, pos: nat): (r: Drawn<real>)
    ensures 0.0 <= r.value < 1.0 && r.next == pos + 1
  {
    Drawn(rng(pos), pos + 1)
  }

  /** `float_between`: one draw mapped affinely onto [min, max). */
  function FloatBetween(rng: Rng, pos: nat, min: real, max: real): (r: Drawn<real>)
    ensures min <= max ==> min <= r.value
    ensures min < max ==> r.value < max
    ensures r.next == pos + 1
  {
    var u := rng(pos);
    var value := min + (max - min) * u;
    if min <= max then
      AffineLower(min, max, u, value);
      AffineUpper(min, max, u, value);
      Drawn(value, pos + 1)
    else
      Drawn(value, pos + 1)
  }

  /** The affine map u |-> min + (max - min)·u sends [0, 1) to values at least `min`. */
  lemma AffineLower(min: real, max: real, u: real, value: real)
    requires 0.0 <= u < 1.0 && min <= max && value == min + (max - min) * u
    ensures min <= value
  {
    MulNonNegative(max - min, u);
  }

  /** ... and, when the interval is not empty, to values below `max`. */
  lemma AffineUpper(min: real, max: real, u: real, value: real)
    requires 0.0 <= u < 1.0 && min <= max && value == min + (max - min) * u
    ensures min < max ==> value < max
  {
    if min < max {
      AffineUpperStrict(min, max, u, value);
    }
  }

  lemma AffineUpperStrict(min: real, max: real, u: real, value: real)
    requires 0.0 <= u < 1.0 && min < max && value == min + (max - min) * u
    ensures value < max
  {
    var d := max - min;
    var e := 1.0 - u;
    var de := d * e;
    MulPositive(d, e);
    assert de == d - d * u;
    assert d * u < d;
  }

  /** `color`: three draws, one per channel, each in [0, 1). */
  function RandomColor(rng: Rng, pos: nat): (r: Drawn<Color>)
    ensures 0.0 <= r.value.v.x < 1.0 && 0.0 <= r.value.v.y < 1.0 && 0.0 <= r.value.v.z < 1.0
    ensures r.next == pos + 3
  {
    var red := Float(rng, pos);
    var green := Float(rng, red.next);
    var blue := Float(rng, green.next);
    Drawn(Color(Vec3(red.value, green.value, blue.value)), blue.next)
  }

  /** `color_between`: three draws, one per channel, each in [min, max). */
  function ColorBetween(rng: Rng, pos: nat, min: real, max: real): (r: Drawn<Color>)
    requires min < max
    ensures min <= r.value.v.x < max && min <= r.value.v.y < max && min <= r.value.v.z < max
    ensures r.next == pos + 3
  {
    var red := FloatBetween(rng, pos, min, max);
    var green := FloatBetween(rng, red.next, min, max);
    var blue := FloatBetween(rng, green.next, min, max);
    Drawn(Color(Vec3(red.value, green.value, blue.value)), blue.next)
  }

  /** The region a rejection loop samples: the unit ball, or the unit disk in the xy plane. */
  datatype Shape = Ball | Disk

  /** How many draws one candidate takes. */
  function Stride(shape: Shape): nat
  {
    match shape
    case Ball => 3
    case Disk => 2
  }

  /** The candidate drawn at `pos`: every coordinate from `float_between(-1.0, 1.0)`. */
  function Candidate(shape: Shape, rng: Rng, pos: nat): (r: Vec3)
    ensures -1.0 <= r.x < 1.0 && -1.0 <= r.y < 1.0 && -1.0 <= r.z < 1.0
    ensures shape == Disk ==> r.z == 0.0
  {
    var x := FloatBetween(rng, pos, -1.0, 1.0);
    var y := FloatBetween(rng, x.next, -1.0, 1.0);
    match shape
    case Ball => Vec3(x.value, y.value, FloatBetween(rng, y.next, -1.0, 1.0).value)
    case Disk => Vec3(x.value, y.value, 0.0)
  }

  /** The acceptance test of the loop: strictly inside the unit ball, or the unit disk. */
  predicate Inside(shape: Shape, v: Vec3)
  {
    match shape
    case Ball => v.LengthSquared() < 1.0
    case Disk => Sq(v.x) + Sq(v.y) < 1.0
  }

  /** The candidate that starts `j` candidates after `pos` is accepted. */
  predicate AcceptsAfter(shape: Shape, rng: Rng, pos: nat, j: nat)
  {
    Inside(shape, Candidate(shape, rng, pos + Stride(shape) * j))
  }

  /** Some candidate from `pos` on is accepted, so the rejection loop started at `pos` stops. */
  ghost predicate Reachable(shape: Shape, rng: Rng, pos: nat)
  {
    exists j: nat :: AcceptsAfter(shape, rng, pos, j)
  }

  /** The number of candidates the loop started at `pos` rejects before it accepts one. */
  ghost function Tries(shape: Shape, rng: Rng, pos: nat): (n: nat)
    requires Reachable(shape, rng, pos)
    ensures AcceptsAfter(shape, rng, pos, n)
    ensures forall i: nat :: i < n ==> !AcceptsAfter(shape, rng, pos, i)
  {
    var j: nat :| AcceptsAfter(shape, rng, pos, j);
    LeastFrom(shape, rng, pos, 0, j)
  }

  /** The first accepted candidate at or after `k`, given that `j` is accepted and none before `k` is. */
  ghost function LeastFrom(shape: Shape, rng: Rng, pos: nat, k: nat, j: nat): (n: nat)
    requires k <= j && AcceptsAfter(shape, rng, pos, j)
    requires forall i: nat :: i < k ==> !AcceptsAfter(shape, rng, pos, i)
    ensures k <= n <= j && AcceptsAfter(shape, rng, pos, n)
    ensures forall i: nat :: i < n ==> !AcceptsAfter(shape, rng, pos, i)
    decreases j - k
  {
    if AcceptsAfter(shape, rng, pos, k) then k else LeastFrom(shape, rng, pos, k + 1, j)
  }

  /** Candidate `i` after the next position is candidate `i + 1` after this one. */
  lemma AcceptsShift(shape: Shape, rng: Rng, pos: nat, i: nat)
    ensures AcceptsAfter(shape, rng, pos + Stride(shape), i) == AcceptsAfter(shape, rng, pos, i + 1)
  {
    assert pos + Stride(shape) + Stride(shape) * i == pos + Stride(shape) * (i + 1);
  }

  /** Rejecting the candidate at `pos` leaves one try fewer from the next position. */
  lemma {:induction false} TriesStep(shape: Shape, rng: Rng, pos: nat)
    requires Reachable(shape, rng, pos)
    requires !Inside(shape, Candidate(shape, rng, pos))
    ensures Reachable(shape, rng, pos + Stride(shape))
    ensures Tries(shape, rng, pos + Stride(shape)) < Tries(shape, rng, pos)
  {
    var n := Tries(shape, rng, pos);
    assert pos + Stride(shape) * 0 == pos;
    assert n != 0;
    AcceptsShift(shape, rng, pos, n - 1);
  }

  /** The accepted candidate of the rejection loop started at `pos`, and the position after it. */
  function Sample(shape: Shape, rng: Rng, pos: nat): (r: Drawn<Vec3>)
    requires Reachable(shape, rng, pos)
    ensures Inside(shape, r.value)
    ensures -1.0 <= r.value.x < 1.0 && -1.0 <= r.value.y < 1.0 && -1.0 <= r.value.z < 1.0
    ensures shape == Disk ==> r.value.z == 0.0
    ensures pos < r.next
    decreases Tries(shape, rng, pos)
  {
    if Inside(shape, Candidate(shape, rng, pos)) then
      Drawn(Candidate(shape, rng, pos), pos + Stride(shape))
    else
      TriesStep(shape, rng, pos);
      Sample(shape, rng, pos + Stride(shape))
  }

  /**
   * `subunit_vec`: draw three coordinates in [-1, 1) until the vector is
   * strictly inside the unit ball.
   */
  method SubunitVec(rng: Rng, pos: nat) returns (v: Vec3, next: nat)
    requires Reachable(Ball, rng, pos)
    ensures Drawn(v, next) == Sample(Ball, rng, pos)
    ensures v.LengthSquared() < 1.0
  {
    var p := pos;
    while true
      invariant Reachable(Ball, rng, p)
      invariant Sample(Ball, rng, p) == Sample(Ball, rng, pos)
      decreases Tries(Ball, rng, p)
    {
      var x := FloatBetween(rng, p, -1.0, 1.0);
      var y := FloatBetween(rng, x.next, -1.0, 1.0);
      var z := FloatBetween(rng, y.next, -1.0, 1.0);
      var candidate := Vec3(x.value, y.value, z.value);
      if candidate.LengthSquared() < 1.0 {
        return candidate, z.next;
      }
      TriesStep(Ball, rng, p);
      p := z.next;
    }
  }

  /** `unit_vec`: the ball sample scaled to unit length. */
  function UnitVec(rng: Rng, pos: nat, sqrt: real -> real): (r: Drawn<Vec3>)
    requires IsSqrt(sqrt) && Reachable(Ball, rng, pos)
    requires Sample(Ball, rng, pos).value != Zero
    ensures r.value.LengthSquared() == 1.0
    ensures r.next == Sample(Ball, rng, pos).next
  {
    var s := Sample(Ball, rng, pos);
    Drawn(s.value.Unit(sqrt), s.next)
  }

  /**
   * `vec_in_hemisphere`: the ball sample, negated when it does not point into
   * the hemisphere around `n`.  The result is inside the ball and has a
   * non-negative dot product with `n`.
   */
  function VecInHemisphere(n: Vec3, rng: Rng, pos: nat): (r: Drawn<Vec3>)
    requires Reachable(Ball, rng, pos)
    ensures var s := Sample(Ball, rng, pos).value;
      r.value == s || r.value == s.Neg()
    ensures n.Dot(r.value) >= 0.0
    ensures r.value.LengthSquared() < 1.0
  {
    var s := Sample(Ball, rng, pos);
    NegDot(n, s.value);
    NegLengthSquared(s.value);
    Drawn(if n.Dot(s.value) > 0.0 then s.value else s.value.Neg(), s.next)
  }

  /**
   * A source under which every rejection loop stops and the ball sample is
   * never exactly the zero vector, so that `unit_vec` is defined.
   */
  ghost predicate Admissible(rng: Rng)
  {
    forall pos: nat ::
      Reachable(Ball, rng, pos) && Reachable(Disk, rng, pos) && Candidate(Ball, rng, pos) != Zero
  }

  /** Under an admissible source the ball sample is never the zero vector. */
  lemma {:induction false} SampleNonZero(rng: Rng, pos: nat)
    requires Admissible(rng)
    ensures Sample(Ball, rng, pos).value != Zero
    decreases Tries(Ball, rng, pos)
  {
    if !Inside(Ball, Candidate(Ball, rng, pos)) {
      TriesStep(Ball, rng, pos);
      SampleNonZero(rng, pos + Stride(Ball));
    }
  }

  /** Admissible sources exist: the stream that always draws 0.25 is one. */
  lemma ConstantAdmissible(rng: Rng)
    requires forall p: nat :: rng(p) == 0.25
    ensures Admissible(rng)
  {
    forall pos: nat
      ensures Reachable(Ball, rng, pos) && Reachable(Disk, rng, pos) && Candidate(Ball, rng, pos) != Zero
    {
      assert AcceptsAfter(Ball, rng, pos, 0);
      assert AcceptsAfter(Disk, rng, pos, 0);
    }
  }
}
