/**
 * RGB colours with real-valued channels and their quantisation to bytes
 * (src/color.rs).
 */
module Colors {
  import opened Vectors

  /** An output byte. */
  type Byte = b: int | 0 <= b < 256

  /** `f64::clamp`: `lo` below the range, `hi` above it, `x` within it. */
  function Clamp(x: real, lo: real, hi: real): (r: real)
    requires lo <= hi
    ensures lo <= r <= hi
    ensures x < lo ==> r == lo
    ensures x > hi ==> r == hi
    ensures lo <= x <= hi ==> r == x
  {
    if x < lo then lo else if x > hi then hi else x
  }

  /**
   * The saturating float-to-`u8` cast `as u8`: truncation toward zero, with
   * everything at or below zero giving 0 and everything at or above 256
   * giving 255.
   */
  function AsByte(x: real): (r: Byte)
    ensures 0.0 <= x < 256.0 ==> r as real <= x < r as real + 1.0
  {
    if x <= 0.0 then 0 else if x >= 256.0 then 255 else x.Floor
  }

  /** The largest value a channel is clamped to before scaling to a byte. */
  const ChannelMax: real := 0.999

  /**
   * Gamma correction and quantisation of an averaged channel value: square
   * root, clamp into [0, 0.999], scale by 256 and cast.  A negative value has
   * no real square root; in floating point the root is NaN, the clamp keeps
   * NaN and the cast turns NaN into 0, which is the value here.
   */
  function Quantise(s: real, sqrt: real -> real): (r: Byte)
    requires IsSqrt(sqrt)
  {
    if s < 0.0 then 0
    else AsByte(Clamp(sqrt(s), 0.0, ChannelMax) * 256.0)
  }

  /** One channel of `to_bytes`: the accumulated value averaged over the samples, then quantised. */
  function Channel(c: real, samplesPerPixel: nat, sqrt: real -> real): (r: Byte)
    requires IsSqrt(sqrt) && samplesPerPixel > 0
  {
    Quantise(c * (1.0 / samplesPerPixel as real), sqrt)
  }

  /** A colour; its three channels are the components of a vector. */
  datatype Color = Color(v: Vec3) {

    /** `to_bytes`: the quantised channels in the order red, green, blue. */
    function ToBytes(samplesPerPixel: nat, sqrt: real -> real): (r: seq<Byte>)
      requires IsSqrt(sqrt) && samplesPerPixel > 0
      ensures |r| == 3
      ensures r[0] == Channel(v.x, samplesPerPixel, sqrt)
      ensures r[1] == Channel(v.y, samplesPerPixel, sqrt)
      ensures r[2] == Channel(v.z, samplesPerPixel, sqrt)
    {
      [Channel(v.x, samplesPerPixel, sqrt),
       Channel(v.y, samplesPerPixel, sqrt),
       Channel(v.z, samplesPerPixel, sqrt)]
    }

    /** Colour addition, channel by channel. */
    function Add(rhs: Color): (r: Color)
      ensures r.v == Vec3(v.x + rhs.v.x, v.y + rhs.v.y, v.z + rhs.v.z)
    {
      Color(v.Add(rhs.v))
    }

    /** `Color * Color`: component-wise attenuation. */
    function Mul(rhs: Color): (r: Color)
      ensures r.v == Vec3(v.x * rhs.v.x, v.y * rhs.v.y, v.z * rhs.v.z)
    {
      Color(v.Mul(rhs.v))
    }
  }

  /** `f64 * Color`: every channel scaled. */
  function Scale(s: real, c: Color): (r: Color)
    ensures r.v == Vec3(s * c.v.x, s * c.v.y, s * c.v.z)
  {
    Color(ScalarMul(s, c.v))
  }

  const Black: Color := Color(Zero)

  /** A zero channel quantises to 0. */
  lemma ChannelZero(samplesPerPixel: nat, sqrt: real -> real)
    requires IsSqrt(sqrt) && samplesPerPixel > 0
    ensures Channel(0.0, samplesPerPixel, sqrt) == 0
  {
    SqrtZero(sqrt, 0.0);
  }

  /** The black colour quantises to three zero bytes. */
  lemma ToBytesBlack(samplesPerPixel: nat, sqrt: real -> real)
    requires IsSqrt(sqrt) && samplesPerPixel > 0
    ensures Black.ToBytes(samplesPerPixel, sqrt) == [0, 0, 0]
  {
    ChannelZero(samplesPerPixel, sqrt);
  }

  /** A channel whose accumulated value reaches the sample count quantises to 255. */
  lemma ChannelSaturates(c: real, samplesPerPixel: nat, sqrt: real -> real)
    requires IsSqrt(sqrt) && samplesPerPixel > 0
    requires c >= samplesPerPixel as real
    ensures Channel(c, samplesPerPixel, sqrt) == 255
  {
    var n := samplesPerPixel as real;
    var scaled := c * (1.0 / n);
    assert scaled >= 1.0 by {
      assert scaled == c / n;
    }
    SqrtOne(sqrt);
    SqrtMonotone(sqrt, 1.0, scaled);
    assert Clamp(sqrt(scaled), 0.0, ChannelMax) == ChannelMax;
  }

  /** Quantisation is monotone: a larger accumulated value never gives a smaller byte. */
  lemma ChannelMonotone(c1: real, c2: real, samplesPerPixel: nat, sqrt: real -> real)
    requires IsSqrt(sqrt) && samplesPerPixel > 0
    requires c1 <= c2
    ensures Channel(c1, samplesPerPixel, sqrt) <= Channel(c2, samplesPerPixel, sqrt)
  {
    ScaleMonotone(c1, c2, 1.0 / samplesPerPixel as real);
    QuantiseMonotone(c1 * (1.0 / samplesPerPixel as real), c2 * (1.0 / samplesPerPixel as real), sqrt);
  }

  lemma QuantiseMonotone(s1: real, s2: real, sqrt: real -> real)
    requires IsSqrt(sqrt) && s1 <= s2
    ensures Quantise(s1, sqrt) <= Quantise(s2, sqrt)
  {
    if 0.0 <= s1 {
      SqrtMonotone(sqrt, s1, s2);
      AsByteMonotone(Clamp(sqrt(s1), 0.0, ChannelMax) * 256.0, Clamp(sqrt(s2), 0.0, ChannelMax) * 256.0);
    }
  }

  lemma ScaleMonotone(a: real, b: real, k: real)
    requires a <= b && 0.0 < k
    ensures a * k <= b * k
  {
  }

  lemma AsByteMonotone(a: real, b: real)
    requires a <= b
    ensures AsByte(a) <= AsByte(b)
  {
  }

  /** A colour variable that `+=` updates in place. */
  class MutColor {
    var value: Color

    constructor (c: Color)
      ensures value == c
    {
      value := c;
    }

    /** `+=` leaves the variable equal to the sum. */
    method AddAssign(rhs: Color)
      modifies this
      ensures value == old(value).Add(rhs)
    {
      var acc := new MutVec3(value.v);
      acc.AddAssign(rhs.v);
      value := Color(acc.Value());
    }
  }
}
