/**
 * The vector algebra of src/vec3.rs: a triple of reals used as a point, a
 * direction and an RGB colour, its arithmetic, the conversion of accumulated
 * radiance to an 8-bit colour, and the sign flip that puts a sampled direction
 * into a normal's hemisphere. `f64` is modelled as `real`.
 */
module Vectors {
  import opened Roots

  /** An output channel of `to_colour` (a Rust `u8`). */
  newtype Byte = b: int | 0 <= b < 256

  /** The `[u8; 3]` returned by `to_colour`. */
  datatype Rgb = Rgb(r: Byte, g: Byte, b: Byte)

  /** `f64::EPSILON`, the gap between 1.0 and the next `f64`: 2^-52. */
  const Epsilon: real := 1.0 / 4503599627370496.0

  datatype Vec3 = Vec3(x: real, y: real, z: real)
  {
    function Add(rhs: Vec3): (r: Vec3)
      ensures r.Sub(rhs) == this
    {
      Vec3(x + rhs.x, y + rhs.y, z + rhs.z)
    }

    function Sub(rhs: Vec3): (r: Vec3)
      ensures Vec3(r.x + rhs.x, r.y + rhs.y, r.z + rhs.z) == this
    {
      Vec3(x - rhs.x, y - rhs.y, z - rhs.z)
    }

    function Mul(s: real): (r: Vec3)
    {
      Vec3(x * s, y * s, z * s)
    }

    /** Division by zero, which `f64` turns into infinities or NaN, is excluded. */
    function Div(s: real): (r: Vec3)
      requires s != 0.0
      ensures r.Mul(s) == this
    {
      Vec3(x / s, y / s, z / s)
    }

    function MagnitudeSquared(): real
    {
      x * x + y * y + z * z
    }

    function Magnitude(sqrt: real -> real): (m: real)
      requires IsSqrt(sqrt)
      ensures m * m == MagnitudeSquared()
    {
      MagnitudeSquaredNonNegative(this);
      SqrtFacts(sqrt, MagnitudeSquared());
      sqrt(MagnitudeSquared())
    }

    /** `self / magnitude`; the zero vector (a NaN result in `f64`) is excluded. */
    function Normalise(sqrt: real -> real): (n: Vec3)
      requires IsSqrt(sqrt)
      requires this != Zero
      ensures n.Mul(Magnitude(sqrt)) == this
    {
      MagnitudeNonZero(this, sqrt);
      Div(Magnitude(sqrt))
    }

    function Dot(rhs: Vec3): real
    {
      x * rhs.x + y * rhs.y + z * rhs.z
    }

    /** The cross product, orthogonal to both factors. */
    function Cross(rhs: Vec3): (r: Vec3)
      ensures Dot(r) == 0.0 && rhs.Dot(r) == 0.0
    {
      Vec3(y * rhs.z - z * rhs.y,
           z * rhs.x - x * rhs.z,
           x * rhs.y - y * rhs.x)
    }

    /** Componentwise product. */
    function Hadamard(rhs: Vec3): Vec3
    {
      Vec3(x * rhs.x, y * rhs.y, z * rhs.z)
    }

    /**
     * Average the accumulated radiance over the samples, gamma-correct it
     * with a square root, clamp it to [0, 1 - epsilon] and quantise it.
     */
    function ToColour(samplesPerPixel: nat, sqrt: real -> real): (c: Rgb)
      requires IsSqrt(sqrt)
      ensures x <= 0.0 ==> c.r == 0
      ensures y <= 0.0 ==> c.g == 0
      ensures z <= 0.0 ==> c.b == 0
      ensures 0 < samplesPerPixel && 0.0 <= x ==>
                c.r as real <= Gamma(x / samplesPerPixel as real, sqrt) * 256.0 < c.r as real + 1.0
      ensures 0 < samplesPerPixel && 0.0 <= y ==>
                c.g as real <= Gamma(y / samplesPerPixel as real, sqrt) * 256.0 < c.g as real + 1.0
      ensures 0 < samplesPerPixel && 0.0 <= z ==>
                c.b as real <= Gamma(z / samplesPerPixel as real, sqrt) * 256.0 < c.b as real + 1.0
      ensures samplesPerPixel == 0 ==> (c.r == 255 <==> 0.0 < x) && (c.g == 255 <==> 0.0 < y) && (c.b == 255 <==> 0.0 < z)
    {
      Rgb(ChannelByte(x, samplesPerPixel, sqrt),
          ChannelByte(y, samplesPerPixel, sqrt),
          ChannelByte(z, samplesPerPixel, sqrt))
    }
  }

  const Zero: Vec3 := Vec3(0.0, 0.0, 0.0)
  const Ones: Vec3 := Vec3(1.0, 1.0, 1.0)
  const Up: Vec3 := Vec3(0.0, 1.0, 0.0)
  const Down: Vec3 := Vec3(0.0, -1.0, 0.0)
  const Left: Vec3 := Vec3(-1.0, 0.0, 0.0)
  const Right: Vec3 := Vec3(1.0, 0.0, 0.0)
  const Forw: Vec3 := Vec3(0.0, 0.0, 1.0)
  const Backw: Vec3 := Vec3(0.0, 0.0, -1.0)

  lemma MagnitudeSquaredNonNegative(v: Vec3)
    ensures 0.0 <= v.MagnitudeSquared()
  {
    SquareNonNegative(v.x);
    SquareNonNegative(v.y);
    SquareNonNegative(v.z);
  }

  /** `magnitude_squared` is zero exactly at `ZERO`. */
  lemma MagnitudeSquaredZero(v: Vec3)
    ensures v.MagnitudeSquared() == 0.0 <==> v == Zero
  {
    if v != Zero {
      MagnitudeSquaredPositive(v);
    }
  }

  lemma MagnitudeSquaredPositive(v: Vec3)
    requires v != Zero
    ensures 0.0 < v.MagnitudeSquared()
  {
    SquareNonNegative(v.x);
    SquareNonNegative(v.y);
    SquareNonNegative(v.z);
    if v.x != 0.0 {
      SquarePositive(v.x);
    } else if v.y != 0.0 {
      SquarePositive(v.y);
    } else {
      SquarePositive(v.z);
    }
  }

  lemma MagnitudeNonNegative(v: Vec3, sqrt: real -> real)
    requires IsSqrt(sqrt)
    ensures 0.0 <= v.Magnitude(sqrt)
  {
    MagnitudeSquaredNonNegative(v);
    SqrtFacts(sqrt, v.MagnitudeSquared());
  }

  lemma MagnitudeNonZero(v: Vec3, sqrt: real -> real)
    requires IsSqrt(sqrt)
    requires v != Zero
    ensures v.Magnitude(sqrt) != 0.0
  {
    MagnitudeSquaredZero(v);
  }

  /** For a non-zero vector, `magnitude_squared(normalise(v)) == 1`. */
  lemma NormaliseUnit(v: Vec3, sqrt: real -> real)
    requires IsSqrt(sqrt)
    requires v != Zero
    ensures v.Normalise(sqrt).MagnitudeSquared() == 1.0
  {
    var m := v.Magnitude(sqrt);
    MagnitudeNonZero(v, sqrt);
    UnitAfterScaling(v.x / m, v.y / m, v.z / m, v.x, v.y, v.z, m);
  }

  lemma RingStep(a: real, b: real, c: real, m: real)
    ensures (a * a + b * b + c * c) * (m * m) == (a * m) * (a * m) + (b * m) * (b * m) + (c * m) * (c * m)
  {
  }

  lemma ScaledSum(a: real, b: real, c: real, x: real, y: real, z: real, m: real)
    requires a * m == x && b * m == y && c * m == z && m * m == x * x + y * y + z * z
    ensures (a * a + b * b + c * c) * (m * m) == m * m
  {
    calc {
      (a * a + b * b + c * c) * (m * m);
      { RingStep(a, b, c, m); }
      (a * m) * (a * m) + (b * m) * (b * m) + (c * m) * (c * m);
      x * x + y * y + z * z;
      m * m;
    }
  }

  /** `(a, b, c)` scaled by `m` is `(x, y, z)` and `m` is its length: `(a, b, c)` has unit length. */
  lemma UnitAfterScaling(a: real, b: real, c: real, x: real, y: real, z: real, m: real)
    requires m != 0.0
    requires a * m == x && b * m == y && c * m == z && m * m == x * x + y * y + z * z
    ensures a * a + b * b + c * c == 1.0
  {
    ScaledSum(a, b, c, x, y, z, m);
    SquareNonZero(m);
    assert (a * a + b * b + c * c - 1.0) * (m * m) == 0.0;
  }

  lemma SquareNonNegative(a: real)
    ensures 0.0 <= a * a
  {
  }

  lemma SquareNonZero(a: real)
    ensures a != 0.0 ==> a * a != 0.0
  {
  }

  /*
   * The two lemmas below state positivity as `!(... <= 0.0)`: the solver
   * rewrites `0.0 < a * a` into `a != 0.0` and so loses the bound, while the
   * negated comparison reaches its arithmetic unchanged.
   */

  /** A non-zero number has a positive square. */
  lemma SquarePositive(a: real)
    requires a != 0.0
    ensures !(a * a <= 0.0)
  {
    if 0.0 < a {
      ProductPositive(a, a);
    } else {
      ProductPositive(-a, -a);
    }
  }

  lemma ProductPositive(p: real, q: real)
    requires 0.0 < p && 0.0 < q
    ensures !(p * q <= 0.0)
  {
  }

  lemma MulMonotone(k: real, a: real, b: real)
    requires 0.0 <= k && a <= b
    ensures k * a <= k * b
  {
    assert k * b - k * a == k * (b - a);
  }

  /** Scaling the second argument of a dot product scales the product. */
  lemma DotScale(a: Vec3, b: Vec3, s: real)
    ensures a.Dot(b.Mul(s)) == s * a.Dot(b)
  {
  }

  /** `f64::clamp`: `hi` above the range, `lo` below it, the value itself inside. */
  function Clamp(v: real, lo: real, hi: real): (r: real)
    requires lo <= hi
    ensures lo <= r <= hi
    ensures lo <= v <= hi ==> r == v
  {
    if v < lo then lo else if v > hi then hi else v
  }

  /**
   * One channel of `to_colour`. The scale is `1 / samples_per_pixel`; a zero
   * sample count makes it `+inf`, so a positive channel saturates and a zero
   * one becomes NaN, which the saturating `as u8` cast sends to 0.
   */
  function ChannelByte(c: real, samplesPerPixel: nat, sqrt: real -> real): (b: Byte)
    requires IsSqrt(sqrt)
    ensures c <= 0.0 ==> b == 0
    ensures 0 < samplesPerPixel && 0.0 <= c ==>
              b as real <= Gamma(c / samplesPerPixel as real, sqrt) * 256.0 < b as real + 1.0
    ensures samplesPerPixel == 0 ==> (b == 255 <==> 0.0 < c)
  {
    if samplesPerPixel == 0 then
      if 0.0 < c then 255 else 0
    else
      ScaledBytePositive(samplesPerPixel, c);
      ScaledByte((1.0 / samplesPerPixel as real) * c, sqrt)
  }

  lemma ScaledBytePositive(samplesPerPixel: nat, c: real)
    requires 0 < samplesPerPixel
    ensures (1.0 / samplesPerPixel as real) * c == c / samplesPerPixel as real
    ensures c <= 0.0 ==> (1.0 / samplesPerPixel as real) * c <= 0.0
  {
  }

  /**
   * A scaled channel as a byte. A negative value has a NaN square root, which
   * clamping leaves in place and the cast sends to 0.
   */
  function ScaledByte(scaled: real, sqrt: real -> real): (b: Byte)
    requires IsSqrt(sqrt)
    ensures scaled <= 0.0 ==> b == 0
    ensures 0.0 <= scaled ==> b as real <= Gamma(scaled, sqrt) * 256.0 < b as real + 1.0
  {
    if scaled < 0.0 then 0 else Quantise(Gamma(scaled, sqrt))
  }

  /**
   * Gamma correction: the square root, clamped to `[0, 1 - f64::EPSILON]`.
   * Up to `(1 - EPSILON)^2` the result squares back to its argument; above
   * it the clamp holds it at `1 - EPSILON`.
   */
  function Gamma(scaled: real, sqrt: real -> real): (g: real)
    requires IsSqrt(sqrt)
    requires 0.0 <= scaled
    ensures 0.0 <= g <= 1.0 - Epsilon
    ensures scaled == 0.0 ==> g == 0.0
    ensures scaled <= (1.0 - Epsilon) * (1.0 - Epsilon) ==> g * g == scaled
    ensures (1.0 - Epsilon) * (1.0 - Epsilon) < scaled ==> g == 1.0 - Epsilon
  {
    SqrtZeroIff(sqrt, scaled);
    GammaRoot(sqrt, scaled, 1.0 - Epsilon);
    Clamp(sqrt(scaled), 0.0, 1.0 - Epsilon)
  }

  /** Below `top * top` the root stays under `top`; above it, it reaches `top`. */
  lemma GammaRoot(sqrt: real -> real, scaled: real, top: real)
    requires IsSqrt(sqrt)
    requires 0.0 <= scaled && 0.0 <= top
    ensures scaled <= top * top ==> sqrt(scaled) <= top
    ensures top * top < scaled ==> top <= sqrt(scaled)
  {
    SquareNonNegative(top);
    SqrtOfSquare(sqrt, top);
    if scaled <= top * top {
      SqrtMonotone(sqrt, scaled, top * top);
    } else {
      SqrtMonotone(sqrt, top * top, scaled);
    }
  }

  /** `(g * 256.0).floor() as u8` for a clamped `g`. */
  function Quantise(g: real): (b: Byte)
    requires 0.0 <= g <= 1.0 - Epsilon
    ensures b as real <= g * 256.0 < b as real + 1.0
  {
    (g * 256.0).Floor as Byte
  }

  /** Rust's `f64::signum` on non-NaN values, without a negative zero. */
  function Signum(v: real): (s: real)
    ensures s == 1.0 || s == -1.0
    ensures v * s >= 0.0
    ensures v == 0.0 ==> s == 1.0
  {
    if v < 0.0 then -1.0 else 1.0
  }

  function Abs(v: real): (a: real)
    ensures 0.0 <= a && (a == v || a == -v)
  {
    if v < 0.0 then -v else v
  }

  /**
   * `random_in_unit_sphere` with its three normal deviates supplied: the
   * direction they span, normalised.
   */
  function RandomInUnitSphere(deviates: Vec3, sqrt: real -> real): (d: Vec3)
    requires IsSqrt(sqrt)
    requires deviates != Zero
    ensures d.MagnitudeSquared() == 1.0
    ensures exists k: real :: 0.0 < k && d.Mul(k) == deviates
  {
    NormaliseUnit(deviates, sqrt);
    MagnitudeNonNegative(deviates, sqrt);
    MagnitudeNonZero(deviates, sqrt);
    var d := deviates.Normalise(sqrt);
    assert d.Mul(deviates.Magnitude(sqrt)) == deviates;
    d
  }

  /**
   * `random_on_hemisphere` with its unit-sphere draw supplied: the draw,
   * multiplied by the sign of its dot product with `normal`.
   */
  function RandomOnHemisphere(draw: Vec3, normal: Vec3): (d: Vec3)
    ensures d == draw || d == draw.Mul(-1.0)
    ensures d.MagnitudeSquared() == draw.MagnitudeSquared()
    ensures normal.Dot(d) == Abs(normal.Dot(draw))
    ensures 0.0 <= normal.Dot(d)
  {
    HemisphereFlip(draw, normal);
    draw.Mul(Signum(normal.Dot(draw)))
  }

  lemma HemisphereFlip(draw: Vec3, normal: Vec3)
    ensures var d := draw.Mul(Signum(normal.Dot(draw)));
            (d == draw || d == draw.Mul(-1.0)) &&
            d.MagnitudeSquared() == draw.MagnitudeSquared() &&
            normal.Dot(d) == Abs(normal.Dot(draw))
  {
    if normal.Dot(draw) < 0.0 {
      NegateKeepsLength(draw);
      DotScale(normal, draw, -1.0);
    } else {
      assert draw.Mul(1.0) == draw;
    }
  }

  lemma NegateKeepsLength(v: Vec3)
    ensures v.Mul(-1.0).MagnitudeSquared() == v.MagnitudeSquared()
  {
    assert (v.x * -1.0) * (v.x * -1.0) == v.x * v.x;
    assert (v.y * -1.0) * (v.y * -1.0) == v.y * v.y;
    assert (v.z * -1.0) * (v.z * -1.0) == v.z * v.z;
  }

  /*
   * The compound assignments overwrite `*self` with the binary operator's
   * result; here they return the new value for the caller to store.
   */

  method AddAssign(lhs: Vec3, rhs: Vec3) returns (updated: Vec3)
    ensures updated == lhs.Add(rhs)
    ensures updated.Sub(rhs) == lhs
  {
    updated := lhs.Add(rhs);
  }

  method SubAssign(lhs: Vec3, rhs: Vec3) returns (updated: Vec3)
    ensures updated == lhs.Sub(rhs)
    ensures updated.Add(rhs) == lhs
  {
    updated := lhs.Sub(rhs);
  }

  method MulAssign(lhs: Vec3, rhs: real) returns (updated: Vec3)
    ensures updated == lhs.Mul(rhs)
    ensures rhs != 0.0 ==> updated.Div(rhs) == lhs
  {
    updated := lhs.Mul(rhs);
  }

  method DivAssign(lhs: Vec3, rhs: real) returns (updated: Vec3)
    requires rhs != 0.0
    ensures updated == lhs.Div(rhs)
    ensures updated.Mul(rhs) == lhs
  {
    updated := lhs.Div(rhs);
  }

  lemma AddSubCancel(a: Vec3, b: Vec3)
    ensures a.Add(b).Sub(b) == a
  {
  }

  lemma MulDivCancel(v: Vec3, s: real)
    requires s != 0.0
    ensures v.Mul(s).Div(s) == v
  {
  }

  lemma DotSymmetric(a: Vec3, b: Vec3)
    ensures a.Dot(b) == b.Dot(a)
  {
  }

  lemma CrossAntiSymmetric(a: Vec3, b: Vec3)
    ensures a.Cross(b) == b.Cross(a).Mul(-1.0)
  {
  }

  lemma CrossOrthogonal(a: Vec3, b: Vec3)
    ensures a.Cross(b).Dot(a) == 0.0
    ensures a.Cross(b).Dot(b) == 0.0
  {
  }

  lemma HadamardLaws(a: Vec3, b: Vec3)
    ensures a.Hadamard(b) == b.Hadamard(a)
    ensures a.Hadamard(b) == Vec3(a.x * b.x, a.y * b.y, a.z * b.z)
    ensures Ones.Hadamard(a) == a
    ensures Zero.Hadamard(a) == Zero
  {
  }

  /** Each output channel of `to_colour` is monotone in its input channel. */
  lemma ChannelByteMonotone(c1: real, c2: real, samplesPerPixel: nat, sqrt: real -> real)
    requires IsSqrt(sqrt)
    requires c1 <= c2
    ensures ChannelByte(c1, samplesPerPixel, sqrt) <= ChannelByte(c2, samplesPerPixel, sqrt)
  {
    if samplesPerPixel != 0 {
      ScaleMonotone(samplesPerPixel, c1, c2);
      ScaledByteMonotone((1.0 / samplesPerPixel as real) * c1, (1.0 / samplesPerPixel as real) * c2, sqrt);
    }
  }

  lemma ScaleMonotone(samplesPerPixel: nat, c1: real, c2: real)
    requires 0 < samplesPerPixel && c1 <= c2
    ensures (1.0 / samplesPerPixel as real) * c1 <= (1.0 / samplesPerPixel as real) * c2
  {
    MulMonotone(1.0 / samplesPerPixel as real, c1, c2);
  }

  lemma ScaledByteMonotone(s1: real, s2: real, sqrt: real -> real)
    requires IsSqrt(sqrt)
    requires s1 <= s2
    ensures ScaledByte(s1, sqrt) <= ScaledByte(s2, sqrt)
  {
    if 0.0 <= s1 {
      GammaMonotone(s1, s2, sqrt);
      QuantiseMonotone(Gamma(s1, sqrt), Gamma(s2, sqrt));
    }
  }

  lemma GammaMonotone(s1: real, s2: real, sqrt: real -> real)
    requires IsSqrt(sqrt)
    requires 0.0 <= s1 <= s2
    ensures Gamma(s1, sqrt) <= Gamma(s2, sqrt)
  {
    SqrtMonotone(sqrt, s1, s2);
    ClampMonotone(sqrt(s1), sqrt(s2), 0.0, 1.0 - Epsilon);
  }

  lemma ClampMonotone(v1: real, v2: real, lo: real, hi: real)
    requires lo <= hi && v1 <= v2
    ensures Clamp(v1, lo, hi) <= Clamp(v2, lo, hi)
  {
  }

  lemma QuantiseMonotone(g1: real, g2: real)
    requires 0.0 <= g1 <= g2 <= 1.0 - Epsilon
    ensures Quantise(g1) <= Quantise(g2)
  {
  }

  /** Zero radiance is black, whatever the sample count. */
  lemma ToColourOfZero(samplesPerPixel: nat, sqrt: real -> real)
    requires IsSqrt(sqrt)
    ensures Zero.ToColour(samplesPerPixel, sqrt) == Rgb(0, 0, 0)
  {
  }

  lemma ToColourMonotone(a: Vec3, b: Vec3, samplesPerPixel: nat, sqrt: real -> real)
    requires IsSqrt(sqrt)
    requires a.x <= b.x && a.y <= b.y && a.z <= b.z
    ensures var ca, cb := a.ToColour(samplesPerPixel, sqrt), b.ToColour(samplesPerPixel, sqrt);
            ca.r <= cb.r && ca.g <= cb.g && ca.b <= cb.b
  {
    ChannelByteMonotone(a.x, b.x, samplesPerPixel, sqrt);
    ChannelByteMonotone(a.y, b.y, samplesPerPixel, sqrt);
    ChannelByteMonotone(a.z, b.z, samplesPerPixel, sqrt);
  }
}
