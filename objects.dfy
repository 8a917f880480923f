/**
 * The geometry of src/objects.rs: materials, hit records and the
 * sphere/ray intersection. `hit_test` keeps a root only when both roots of
 * the intersection quadratic lie in `[t_min, t_max]`, and then it reports the
 * larger one, the far side of the sphere; the comment at src/objects.rs:75
 * speaks of the nearest root, but the code does not pick it, and this model
 * follows the code.
 */
module Objects {
  import opened Wrappers
  import opened Roots
  import opened Vectors
  import opened Rays

  datatype Material = Material(baseColour: Vec3, emissionColour: Vec3, emissionStrength: real)
  {
    /** The light the material gives off: `emission_colour * emission_strength`. */
    function Emission(): Vec3
    {
      emissionColour.Mul(emissionStrength)
    }
  }

  /** A diffuse surface of colour `base` that emits nothing. */
  function WithColour(base: Vec3): (m: Material)
    ensures m.baseColour == base
    ensures m.emissionColour == Zero && m.emissionStrength == 0.0
    ensures m.Emission() == Zero
  {
    Material(base, Zero, 0.0)
  }

  /** A black surface that emits white light of strength one. */
  function WhiteLamp(): (m: Material)
    ensures m.baseColour == Zero
    ensures m.emissionColour == Ones && m.emissionStrength == 1.0
    ensures m.Emission() == Ones
  {
    Material(Zero, Ones, 1.0)
  }

  datatype HitResult = HitResult(pos: Vec3, normal: Vec3, distance: real, frontFace: bool, material: Material)
  {
    /**
     * Orient the normal against the ray: keep `outward` when the ray comes
     * from outside, flip it otherwise. The record is a `Copy` value, so the
     * in-place update is the updated record.
     */
    function SetFaceNormal(ray: Ray, outward: Vec3): (r: HitResult)
      ensures r.frontFace <==> ray.dir.Dot(outward) < 0.0
      ensures r.normal == (if r.frontFace then outward else outward.Mul(-1.0))
      ensures ray.dir.Dot(r.normal) <= 0.0
      ensures r.normal.MagnitudeSquared() == outward.MagnitudeSquared()
      ensures r.pos == pos && r.distance == distance && r.material == material
    {
      DotScale(ray.dir, outward, -1.0);
      NegateKeepsLength(outward);
      var front := ray.dir.Dot(outward) < 0.0;
      this.(frontFace := front, normal := if front then outward else outward.Mul(-1.0))
    }
  }

  datatype Sphere = Sphere(centre: Vec3, radius: real, material: Material)

  /** The upper end of the accepted distances; the scene passes `f64::INFINITY`, here `Unbounded`. */
  datatype UpperBound = AtMost(limit: real) | Unbounded

  /** The negation of the rejection test `root < t_min || root > t_max`. */
  predicate InRange(t: real, tMin: real, tMax: UpperBound)
  {
    tMin <= t && (tMax.AtMost? ==> t <= tMax.limit)
  }

  /** `a t^2 + 2 half_b t + c`, whose roots are the distances where a ray meets a sphere. */
  datatype Quadratic = Quadratic(a: real, halfB: real, c: real)
  {
    function Discriminant(): real
    {
      halfB * halfB - a * c
    }

    function Value(t: real): real
    {
      a * t * t + (halfB + halfB) * t + c
    }

    function NearRoot(sqrtD: real): real
      requires a != 0.0
    {
      (-halfB - sqrtD) / a
    }

    function FarRoot(sqrtD: real): real
      requires a != 0.0
    {
      (-halfB + sqrtD) / a
    }
  }

  /** The coefficients computed at src/objects.rs:61-64. */
  function Coefficients(s: Sphere, ray: Ray): Quadratic
  {
    var offset := ray.origin.Sub(s.centre);
    Quadratic(ray.dir.MagnitudeSquared(), offset.Dot(ray.dir), offset.MagnitudeSquared() - s.radius * s.radius)
  }

  /**
   * `hit_test`. A zero direction (`a == 0`, where `f64` divides zero by zero)
   * is reported as a miss.
   */
  function HitTest(s: Sphere, ray: Ray, tMin: real, tMax: UpperBound, sqrt: real -> real): Option<HitResult>
    requires IsSqrt(sqrt)
    requires s.radius != 0.0
  {
    var q := Coefficients(s, ray);
    if q.Discriminant() < 0.0 || q.a == 0.0 then
      None
    else
      var sqrtD := sqrt(q.Discriminant());
      if !InRange(q.NearRoot(sqrtD), tMin, tMax) then
        None
      else
        var root := q.FarRoot(sqrtD);
        if !InRange(root, tMin, tMax) then
          None
        else
          SqrtFacts(sqrt, q.Discriminant());
          FarRootSolves(q, sqrtD);
          OnSphere(s, ray, root);
          Some(HitAt(s, ray, root, sqrt))
  }

  /**
   * The record built at src/objects.rs:85-93 for an accepted distance `root`:
   * the point of the sphere at that distance, the sphere's material, and the
   * outward offset over the radius, which is a unit vector, oriented against
   * the ray.
   */
  function HitAt(s: Sphere, ray: Ray, root: real, sqrt: real -> real): (h: HitResult)
    requires IsSqrt(sqrt)
    requires s.radius != 0.0
    requires ray.At(root).Sub(s.centre).MagnitudeSquared() == s.radius * s.radius
    ensures var outward := h.pos.Sub(s.centre).Div(s.radius);
            h.distance == root &&
            h.pos == ray.At(root) &&
            h.pos.Sub(s.centre).MagnitudeSquared() == s.radius * s.radius &&
            h.material == s.material &&
            h.normal == (if h.frontFace then outward else outward.Mul(-1.0)) &&
            h.normal.MagnitudeSquared() == 1.0 &&
            ray.dir.Dot(h.normal) <= 0.0 &&
            (h.frontFace <==> ray.dir.Dot(outward) < 0.0)
  {
    var pos := ray.At(root);
    OffsetIsUnit(pos.Sub(s.centre), s.radius);
    NormaliseOfUnit(pos.Sub(s.centre).Div(s.radius), sqrt);
    var hr := HitResult(pos, pos.Sub(s.centre).Div(s.radius).Normalise(sqrt), root, false, s.material);
    hr.SetFaceNormal(ray, hr.normal)
  }

  /** A negative discriminant means no intersection. */
  lemma HitTestMissesOnNegativeDiscriminant(s: Sphere, ray: Ray, tMin: real, tMax: UpperBound, sqrt: real -> real)
    requires IsSqrt(sqrt)
    requires s.radius != 0.0
    requires Coefficients(s, ray).Discriminant() < 0.0
    ensures HitTest(s, ray, tMin, tMax, sqrt) == None
  {
  }

  /** A hit is reported exactly when the discriminant is non-negative and both roots are in range. */
  lemma HitTestHitsIff(s: Sphere, ray: Ray, tMin: real, tMax: UpperBound, sqrt: real -> real)
    requires IsSqrt(sqrt)
    requires s.radius != 0.0
    ensures var q := Coefficients(s, ray);
            HitTest(s, ray, tMin, tMax, sqrt).Some? <==>
              0.0 <= q.Discriminant() && q.a != 0.0 &&
              InRange(q.NearRoot(sqrt(q.Discriminant())), tMin, tMax) &&
              InRange(q.FarRoot(sqrt(q.Discriminant())), tMin, tMax)
  {
  }

  /**
   * What a reported hit is: the far root, in range and not before the near
   * root, on the sphere, with the sphere's material and a unit normal facing
   * the ray.
   */
  lemma HitTestHit(s: Sphere, ray: Ray, tMin: real, tMax: UpperBound, sqrt: real -> real)
    requires IsSqrt(sqrt)
    requires s.radius != 0.0
    requires HitTest(s, ray, tMin, tMax, sqrt).Some?
    ensures var q := Coefficients(s, ray);
            var h := HitTest(s, ray, tMin, tMax, sqrt).value;
            var sqrtD := sqrt(q.Discriminant());
            q.a != 0.0 && 0.0 <= q.Discriminant() &&
            h.distance == q.FarRoot(sqrtD) &&
            InRange(h.distance, tMin, tMax) &&
            q.NearRoot(sqrtD) <= h.distance &&
            h.pos == ray.At(h.distance) &&
            h.pos.Sub(s.centre).MagnitudeSquared() == s.radius * s.radius &&
            h.material == s.material &&
            h.normal == (if h.frontFace then h.pos.Sub(s.centre).Div(s.radius)
                         else h.pos.Sub(s.centre).Div(s.radius).Mul(-1.0)) &&
            h.normal.MagnitudeSquared() == 1.0 &&
            ray.dir.Dot(h.normal) <= 0.0 &&
            (h.frontFace <==> ray.dir.Dot(h.pos.Sub(s.centre).Div(s.radius)) < 0.0)
  {
    var q := Coefficients(s, ray);
    var sqrtD := sqrt(q.Discriminant());
    MagnitudeSquaredNonNegative(ray.dir);
    SqrtFacts(sqrt, q.Discriminant());
    RootsOrdered(q, sqrtD);
    FarRootSolves(q, sqrtD);
    OnSphere(s, ray, q.FarRoot(sqrtD));
  }

  /** The quadratic measures the squared distance to the centre minus the squared radius. */
  lemma QuadraticMeasuresDistance(s: Sphere, ray: Ray, t: real)
    ensures ray.At(t).Sub(s.centre).MagnitudeSquared() - s.radius * s.radius == Coefficients(s, ray).Value(t)
  {
    var o := ray.origin.Sub(s.centre);
    var d := ray.dir;
    var p := ray.At(t).Sub(s.centre);
    assert p.x == o.x + d.x * t && p.y == o.y + d.y * t && p.z == o.z + d.z * t;
    ExpandSquaredDistance(p.x, p.y, p.z, o.x, o.y, o.z, d.x, d.y, d.z, t, s.radius * s.radius);
  }

  lemma ExpandSquaredDistance(px: real, py: real, pz: real, ox: real, oy: real, oz: real,
                              dx: real, dy: real, dz: real, t: real, rr: real)
    requires px == ox + dx * t && py == oy + dy * t && pz == oz + dz * t
    ensures px * px + py * py + pz * pz - rr
         == (dx * dx + dy * dy + dz * dz) * t * t + ((ox * dx + oy * dy + oz * dz) + (ox * dx + oy * dy + oz * dz)) * t
            + (ox * ox + oy * oy + oz * oz - rr)
  {
  }

  /** A root of the quadratic is a point of the sphere. */
  lemma OnSphere(s: Sphere, ray: Ray, root: real)
    requires Coefficients(s, ray).Value(root) == 0.0
    ensures ray.At(root).Sub(s.centre).MagnitudeSquared() == s.radius * s.radius
  {
    QuadraticMeasuresDistance(s, ray, root);
  }

  /** A point at distance `r` from the centre, offset from it and divided by `r`, has unit length. */
  lemma OffsetIsUnit(w: Vec3, r: real)
    requires r != 0.0
    requires w.MagnitudeSquared() == r * r
    ensures w.Div(r).MagnitudeSquared() == 1.0
  {
    var u := w.Div(r);
    assert u.Mul(r) == w;
    UnitAfterScaling(u.x, u.y, u.z, w.x, w.y, w.z, r);
  }

  /** Normalising a unit vector leaves it unchanged. */
  lemma NormaliseOfUnit(u: Vec3, sqrt: real -> real)
    requires IsSqrt(sqrt)
    requires u.MagnitudeSquared() == 1.0
    ensures u != Zero
    ensures u.Normalise(sqrt) == u
  {
    assert u != Zero by {
      MagnitudeSquaredZero(u);
    }
    SqrtOfSquare(sqrt, 1.0);
    assert u.Magnitude(sqrt) == 1.0;
  }

  /** The larger root solves the quadratic when `sqrtD` is the discriminant's root. */
  lemma FarRootSolves(q: Quadratic, sqrtD: real)
    requires q.a != 0.0
    requires sqrtD * sqrtD == q.Discriminant()
    ensures q.Value(q.FarRoot(sqrtD)) == 0.0
  {
    RootIdentity(q.a, q.halfB, q.c, sqrtD);
  }

  lemma RootIdentity(a: real, hb: real, c: real, sd: real)
    requires a != 0.0 && sd * sd == hb * hb - a * c
    ensures var t := (-hb + sd) / a; a * t * t + (hb + hb) * t + c == 0.0
  {
  }

  /** With `a > 0` the near root is not beyond the far one. */
  lemma RootsOrdered(q: Quadratic, sqrtD: real)
    requires 0.0 < q.a
    requires 0.0 <= sqrtD
    ensures q.NearRoot(sqrtD) <= q.FarRoot(sqrtD)
  {
    DivideMonotone(-q.halfB - sqrtD, -q.halfB + sqrtD, q.a);
  }

  lemma DivideMonotone(x: real, y: real, a: real)
    requires 0.0 < a && x <= y
    ensures x / a <= y / a
  {
  }
}
