/**
 * The integrator of src/scene.rs: the nearest-hit fold over the scene's
 * spheres, the bounce loop of `cast`, and the per-pixel accumulation loop of
 * `render_to_png`. Every random value is an input: `draw(k)` is the
 * unit-sphere sample used at bounce `k` of one cast, and the jitter and the
 * draws of a sample are indexed by its row, column and sample number.
 */
module Scenes {
  import opened Wrappers
  import opened Roots
  import opened Vectors
  import opened Rays
  import opened Objects
  import opened Cameras

  datatype Scene = Scene(camera: Camera, objects: seq<Sphere>)
  {
    /** Every sphere has a non-zero radius, which `hit_test` divides by. */
    predicate WellFormed()
    {
      AllRadiiNonZero(objects)
    }
  }

  predicate AllRadiiNonZero(objects: seq<Sphere>)
  {
    forall i :: 0 <= i < |objects| ==> objects[i].radius != 0.0
  }

  /*
   * The nearest-hit fold (src/scene.rs:36-58)
   */

  /** One step of the fold: a hit replaces the best so far only when it is strictly nearer. */
  function Better(best: Option<HitResult>, maybeHit: Option<HitResult>): (r: Option<HitResult>)
    ensures r == best || r == maybeHit
    ensures r.None? <==> best.None? && maybeHit.None?
    ensures r.Some? && best.Some? ==> r.value.distance <= best.value.distance
    ensures r.Some? && maybeHit.Some? ==> r.value.distance <= maybeHit.value.distance
    ensures best.Some? && maybeHit.Some? && best.value.distance <= maybeHit.value.distance ==> r == best
  {
    if best.None? then maybeHit
    else if maybeHit.None? then best
    else if maybeHit.value.distance < best.value.distance then maybeHit
    else best
  }

  /** The left fold of `Better` over the hit tests, starting from `None`. */
  function Nearest(hits: seq<Option<HitResult>>): Option<HitResult>
    decreases |hits|
  {
    if hits == [] then None
    else Better(Nearest(hits[..|hits| - 1]), hits[|hits| - 1])
  }

  /** The result of every sphere's `hit_test` on `ray`, with `t_min = 0` and no upper bound. */
  function Tests(objects: seq<Sphere>, ray: Ray, sqrt: real -> real): (hits: seq<Option<HitResult>>)
    requires IsSqrt(sqrt)
    requires AllRadiiNonZero(objects)
    ensures |hits| == |objects|
    ensures forall i :: 0 <= i < |objects| ==> hits[i] == HitTest(objects[i], ray, 0.0, Unbounded, sqrt)
  {
    seq(|objects|, i requires 0 <= i < |objects| => HitTest(objects[i], ray, 0.0, Unbounded, sqrt))
  }

  function NearestHit(objects: seq<Sphere>, ray: Ray, sqrt: real -> real): Option<HitResult>
    requires IsSqrt(sqrt)
    requires AllRadiiNonZero(objects)
  {
    Nearest(Tests(objects, ray, sqrt))
  }

  /** `hits[i]` is a hit no farther than any other, and strictly nearer than every earlier one. */
  ghost predicate IsEarliestNearest(hits: seq<Option<HitResult>>, i: int)
  {
    0 <= i < |hits| && hits[i].Some? &&
    (forall j :: 0 <= j < |hits| && hits[j].Some? ==> hits[i].value.distance <= hits[j].value.distance) &&
    (forall j :: 0 <= j < i && hits[j].Some? ==> hits[i].value.distance < hits[j].value.distance)
  }

  /**
   * The fold finds nothing exactly when every test misses; otherwise it finds
   * a nearest hit, and of several at the same distance the first.
   */
  lemma {:induction false} NearestSpec(hits: seq<Option<HitResult>>)
    ensures Nearest(hits).None? <==> forall i :: 0 <= i < |hits| ==> hits[i].None?
    ensures Nearest(hits).Some? ==> exists i :: IsEarliestNearest(hits, i) && hits[i] == Nearest(hits)
    decreases |hits|
  {
    if hits != [] {
      var n := |hits| - 1;
      var prefix := hits[..n];
      NearestSpec(prefix);
      assert forall j :: 0 <= j < n ==> prefix[j] == hits[j];
      if Nearest(prefix).None? {
        if hits[n].Some? {
          assert IsEarliestNearest(hits, n);
        }
      } else {
        var i :| IsEarliestNearest(prefix, i) && prefix[i] == Nearest(prefix);
        if hits[n].Some? && hits[n].value.distance < Nearest(prefix).value.distance {
          assert IsEarliestNearest(hits, n);
        } else {
          assert IsEarliestNearest(hits, i);
        }
      }
    }
  }

  /** `NearestSpec` for the scene's spheres: the reported hit is one sphere's own `hit_test`. */
  lemma NearestHitSpec(objects: seq<Sphere>, ray: Ray, sqrt: real -> real)
    requires IsSqrt(sqrt)
    requires AllRadiiNonZero(objects)
    ensures NearestHit(objects, ray, sqrt).None? <==>
              forall i :: 0 <= i < |objects| ==> HitTest(objects[i], ray, 0.0, Unbounded, sqrt).None?
    ensures NearestHit(objects, ray, sqrt).Some? ==>
              exists i :: IsEarliestNearest(Tests(objects, ray, sqrt), i) &&
                          HitTest(objects[i], ray, 0.0, Unbounded, sqrt) == NearestHit(objects, ray, sqrt)
  {
    NearestSpec(Tests(objects, ray, sqrt));
  }

  /** A reported hit carries the material of one of the spheres, and a unit normal facing the ray. */
  lemma NearestHitFacts(objects: seq<Sphere>, ray: Ray, sqrt: real -> real)
    requires IsSqrt(sqrt)
    requires AllRadiiNonZero(objects)
    requires NearestHit(objects, ray, sqrt).Some?
    ensures var hit := NearestHit(objects, ray, sqrt).value;
            (exists i :: 0 <= i < |objects| && hit.material == objects[i].material) &&
            hit.normal.MagnitudeSquared() == 1.0 &&
            ray.dir.Dot(hit.normal) <= 0.0 &&
            0.0 <= hit.distance
  {
    NearestHitSpec(objects, ray, sqrt);
    var i :| IsEarliestNearest(Tests(objects, ray, sqrt), i) &&
             HitTest(objects[i], ray, 0.0, Unbounded, sqrt) == NearestHit(objects, ray, sqrt);
    HitTestHit(objects[i], ray, 0.0, Unbounded, sqrt);
  }

  /*
   * The bounce loop of `cast` (src/scene.rs:29-73)
   */

  /** The ray after a hit: from the hit point towards `pos + normal + hemisphere sample`. */
  function NextRay(hit: HitResult, sample: Vec3): (r: Ray)
  {
    Ray(hit.pos, hit.pos.Add(hit.normal).Add(RandomOnHemisphere(sample, hit.normal)))
  }

  /**
   * The new `dir` is a point, not an offset from the hit: measured from the
   * hit point it lies in the normal's hemisphere, at least `|normal|^2` along it.
   */
  lemma NextRayHemisphere(hit: HitResult, sample: Vec3)
    ensures NextRay(hit, sample).origin == hit.pos
    ensures NextRay(hit, sample).dir.Sub(hit.pos).Dot(hit.normal)
         == hit.normal.MagnitudeSquared() + Abs(hit.normal.Dot(sample))
    ensures hit.normal.MagnitudeSquared() <= NextRay(hit, sample).dir.Sub(hit.pos).Dot(hit.normal)
  {
    var d := RandomOnHemisphere(sample, hit.normal);
    var offset := hit.pos.Add(hit.normal).Add(d).Sub(hit.pos);
    assert offset == hit.normal.Add(d);
    DotSymmetric(offset, hit.normal);
    DotSymmetric(d, hit.normal);
    assert hit.normal.Add(d).Dot(hit.normal) == hit.normal.MagnitudeSquared() + d.Dot(hit.normal);
  }

  /** The scene's nearest-hit query, as a function of the ray. */
  function Query(objects: seq<Sphere>, sqrt: real -> real): Ray -> Option<HitResult>
    requires IsSqrt(sqrt)
    requires AllRadiiNonZero(objects)
  {
    ray => NearestHit(objects, ray, sqrt)
  }

  /**
   * The light `cast` returns when its loop state is `ray`, `rayColour` and
   * `light` at bounce `bounce`, with `remaining` bounces left, for a
   * nearest-hit query `nearest`.
   */
  function CastFrom(nearest: Ray -> Option<HitResult>, draw: nat -> Vec3,
                    ray: Ray, rayColour: Vec3, light: Vec3, bounce: nat, remaining: nat): Vec3
    decreases remaining
  {
    if remaining == 0 then light
    else
      match nearest(ray)
      case None => light.Hadamard(Vec3(1.0, 0.0, 0.0))
      case Some(hit) =>
        CastFrom(nearest, draw, NextRay(hit, draw(bounce)),
                 rayColour.Hadamard(hit.material.baseColour),
                 light.Add(hit.material.Emission().Hadamard(rayColour)),
                 bounce + 1, remaining - 1)
  }

  /** What `cast` returns: start with full throughput, no light, and `max_bounces` bounces. */
  function CastSpec(scene: Scene, ray: Ray, draw: nat -> Vec3, sqrt: real -> real): Vec3
    requires IsSqrt(sqrt)
    requires scene.WellFormed()
  {
    CastFrom(Query(scene.objects, sqrt), draw, ray, Ones, Zero, 0, scene.camera.maxBounces)
  }

  /** Whether the path from `ray` misses every sphere within `remaining` bounces. */
  predicate Missed(nearest: Ray -> Option<HitResult>, draw: nat -> Vec3, ray: Ray, bounce: nat, remaining: nat)
    decreases remaining
  {
    remaining > 0 &&
    match nearest(ray)
    case None => true
    case Some(hit) => Missed(nearest, draw, NextRay(hit, draw(bounce)), bounce + 1, remaining - 1)
  }

  /** `cast`: the bounce loop run with the nearest-hit fold over the scene's spheres. */
  method Cast(scene: Scene, ray: Ray, draw: nat -> Vec3, sqrt: real -> real) returns (incomingLight: Vec3)
    requires IsSqrt(sqrt)
    requires scene.WellFormed()
    ensures incomingLight == CastSpec(scene, ray, draw, sqrt)
  {
    incomingLight := Bounces(Query(scene.objects, sqrt), draw, ray, scene.camera.maxBounces);
  }

  /**
   * The loop of src/scene.rs:35-70 for a nearest-hit query `nearest`: at
   * most `maxBounces` bounces, leaving early on the first miss.
   */
  method Bounces(nearest: Ray -> Option<HitResult>, draw: nat -> Vec3, ray: Ray, maxBounces: nat)
    returns (incomingLight: Vec3)
    ensures incomingLight == CastFrom(nearest, draw, ray, Ones, Zero, 0, maxBounces)
  {
    var rayColour := Ones;
    incomingLight := Zero;
    var workingRay := ray;
    var bounce: nat := 0;
    while bounce < maxBounces
      invariant bounce <= maxBounces
      invariant CastFrom(nearest, draw, workingRay, rayColour, incomingLight, bounce, maxBounces - bounce)
             == CastFrom(nearest, draw, ray, Ones, Zero, 0, maxBounces)
    {
      var bestHit := nearest(workingRay);
      if bestHit.Some? {
        var hit := bestHit.value;
        var newBounce := hit.pos.Add(hit.normal).Add(RandomOnHemisphere(draw(bounce), hit.normal));
        workingRay := Ray(hit.pos, newBounce);
        incomingLight := AddAssign(incomingLight, hit.material.Emission().Hadamard(rayColour));
        rayColour := rayColour.Hadamard(hit.material.baseColour);
      } else {
        incomingLight := incomingLight.Hadamard(Vec3(1.0, 0.0, 0.0));
        break;
      }
      bounce := bounce + 1;
    }
  }

  /** With no bounces allowed, or nothing to hit, `cast` returns black. */
  lemma CastOfNothing(scene: Scene, ray: Ray, draw: nat -> Vec3, sqrt: real -> real)
    requires IsSqrt(sqrt)
    requires scene.WellFormed()
    requires scene.camera.maxBounces == 0 || scene.objects == []
    ensures CastSpec(scene, ray, draw, sqrt) == Zero
  {
    if scene.objects == [] {
      NearestHitSpec(scene.objects, ray, sqrt);
    }
  }

  /**
   * Only the first `remaining` draws matter, so the loop makes at most
   * `max_bounces` bounces.
   */
  lemma {:induction false} CastUsesOnlyItsDraws(nearest: Ray -> Option<HitResult>, draw1: nat -> Vec3,
                                                draw2: nat -> Vec3, ray: Ray, rayColour: Vec3, light: Vec3,
                                                bounce: nat, remaining: nat)
    requires forall k :: bounce <= k < bounce + remaining ==> draw1(k) == draw2(k)
    ensures CastFrom(nearest, draw1, ray, rayColour, light, bounce, remaining)
         == CastFrom(nearest, draw2, ray, rayColour, light, bounce, remaining)
    ensures Missed(nearest, draw1, ray, bounce, remaining) == Missed(nearest, draw2, ray, bounce, remaining)
    decreases remaining
  {
    if remaining > 0 {
      match nearest(ray)
      case None =>
      case Some(hit) =>
        assert draw1(bounce) == draw2(bounce);
        CastUsesOnlyItsDraws(nearest, draw1, draw2, NextRay(hit, draw1(bounce)),
                             rayColour.Hadamard(hit.material.baseColour),
                             light.Add(hit.material.Emission().Hadamard(rayColour)),
                             bounce + 1, remaining - 1);
    }
  }

  /** A path that ends in a miss returns only red: the miss multiplies the light by `(1, 0, 0)`. */
  lemma {:induction false} MissKeepsOnlyRed(nearest: Ray -> Option<HitResult>, draw: nat -> Vec3,
                                            ray: Ray, rayColour: Vec3, light: Vec3, bounce: nat, remaining: nat)
    requires Missed(nearest, draw, ray, bounce, remaining)
    ensures CastFrom(nearest, draw, ray, rayColour, light, bounce, remaining).y == 0.0
    ensures CastFrom(nearest, draw, ray, rayColour, light, bounce, remaining).z == 0.0
    decreases remaining
  {
    match nearest(ray)
    case None =>
    case Some(hit) =>
      MissKeepsOnlyRed(nearest, draw, NextRay(hit, draw(bounce)),
                       rayColour.Hadamard(hit.material.baseColour),
                       light.Add(hit.material.Emission().Hadamard(rayColour)),
                       bounce + 1, remaining - 1);
  }

  /** No sphere gives off light: its emission strength or its emission colour is zero. */
  predicate Dark(objects: seq<Sphere>)
  {
    forall i :: 0 <= i < |objects| ==>
      objects[i].material.emissionStrength == 0.0 || objects[i].material.emissionColour == Zero
  }

  /** No hit `nearest` reports emits light. */
  ghost predicate EmitsNothing(nearest: Ray -> Option<HitResult>)
  {
    forall ray :: nearest(ray).Some? ==> nearest(ray).value.material.Emission() == Zero
  }

  lemma DarkQuery(objects: seq<Sphere>, sqrt: real -> real)
    requires IsSqrt(sqrt)
    requires AllRadiiNonZero(objects)
    requires Dark(objects)
    ensures EmitsNothing(Query(objects, sqrt))
  {
    forall ray | Query(objects, sqrt)(ray).Some?
      ensures Query(objects, sqrt)(ray).value.material.Emission() == Zero
    {
      NearestHitMaterial(objects, ray, sqrt);
      var i :| 0 <= i < |objects| && NearestHit(objects, ray, sqrt).value.material == objects[i].material;
      DarkEmission(objects[i].material);
    }
  }

  lemma NearestHitMaterial(objects: seq<Sphere>, ray: Ray, sqrt: real -> real)
    requires IsSqrt(sqrt)
    requires AllRadiiNonZero(objects)
    requires NearestHit(objects, ray, sqrt).Some?
    ensures exists i :: 0 <= i < |objects| && NearestHit(objects, ray, sqrt).value.material == objects[i].material
  {
    NearestHitFacts(objects, ray, sqrt);
  }

  /** When nothing emits, the light never grows: `cast` returns its start value, or that filtered to red. */
  lemma {:induction false} DarkCastFrom(nearest: Ray -> Option<HitResult>, draw: nat -> Vec3,
                                        ray: Ray, rayColour: Vec3, light: Vec3, bounce: nat, remaining: nat)
    requires EmitsNothing(nearest)
    ensures var r := CastFrom(nearest, draw, ray, rayColour, light, bounce, remaining);
            r == light || r == Vec3(light.x, 0.0, 0.0)
    decreases remaining
  {
    if remaining > 0 && nearest(ray).None? {
      MissFilter(light);
    } else if remaining > 0 {
      var hit := nearest(ray).value;
      assert light.Add(hit.material.Emission().Hadamard(rayColour)) == light;
      DarkCastFrom(nearest, draw, NextRay(hit, draw(bounce)), rayColour.Hadamard(hit.material.baseColour),
                   light, bounce + 1, remaining - 1);
    }
  }

  /** The miss filter `(1, 0, 0)` keeps red and clears green and blue. */
  lemma MissFilter(v: Vec3)
    ensures v.Hadamard(Vec3(1.0, 0.0, 0.0)) == Vec3(v.x, 0.0, 0.0)
  {
  }

  lemma DarkEmission(m: Material)
    requires m.emissionStrength == 0.0 || m.emissionColour == Zero
    ensures m.Emission() == Zero
  {
  }

  /** Without emitters every cast is black. */
  lemma DarkCast(scene: Scene, ray: Ray, draw: nat -> Vec3, sqrt: real -> real)
    requires IsSqrt(sqrt)
    requires scene.WellFormed()
    requires Dark(scene.objects)
    ensures CastSpec(scene, ray, draw, sqrt) == Zero
  {
    DarkQuery(scene.objects, sqrt);
    DarkCastFrom(Query(scene.objects, sqrt), draw, ray, Ones, Zero, 0, scene.camera.maxBounces);
  }

  predicate InUnitCube(v: Vec3)
  {
    0.0 <= v.x <= 1.0 && 0.0 <= v.y <= 1.0 && 0.0 <= v.z <= 1.0
  }

  predicate NonNegative(v: Vec3)
  {
    0.0 <= v.x && 0.0 <= v.y && 0.0 <= v.z
  }

  /** `a` is componentwise at least `b`. */
  predicate AtLeast(a: Vec3, b: Vec3)
  {
    b.x <= a.x && b.y <= a.y && b.z <= a.z
  }

  /** Surface colours are in `[0, 1]` and emissions are non-negative. */
  predicate Physical(objects: seq<Sphere>)
  {
    forall i :: 0 <= i < |objects| ==>
      InUnitCube(objects[i].material.baseColour) && NonNegative(objects[i].material.Emission())
  }

  /** Every hit `nearest` reports has a surface colour in `[0, 1]` and a non-negative emission. */
  ghost predicate PhysicalHits(nearest: Ray -> Option<HitResult>)
  {
    forall ray :: nearest(ray).Some? ==>
      InUnitCube(nearest(ray).value.material.baseColour) && NonNegative(nearest(ray).value.material.Emission())
  }

  lemma PhysicalQuery(objects: seq<Sphere>, sqrt: real -> real)
    requires IsSqrt(sqrt)
    requires AllRadiiNonZero(objects)
    requires Physical(objects)
    ensures PhysicalHits(Query(objects, sqrt))
  {
    forall ray | Query(objects, sqrt)(ray).Some?
      ensures InUnitCube(Query(objects, sqrt)(ray).value.material.baseColour)
      ensures NonNegative(Query(objects, sqrt)(ray).value.material.Emission())
    {
      NearestHitMaterial(objects, ray, sqrt);
    }
  }

  /** One hit step keeps the throughput in `[0, 1]` and never lowers the light. */
  lemma HitStepBounds(rayColour: Vec3, light: Vec3, m: Material)
    requires InUnitCube(rayColour) && NonNegative(light)
    requires InUnitCube(m.baseColour) && NonNegative(m.Emission())
    ensures InUnitCube(rayColour.Hadamard(m.baseColour))
    ensures AtLeast(light.Add(m.Emission().Hadamard(rayColour)), light)
    ensures NonNegative(light.Add(m.Emission().Hadamard(rayColour)))
  {
    var e := m.Emission();
    UnitProduct(rayColour.x, m.baseColour.x);
    UnitProduct(rayColour.y, m.baseColour.y);
    UnitProduct(rayColour.z, m.baseColour.z);
    ProductNonNegative(e.x, rayColour.x);
    ProductNonNegative(e.y, rayColour.y);
    ProductNonNegative(e.z, rayColour.z);
  }

  lemma UnitProduct(a: real, b: real)
    requires 0.0 <= a <= 1.0 && 0.0 <= b <= 1.0
    ensures 0.0 <= a * b <= 1.0
  {
    var c := 1.0 - b;
    ProductNonNegative(a, c);
    assert a * b == a - a * c;
  }

  lemma ProductNonNegative(a: real, b: real)
    requires 0.0 <= a && 0.0 <= b
    ensures 0.0 <= a * b
  {
    MulMonotone(a, 0.0, b);
  }

  /**
   * With physical materials the returned light is non-negative, its red
   * channel never below the starting light, and without a miss no channel is.
   */
  lemma {:induction false} CastFromBounds(nearest: Ray -> Option<HitResult>, draw: nat -> Vec3,
                                          ray: Ray, rayColour: Vec3, light: Vec3, bounce: nat, remaining: nat)
    requires PhysicalHits(nearest)
    requires InUnitCube(rayColour) && NonNegative(light)
    ensures var r := CastFrom(nearest, draw, ray, rayColour, light, bounce, remaining);
            NonNegative(r) && light.x <= r.x &&
            (!Missed(nearest, draw, ray, bounce, remaining) ==> AtLeast(r, light))
    decreases remaining
  {
    if remaining > 0 {
      match nearest(ray)
      case None =>
      case Some(hit) =>
        HitStepBounds(rayColour, light, hit.material);
        CastFromBounds(nearest, draw, NextRay(hit, draw(bounce)),
                       rayColour.Hadamard(hit.material.baseColour),
                       light.Add(hit.material.Emission().Hadamard(rayColour)),
                       bounce + 1, remaining - 1);
    }
  }

  /** With physical materials every cast returns non-negative light. */
  lemma CastNonNegative(scene: Scene, ray: Ray, draw: nat -> Vec3, sqrt: real -> real)
    requires IsSqrt(sqrt)
    requires scene.WellFormed()
    requires Physical(scene.objects)
    ensures NonNegative(CastSpec(scene, ray, draw, sqrt))
  {
    PhysicalQuery(scene.objects, sqrt);
    CastFromBounds(Query(scene.objects, sqrt), draw, ray, Ones, Zero, 0, scene.camera.maxBounces);
  }

  /*
   * The accumulation loop of `render_to_png` (src/scene.rs:79-97)
   */

  /**
   * The viewport coordinates of a sample of pixel `(x, y)` with jitter
   * `(ru, rv)`. Row `y` counts down from the top, and `height - y` is at
   * least 1, so `v` lies in `[(height - y) / height, (height - y + 1) / height)`.
   */
  function SampleCoords(c: Camera, y: nat, x: nat, ru: real, rv: real): (uv: (real, real))
    requires y < c.imageHeight && x < c.imageWidth
    ensures 1 <= c.imageHeight - y
    ensures 0.0 <= ru < 1.0 ==>
              (x as real) / (c.imageWidth as real) <= uv.0 < ((x + 1) as real) / (c.imageWidth as real)
    ensures 0.0 <= rv < 1.0 ==>
              ((c.imageHeight - y) as real) / (c.imageHeight as real) <= uv.1 &&
              uv.1 < ((c.imageHeight - y + 1) as real) / (c.imageHeight as real)
  {
    JitterBounds(x as real, ru, c.imageWidth as real);
    JitterBounds((c.imageHeight - y) as real, rv, c.imageHeight as real);
    ((x as real + ru) / (c.imageWidth as real), ((c.imageHeight - y) as real + rv) / (c.imageHeight as real))
  }

  /** An offset in `[0, 1)` added to `k` keeps `(k + r) / n` in `[k / n, (k + 1) / n)`. */
  lemma JitterBounds(k: real, r: real, n: real)
    requires 0.0 < n
    ensures 0.0 <= r < 1.0 ==> k / n <= (k + r) / n < (k + 1.0) / n
  {
    if 0.0 <= r < 1.0 {
      DivideMonotone(k, k + r, n);
      DivideStrictlyMonotone(k + r, k + 1.0, n);
    }
  }

  lemma DivideStrictlyMonotone(x: real, y: real, a: real)
    requires 0.0 < a && x < y
    ensures x / a < y / a
  {
    assert y / a - x / a == (y - x) / a;
    ProductPositive(y - x, 1.0 / a);
  }

  /** The light of sample `s` of pixel `(x, y)`, for a nearest-hit query `nearest`. */
  function Sample(c: Camera, nearest: Ray -> Option<HitResult>, jitter: (nat, nat, nat) -> (real, real),
                  draws: (nat, nat, nat) -> (nat -> Vec3), y: nat, x: nat, s: nat): Vec3
    requires y < c.imageHeight && x < c.imageWidth
  {
    var (ru, rv) := jitter(y, x, s);
    var (u, v) := SampleCoords(c, y, x, ru, rv);
    CastFrom(nearest, draws(y, x, s), c.GetRay(u, v), Ones, Zero, 0, c.maxBounces)
  }

  /** The sum, in sample order, of the first `n` samples of pixel `(x, y)`. */
  function PixelSum(c: Camera, nearest: Ray -> Option<HitResult>, jitter: (nat, nat, nat) -> (real, real),
                    draws: (nat, nat, nat) -> (nat -> Vec3), y: nat, x: nat, n: nat): Vec3
    requires y < c.imageHeight && x < c.imageWidth
  {
    if n == 0 then Zero
    else PixelSum(c, nearest, jitter, draws, y, x, n - 1).Add(Sample(c, nearest, jitter, draws, y, x, n - 1))
  }

  /** With physical materials every pixel sum is non-negative and grows with each sample. */
  lemma {:induction false} PixelSumGrows(c: Camera, nearest: Ray -> Option<HitResult>,
                                         jitter: (nat, nat, nat) -> (real, real),
                                         draws: (nat, nat, nat) -> (nat -> Vec3), y: nat, x: nat, n: nat)
    requires y < c.imageHeight && x < c.imageWidth
    requires PhysicalHits(nearest)
    ensures NonNegative(PixelSum(c, nearest, jitter, draws, y, x, n))
    ensures AtLeast(PixelSum(c, nearest, jitter, draws, y, x, n + 1), PixelSum(c, nearest, jitter, draws, y, x, n))
  {
    if n > 0 {
      PixelSumGrows(c, nearest, jitter, draws, y, x, n - 1);
    }
    var (ru, rv) := jitter(y, x, n);
    var (u, v) := SampleCoords(c, y, x, ru, rv);
    CastFromBounds(nearest, draws(y, x, n), c.GetRay(u, v), Ones, Zero, 0, c.maxBounces);
  }

  /**
   * The loops of src/scene.rs:79-97: a `height` by `width` grid of zeros, and
   * for every pixel `samples_per_pixel` casts added into its cell.
   */
  method Render(scene: Scene, jitter: (nat, nat, nat) -> (real, real), draws: (nat, nat, nat) -> (nat -> Vec3),
                sqrt: real -> real) returns (colours: array2<Vec3>)
    requires IsSqrt(sqrt)
    requires scene.WellFormed()
    ensures fresh(colours)
    ensures colours.Length0 == scene.camera.imageHeight && colours.Length1 == scene.camera.imageWidth
    ensures forall y, x :: 0 <= y < colours.Length0 && 0 <= x < colours.Length1 ==>
              colours[y, x] == PixelSum(scene.camera, Query(scene.objects, sqrt), jitter, draws, y, x, scene.camera.samplesPerPixel)
  {
    var width := scene.camera.imageWidth;
    var height := scene.camera.imageHeight;
    var spp := scene.camera.samplesPerPixel;
    colours := new Vec3[height, width]((_, _) => Zero);
    var y := 0;
    while y < height
      invariant 0 <= y <= height
      invariant forall i, j :: 0 <= i < height && 0 <= j < width ==>
                  colours[i, j] == (if i < y then PixelSum(scene.camera, Query(scene.objects, sqrt), jitter, draws, i, j, spp) else Zero)
    {
      var x := 0;
      while x < width
        invariant 0 <= x <= width
        invariant forall i, j :: 0 <= i < height && 0 <= j < width ==>
                    colours[i, j] == (if i < y || (i == y && j < x) then PixelSum(scene.camera, Query(scene.objects, sqrt), jitter, draws, i, j, spp)
                                      else Zero)
      {
        var s := 0;
        while s < spp
          invariant 0 <= s <= spp
          invariant forall i, j :: 0 <= i < height && 0 <= j < width ==>
                      colours[i, j] == (if i < y || (i == y && j < x) then PixelSum(scene.camera, Query(scene.objects, sqrt), jitter, draws, i, j, spp)
                                        else if i == y && j == x then PixelSum(scene.camera, Query(scene.objects, sqrt), jitter, draws, i, j, s)
                                        else Zero)
        {
          var rawCastResult := CastSample(scene, jitter, draws, sqrt, y, x, s);
          colours[y, x] := AddAssign(colours[y, x], rawCastResult);
          s := s + 1;
        }
        x := x + 1;
      }
      y := y + 1;
    }
  }

  /**
   * The body of the sample loop, src/scene.rs:86-95: jitter the pixel's
   * coordinates, take the camera ray through them and cast it.
   */
  method CastSample(scene: Scene, jitter: (nat, nat, nat) -> (real, real), draws: (nat, nat, nat) -> (nat -> Vec3),
                    sqrt: real -> real, y: nat, x: nat, s: nat) returns (rawCastResult: Vec3)
    requires IsSqrt(sqrt)
    requires scene.WellFormed()
    requires y < scene.camera.imageHeight && x < scene.camera.imageWidth
    ensures rawCastResult == Sample(scene.camera, Query(scene.objects, sqrt), jitter, draws, y, x, s)
  {
    var (randUOffset, randVOffset) := jitter(y, x, s);
    var (u, v) := SampleCoords(scene.camera, y, x, randUOffset, randVOffset);
    var ray := scene.camera.GetRay(u, v);
    rawCastResult := Cast(scene, ray, draws(y, x, s), sqrt);
  }
}
