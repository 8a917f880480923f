# selox path tracer: a Dafny model of the light-transport kernel

selox is a small Rust path tracer. A pinhole camera shoots jittered rays
through every pixel. Each ray bounces off spheres with diffuse, possibly
emissive materials for at most `max_bounces` bounces. Emitted light is
weighted by the reflectance gathered along the path. The per-pixel sum
of `samples_per_pixel` casts is turned into an 8-bit colour by averaging,
a square-root gamma, clamping and flooring.

This project models the kernel of that program in Dafny and proves what
the code guarantees:

- `vec3.dfy` (module `Vectors`): the vector algebra of `src/vec3.rs`.
  - arithmetic, dot, cross and Hadamard products, normalisation;
  - the radiance-to-colour conversion;
  - the sign flip that moves a sampled direction into a normal's hemisphere;
  - the compound assignments.
- `ray.dfy` (module `Rays`): a ray with `at(t) = origin + dir * t`.
  `src/ray.rs` is not part of this model. The type is the one its uses in
  `src/objects.rs` and `src/camera.rs` need.
- `objects.dfy` (module `Objects`): the geometry of `src/objects.rs`.
  - the two material constructors;
  - front-face orientation of a hit normal;
  - the sphere/ray intersection, with its root-selection rule exactly as the
    code has it.
- `camera.dfy` (module `Cameras`): `src/camera.rs`. This covers the camera
  built by `Camera::new`, the viewport vectors, and the closed form of the
  ray through viewport coordinates `(u, v)`.
- `scene.dfy` (module `Scenes`): `src/scene.rs`.
  - the nearest-hit fold over the spheres;
  - the bounce loop of `cast`, an imperative method proved against a
    recursive specification;
  - the accumulation loops of `render_to_png`, an imperative method filling
    an `array2`.
- `roots.dfy` (module `Roots`): the square root. `wrappers.dfy` (module
  `Wrappers`): Rust's `Option`.

## Modelling decisions

- **Numbers.** `f64` is modelled as `real`. Where `f64` would produce NaN or
  an infinity, the model either excludes the case or states what the code
  then returns:
  - dividing a vector by zero is excluded;
  - normalising `ZERO` is excluded;
  - a ray with a zero direction counts as a miss;
  - a negative channel in `to_colour` gives 0;
  - `samples_per_pixel == 0` saturates.
- **Square root.** `f64::sqrt` is a parameter `sqrt: real -> real`
  constrained by `Roots.IsSqrt`: on non-negative arguments it is
  non-negative and squares back to its argument. Uniqueness and
  monotonicity are proved from that, not assumed.
- **Randomness.** `ThreadRng` is replaced by its draws, passed in as data.
  - In `cast`, `draw(k)` is the unit-sphere direction sampled at bounce `k`.
  - In the render loops, `jitter(y, x, s)` gives the two offsets of sample
    `s` of pixel `(x, y)`.
  - In the render loops, `draws(y, x, s)` gives the directions that sample's
    cast uses.
- **Nearest-hit query.** The fold at `src/scene.rs:36-58` is the pure
  function `Scenes.NearestHit`. The bounce loop and its lemmas take the
  nearest-hit query as a function `nearest: Ray -> Option<HitResult>`.
  `Scenes.Cast` instantiates it with `Scenes.Query(objects, sqrt)`, that
  fold over the scene's spheres. Lemmas such as `Scenes.PhysicalQuery` and
  `Scenes.DarkQuery` carry the facts about the spheres over to the query.
- **Infinity.** `f64::INFINITY` as the upper distance bound is
  `Objects.Unbounded`.

Three behaviours of the code differ from what its comments or a natural
reading suggest. The model follows the code in each case:

1. **Root selection** (`src/objects.rs:73-83`). The comment at line 75 says
   the nearest root is used. The code returns `None` when the smaller root
   is out of range; otherwise it returns the *larger* root, and only if that
   one is in range too. A reported hit is therefore the far side of the
   sphere, and a ray starting inside a sphere never hits it
   (`Objects.HitTestHitsIff`, `Objects.HitTestHit`).
2. **Bounce direction** (`src/scene.rs:61-62`). The new direction is
   `hit.pos + hit.normal + sample`, a point, stored as a direction. Measured
   from the hit point it lies in the normal's hemisphere
   (`Scenes.NextRayHemisphere`).
3. **Miss** (`src/scene.rs:66-69`). A miss does not just end the loop. It
   also multiplies the accumulated light by `(1, 0, 0)`, which clears green
   and blue (`Scenes.MissKeepsOnlyRed`).

Two more quirks of the code are modelled as written:

- `horizontal()` and `vertical()` include the camera position. This adds
  `pos * (u + v - 1)` to every direction (`Cameras.Camera.GetRay`).
- `v = (height - y + r_v) / height` ranges over `[1/height, 1 + 1/height)`.
  The sampled rows are thus shifted up by one row from the viewport
  (`Scenes.SampleCoords`).

## Model

| member | source | states |
|---|---|---|
| Roots.SqrtUnique | src/vec3.rs:24-26 | the root `sqrt` returns is the unique non-negative `y` with `y * y == x` |
| Roots.SqrtZeroIff | src/vec3.rs:57-60 | the root of a non-negative `x` is zero exactly when `x` is zero |
| Roots.SqrtOfSquare | src/vec3.rs:24-26 | `sqrt(y * y) == y` for every non-negative `y` |
| Roots.SqrtPositive | src/vec3.rs:24-26 | a positive argument has a positive root |
| Roots.SqrtMonotone | src/vec3.rs:57-60 | the square root is monotone on non-negative arguments |
| Vectors.Vec3.Add | src/vec3.rs:92-97 | subtracting `rhs` from `self + rhs` gives back `self` |
| Vectors.Vec3.Sub | src/vec3.rs:105-110 | adding `rhs` back to `self - rhs`, component by component, gives back `self` |
| Vectors.Vec3.Div | src/vec3.rs:131-136 | for `s != 0`, multiplying `self / s` by `s` gives back `self`; division by zero is excluded |
| Vectors.Vec3.Magnitude | src/vec3.rs:24-26 | the magnitude squares to `magnitude_squared` |
| Vectors.Vec3.Normalise | src/vec3.rs:32-34 | for a non-zero vector, the normalised vector times the magnitude is the vector |
| Vectors.MagnitudeSquaredNonNegative | src/vec3.rs:28-30 | `magnitude_squared` is never negative |
| Vectors.MagnitudeSquaredZero | src/vec3.rs:28-30 | `magnitude_squared` is zero exactly for `ZERO` (both directions) |
| Vectors.MagnitudeSquaredPositive | src/vec3.rs:28-30 | every non-zero vector has a positive `magnitude_squared` |
| Vectors.MagnitudeNonNegative | src/vec3.rs:24-26 | `magnitude` is never negative |
| Vectors.MagnitudeNonZero | src/vec3.rs:24-26 | a non-zero vector has a non-zero magnitude, so `normalise` never divides by zero |
| Vectors.NormaliseUnit | src/vec3.rs:24-34 | for `v != ZERO`, `magnitude_squared(normalise(v)) == 1` |
| Vectors.Vec3.Cross | src/vec3.rs:40-46 | the cross product is orthogonal to both of its factors |
| Vectors.DotSymmetric | src/vec3.rs:36-38 | `dot(a, b) == dot(b, a)` |
| Vectors.DotScale | src/vec3.rs:36-38 | `dot(a, b * s) == s * dot(a, b)` |
| Vectors.CrossAntiSymmetric | src/vec3.rs:40-46 | `cross(a, b) == cross(b, a) * -1` |
| Vectors.CrossOrthogonal | src/vec3.rs:40-46 | `cross(a, b)` is orthogonal to both `a` and `b` |
| Vectors.HadamardLaws | src/vec3.rs:48-50 | Hadamard is commutative and componentwise; `ONES` is its unit and `ZERO` absorbs it |
| Vectors.NegateKeepsLength | src/vec3.rs:118-123 | `v * -1` has the length of `v` |
| Vectors.AddSubCancel | src/vec3.rs:92-110 | `(a + b) - b == a` |
| Vectors.MulDivCancel | src/vec3.rs:118-136 | `(v * s) / s == v` for `s != 0` |
| Vectors.AddAssign | src/vec3.rs:99-103 | `+=` leaves the value of `self + rhs`, from which subtracting `rhs` recovers the old value |
| Vectors.SubAssign | src/vec3.rs:112-116 | `-=` leaves the value of `self - rhs`, to which adding `rhs` recovers the old value |
| Vectors.MulAssign | src/vec3.rs:125-129 | `*=` leaves the value of `self * rhs`, which for `rhs != 0` divides back to the old value |
| Vectors.DivAssign | src/vec3.rs:138-142 | `/=` leaves the value of `self / rhs`, which multiplies back to the old value |
| Vectors.Clamp | src/vec3.rs:58-60 | the clamped value lies in `[lo, hi]` and equals the input when the input already does |
| Vectors.Gamma | src/vec3.rs:58-60 | the gamma-corrected channel lies in `[0, 1 - EPSILON]` and is 0 for a zero input; up to `(1 - EPSILON)^2` it is the square root (it squares back to its argument), above that the clamp holds it at `1 - EPSILON` |
| Vectors.Quantise | src/vec3.rs:62-64 | the byte is the floor of `256 * g`, so it lies in 0..255 |
| Vectors.ScaledByte | src/vec3.rs:57-64 | a non-positive scaled channel gives 0; a non-negative one gives the floor of `256 * gamma` |
| Vectors.ChannelByte | src/vec3.rs:52-67 | a non-positive channel gives 0; with at least one sample, a non-negative channel `c` gives the floor of `256 * gamma(c / samples_per_pixel)`; with zero samples the scale is `+inf`, so the byte is 255 exactly when the channel is positive |
| Vectors.ClampMonotone | src/vec3.rs:58-60 | clamping is monotone |
| Vectors.GammaMonotone | src/vec3.rs:58-60 | gamma correction is monotone |
| Vectors.QuantiseMonotone | src/vec3.rs:62-64 | quantising is monotone |
| Vectors.ScaledByteMonotone | src/vec3.rs:57-64 | the byte of a scaled channel is monotone in it |
| Vectors.ChannelByteMonotone | src/vec3.rs:52-67 | each output byte of `to_colour` is monotone in its input channel, for every sample count |
| Vectors.Vec3.ToColour | src/vec3.rs:52-67 | per channel: a non-positive channel gives 0; with at least one sample a non-negative channel gives the floor of `256 * gamma(channel / samples_per_pixel)`; with zero samples a channel gives 255 exactly when it is positive |
| Vectors.ToColourMonotone | src/vec3.rs:52-67 | componentwise brighter radiance gives a componentwise brighter colour |
| Vectors.ToColourOfZero | src/vec3.rs:52-67 | zero radiance maps to black |
| Vectors.Signum | src/vec3.rs:86-89 | `signum` is `1` or `-1` and `v * signum(v) >= 0`, so multiplying by it never makes a value negative; `signum(0) == 1` |
| Vectors.RandomInUnitSphere | src/vec3.rs:77-84 | the normalised deviates have unit length and are a positive multiple of the deviates |
| Vectors.RandomOnHemisphere | src/vec3.rs:86-89 | the result is the draw or its negation, with unchanged length, and `dot(normal, result) == abs(dot(normal, draw)) >= 0` |
| Rays.Ray.At | src/objects.rs:87-88 | `at(t) - origin == dir * t` |
| Objects.WithColour | src/objects.rs:12-14 | base colour `base`, emission colour `ZERO`, strength 0, so no emission |
| Objects.WhiteLamp | src/objects.rs:16-18 | base colour `ZERO`, emission colour `ONES`, strength 1, so the emission is `ONES` |
| Objects.HitResult.SetFaceNormal | src/objects.rs:33-40 | `front_face` holds exactly when `dot(ray.dir, outward) < 0`; the normal is `outward` or its negation with `dot(ray.dir, normal) <= 0` and the same length; position, distance and material are unchanged |
| Objects.HitTestMissesOnNegativeDiscriminant | src/objects.rs:66-69 | a negative discriminant gives `None` |
| Objects.HitTestHitsIff | src/objects.rs:60-83 | `Some` exactly when the discriminant is non-negative, `a != 0`, and both the smaller and the larger root lie in `[t_min, t_max]` |
| Objects.HitTestHit | src/objects.rs:60-95 | a hit reports the larger root, in range and not before the smaller one, at `ray.at(distance)` on the sphere, with the sphere's material, the normal `(pos - centre) / radius` when `front_face` and its negation otherwise, a unit normal facing the ray, and `front_face` as `set_face_normal` sets it |
| Objects.HitAt | src/objects.rs:85-93 | the record for a point of the sphere has that distance and position, the sphere's material, the normal `(pos - centre) / radius` or its negation as `front_face` says, of unit length and with `dot(ray.dir, normal) <= 0` |
| Objects.QuadraticMeasuresDistance | src/objects.rs:61-64 | `a t^2 + 2 half_b t + c` is the squared distance from `ray.at(t)` to the centre minus the squared radius |
| Objects.OnSphere | src/objects.rs:61-88 | a root of the quadratic is a point of the sphere |
| Objects.OffsetIsUnit | src/objects.rs:88 | the offset from the centre to a point of the sphere, divided by the radius, has unit length |
| Objects.NormaliseOfUnit | src/objects.rs:88 | normalising a unit vector leaves it unchanged, so the reported normal is the outward offset over the radius |
| Objects.FarRootSolves | src/objects.rs:79 | the larger root solves the quadratic |
| Objects.RootsOrdered | src/objects.rs:73-79 | with `a > 0` the smaller root is not beyond the larger one |
| Cameras.Camera.Horizontal | src/camera.rs:33-35 | `horizontal() == pos + (viewport_width, 0, 0)` |
| Cameras.Camera.Vertical | src/camera.rs:36-38 | `vertical() == pos + (0, viewport_height, 0)` |
| Cameras.Camera.LowerLeftCorner | src/camera.rs:39-41 | the corner is `(-w/2, -h/2, -focal_length)`, independent of the position |
| Cameras.Camera.GetRay | src/camera.rs:43-48 | the ray leaves from `pos` with direction `pos * (u + v - 1) + (w (u - 1/2), h (v - 1/2), -focal_length)` |
| Cameras.ViewportDirection | src/camera.rs:46 | the expanded components of `corner + horizontal * u + vertical * v - pos` collect into that closed form |
| Cameras.New | src/camera.rs:14-31 | position `ZERO`, focal length 1, viewport 16/9 by 1, 800 by 450 pixels (450 is the floor of 800 / (16/9)), 4 samples, 4 bounces |
| Cameras.GetRayOrigin | src/camera.rs:43-46 | every ray leaves from the camera position |
| Cameras.CentreRay | src/camera.rs:39-47 | the ray through `(0.5, 0.5)` has direction `(0, 0, -focal_length)` wherever the camera is |
| Cameras.GetRayAffine | src/camera.rs:46 | `dir(u, v) == dir(0, 0) + horizontal() * u + vertical() * v` |
| Scenes.Better | src/scene.rs:39-58 | one fold step returns one of its two arguments, `None` only when both are, a hit no farther than either, and keeps the hit so far on a tie |
| Scenes.NearestSpec | src/scene.rs:36-58 | the fold gives `None` exactly when every test misses; otherwise it gives a hit no farther than any other and strictly nearer than every earlier one, so ties go to the first sphere |
| Scenes.NearestHitSpec | src/scene.rs:36-58 | the same for the scene's spheres: the reported hit is the earliest nearest sphere's own `hit_test` result |
| Scenes.NearestHitFacts | src/scene.rs:36-58 | a reported hit has a sphere's material, a unit normal facing the ray and a non-negative distance |
| Scenes.NearestHitMaterial | src/scene.rs:36-58 | a reported hit carries the material of one of the spheres |
| Scenes.NextRayHemisphere | src/scene.rs:61-62 | the next ray starts at the hit, and its direction measured from the hit is `normal + sample'` with `dot >= |normal|^2` |
| Scenes.Cast | src/scene.rs:29-73 | `cast` returns the light the bounce specification gives for the scene's nearest-hit fold |
| Scenes.Bounces | src/scene.rs:35-70 | the loop with its early exit returns `CastFrom` of the initial state: throughput `ONES`, light `ZERO`, `max_bounces` bounces |
| Scenes.CastOfNothing | src/scene.rs:29-35 | with `max_bounces == 0` or no spheres the result is `ZERO` |
| Scenes.CastUsesOnlyItsDraws | src/scene.rs:35-62 | the result depends only on the first `max_bounces` draws, so at most that many bounces happen |
| Scenes.MissKeepsOnlyRed | src/scene.rs:66-69 | a path that ends in a miss returns zero green and blue |
| Scenes.MissFilter | src/scene.rs:67 | the miss filter `(1, 0, 0)` keeps red and clears green and blue |
| Scenes.DarkEmission | src/scene.rs:64 | zero emission strength or a `ZERO` emission colour emits nothing |
| Scenes.DarkQuery | src/scene.rs:36-58 | when no sphere emits, no hit the fold reports emits |
| Scenes.DarkCastFrom | src/scene.rs:60-69 | when nothing emits, the light stays at its start value, or that value filtered to red |
| Scenes.DarkCast | src/scene.rs:29-73 | without emitters every cast returns `ZERO` |
| Scenes.PhysicalQuery | src/scene.rs:36-58 | when every sphere has base colours in `[0, 1]` and a non-negative emission, so does every hit the fold reports |
| Scenes.HitStepBounds | src/scene.rs:64-65 | one hit keeps the throughput in `[0, 1]` and the light non-negative and not lower |
| Scenes.CastFromBounds | src/scene.rs:29-73 | with physical materials the result is non-negative with red not below the starting light, and without a miss no channel is below it |
| Scenes.CastNonNegative | src/scene.rs:29-73 | with physical materials every cast returns non-negative light |
| Scenes.SampleCoords | src/scene.rs:89-90 | `height - y >= 1`; with offsets in `[0, 1)`, `u` lies in `[x/width, (x+1)/width)` and `v` in `[(height-y)/height, (height-y+1)/height)` |
| Scenes.PixelSumGrows | src/scene.rs:85-96 | with physical materials each pixel's running sum is non-negative and never decreases sample by sample |
| Scenes.CastSample | src/scene.rs:86-95 | one sample's cast, through the jittered coordinates and the camera ray, is the `Sample` that `PixelSum` adds up |
| Scenes.Render | src/scene.rs:79-97 | a fresh `height` by `width` grid whose every cell is the sum, in sample order, of exactly `samples_per_pixel` casts through that pixel's jittered coordinates |

## Left out

- `random_normal_dist`, `random_range`, `random_unit` and `ThreadRng`
  (`src/vec3.rs:4-9, 69-75`) are left out: they are stochastic and use
  logarithms and cosines. Their draws are inputs to the model:
  - the three normal deviates of `random_in_unit_sphere`;
  - the unit-sphere direction of `random_on_hemisphere`;
  - the jitter offsets of `render_to_png`.
- Vectors.RandomOnHemisphere: takes the unit-sphere draw as an input rather
  than drawing it. It does not model that one `ThreadRng` is shared by
  every sample of a render.
- Floating point is left out. The model uses reals.
  - Rounding, NaN, infinities and negative zero are not modelled.
  - `f64::EPSILON` is the exact value 2^-52.
  - A zero-direction ray counts as a miss. In `f64` both roots would be
    `0 / 0`, a NaN. No range comparison rejects a NaN, so the code would
    report a hit at a NaN distance.
- Vectors.Signum: has no negative zero, so `signum(0) == 1`.
- Vectors.RandomInUnitSphere: requires non-zero deviates. Three normal
  deviates that are all exactly zero have probability zero, and `f64`
  would return NaN for them.
- Vectors.Quantise: the saturating `as u8` cast is not modelled for
  out-of-range values. The clamp keeps the value in `0..255`.
- Vectors.ChannelByte: for a negative channel, Rust takes the square root
  of a negative number and gets NaN, then clamps it and converts it to 0.
  The model skips those steps and returns 0 directly.
- Cameras.New: `u32` and `u8` widths are not modelled. Resolution, sample
  count and bounce count are `nat`, and `as u32` of the non-negative
  `800 / (16/9)` is its floor.
- Objects.HitResult.SetFaceNormal: modelled on values. It returns the
  updated record, because `HitResult` is a `Copy` value with no other owner.
  The `*Assign` methods likewise return the value they write into `*self`.
- The `Renderable` trait and `Box<dyn Renderable>` list are modelled as a
  sequence of spheres, its only implementation. Radii must be non-zero
  (`Scenes.Scene.WellFormed`), because `hit_test` divides by the radius.
- Scenes.Render: the nested `Vec<Vec<Vec3>>` grid is an `array2`, and the
  body of the sample loop is the method `Scenes.CastSample`. PNG encoding
  and saving (`src/scene.rs:101-105`) and the progress bar are left out,
  because they are I/O and library calls. The conversion of each cell is
  `Vectors.Vec3.ToColour`; only its per-pixel call inside
  `RgbImage::from_fn` is left out.
- Scenes.Cast: the nearest-hit query is a parameter of the loop
  (`Scenes.Bounces`), instantiated with the scene's fold.
- `Scene::test_scene` (`src/scene.rs:17-27`) is left out: it is scene data.
- `src/main.rs` is left out: it is an earlier prototype renderer that the
  scene/camera path supersedes.
- `src/ray.rs` is not part of this model. `Rays.Ray` has only the fields
  and the `at` its users need.
