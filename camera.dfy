/**
 * The pinhole camera of src/camera.rs: a position, a focal length, a
 * viewport, the image resolution and the sampling parameters, and the affine
 * map from viewport coordinates `(u, v)` to a world ray.
 */
module Cameras {
  import opened Vectors
  import opened Rays

  datatype Camera = Camera(
    pos: Vec3,
    focalLength: real,
    viewportWidth: real,
    viewportHeight: real,
    imageWidth: nat,
    imageHeight: nat,
    samplesPerPixel: nat,
    maxBounces: nat)
  {
    function Horizontal(): (h: Vec3)
      ensures h == Vec3(pos.x + viewportWidth, pos.y, pos.z)
    {
      AxisScaling(viewportWidth);
      pos.Add(Right.Mul(viewportWidth))
    }

    function Vertical(): (v: Vec3)
      ensures v == Vec3(pos.x, pos.y + viewportHeight, pos.z)
    {
      AxisScaling(viewportHeight);
      pos.Add(Up.Mul(viewportHeight))
    }

    /** The corner of the viewport; the position drops out of it. */
    function LowerLeftCorner(): (c: Vec3)
      ensures c == Vec3(-viewportWidth / 2.0, -viewportHeight / 2.0, -focalLength)
    {
      AxisScaling(focalLength);
      CornerComponent(pos.x, viewportWidth, 0.0);
      CornerComponent(pos.y, 0.0, viewportHeight);
      CornerComponent(pos.z, 0.0, 0.0);
      pos.Sub(Horizontal().Div(2.0)).Sub(Vertical().Div(2.0)).Sub(Forw.Mul(focalLength))
    }

    /**
     * The ray through viewport coordinates `(u, v)`. Because the horizontal
     * and vertical vectors include the position, the direction picks up
     * `pos * (u + v - 1)`.
     */
    function GetRay(u: real, v: real): (r: Ray)
      ensures r.origin == pos
      ensures r.dir == Vec3(pos.x * (u + v - 1.0) + viewportWidth * (u - 0.5),
                            pos.y * (u + v - 1.0) + viewportHeight * (v - 0.5),
                            pos.z * (u + v - 1.0) - focalLength)
    {
      var dir := LowerLeftCorner().Add(Horizontal().Mul(u)).Add(Vertical().Mul(v)).Sub(pos);
      ViewportDirection(dir, pos, viewportWidth, viewportHeight, focalLength, u, v);
      Ray(pos, dir)
    }
  }

  /** The unit axes scale to one non-zero component. */
  lemma AxisScaling(s: real)
    ensures Right.Mul(s) == Vec3(s, 0.0, 0.0)
    ensures Up.Mul(s) == Vec3(0.0, s, 0.0)
    ensures Forw.Mul(s) == Vec3(0.0, 0.0, s)
  {
  }

  /** One component of the corner: `p - (p + w) / 2 - (p + h) / 2 == -w / 2 - h / 2`. */
  lemma CornerComponent(p: real, w: real, h: real)
    ensures p - (p + w) / 2.0 - (p + h) / 2.0 == -w / 2.0 - h / 2.0
  {
  }

  /** The direction `corner + horizontal * u + vertical * v - pos`, component by component. */
  lemma ViewportDirection(d: Vec3, pos: Vec3, w: real, h: real, f: real, u: real, v: real)
    requires d.x == -w / 2.0 + (pos.x + w) * u + pos.x * v - pos.x
    requires d.y == -h / 2.0 + pos.y * u + (pos.y + h) * v - pos.y
    requires d.z == -f + pos.z * u + pos.z * v - pos.z
    ensures d == Vec3(pos.x * (u + v - 1.0) + w * (u - 0.5), pos.y * (u + v - 1.0) + h * (v - 0.5),
                      pos.z * (u + v - 1.0) - f)
  {
    AcrossComponent(pos.x, w, u, v, d.x);
    UpComponent(pos.y, h, u, v, d.y);
    DepthComponent(pos.z, f, u, v, d.z);
  }

  /** The components of the direction, along the viewport's width, its height and the view axis. */
  lemma AcrossComponent(p: real, w: real, u: real, v: real, d: real)
    requires d == -w / 2.0 + (p + w) * u + p * v - p
    ensures d == p * (u + v - 1.0) + w * (u - 0.5)
  {
  }

  lemma UpComponent(p: real, h: real, u: real, v: real, d: real)
    requires d == -h / 2.0 + p * u + (p + h) * v - p
    ensures d == p * (u + v - 1.0) + h * (v - 0.5)
  {
  }

  lemma DepthComponent(p: real, f: real, u: real, v: real, d: real)
    requires d == -f + p * u + p * v - p
    ensures d == p * (u + v - 1.0) - f
  {
  }

  /** `Camera::new`: 800 pixels wide at 16:9, a unit-high viewport, four samples and four bounces. */
  function New(): (c: Camera)
    ensures c.pos == Zero && c.focalLength == 1.0
    ensures c.viewportHeight == 1.0 && c.viewportWidth == 16.0 / 9.0
    ensures c.imageWidth == 800 && c.imageHeight == 450
    ensures c.samplesPerPixel == 4 && c.maxBounces == 4
  {
    var aspectRatio := 16.0 / 9.0;
    var imageWidth := 800;
    var imageHeight := ((imageWidth as real) / aspectRatio).Floor;
    assert (imageWidth as real) / aspectRatio == 450.0;
    var viewportHeight := 1.0;
    Camera(Zero, 1.0, viewportHeight * aspectRatio, viewportHeight, imageWidth, imageHeight as nat, 4, 4)
  }

  /** Every ray leaves from the camera position. */
  lemma GetRayOrigin(c: Camera, u: real, v: real)
    ensures c.GetRay(u, v).origin == c.pos
  {
  }

  /** The ray through the viewport's centre looks straight down `-z`, wherever the camera is. */
  lemma CentreRay(c: Camera)
    ensures c.GetRay(0.5, 0.5).dir == Vec3(0.0, 0.0, -c.focalLength)
  {
    assert c.pos.Mul(0.5 + 0.5 - 1.0) == Zero;
  }

  /** The direction is affine in `(u, v)`. */
  lemma GetRayAffine(c: Camera, u: real, v: real)
    ensures c.GetRay(u, v).dir == c.GetRay(0.0, 0.0).dir.Add(c.Horizontal().Mul(u)).Add(c.Vertical().Mul(v))
  {
    AffineComponent(c.pos.x, c.viewportWidth, 0.0, u, v);
    AffineComponent(c.pos.y, 0.0, c.viewportHeight, u, v);
    AffineComponent(c.pos.z, 0.0, 0.0, u, v);
  }

  lemma AffineComponent(p: real, w: real, h: real, u: real, v: real)
    ensures p * (u + v - 1.0) + w * (u - 0.5) + h * (v - 0.5)
         == (p * (0.0 + 0.0 - 1.0) + w * (0.0 - 0.5) + h * (0.0 - 0.5)) + (p + w) * u + (p + h) * v
  {
  }
}
