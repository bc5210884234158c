/** Pixel windows and affine georeferencing: turning a centre point or a
    bounding box into a window of the raster's pixel grid
    (`window_from_center_coords`, `window_from_bounds` in georeader/read.py). */
module Windows {
  import opened Base
  import opened Rounding
  import opened Crs

  /** An affine map from pixel (col, row) to coordinates (x, y):
      x = a*col + b*row + c and y = d*col + e*row + f. */
  datatype Affine = Affine(a: real, b: real, c: real, d: real, e: real, f: real)

  datatype Point = Point(x: real, y: real)

  /** (min-x, min-y, max-x, max-y) in some CRS. */
  datatype Bounds = Bounds(left: real, bottom: real, right: real, top: real)

  /** A window of a pixel grid. Offsets may be fractional or negative; the
      lengths are whole numbers, as after rounding. */
  datatype Window = Window(colOff: real, rowOff: real, width: nat, height: nat)

  function Apply(t: Affine, col: real, row: real): Point
  {
    Point(t.a * col + t.b * row + t.c, t.d * col + t.e * row + t.f)
  }

  function Det(t: Affine): real
  {
    t.a * t.e - t.b * t.d
  }

  predicate Rectilinear(t: Affine)
  {
    t.b == 0.0 && t.d == 0.0
  }

  /** `~transform * (x, y)`: the pixel location of a point. Inverting a
      degenerate transform raises. */
  function InverseApply(t: Affine, p: Point): (r: Result<Point>)
    ensures r.Failure? <==> Det(t) == 0.0
    ensures r.Success? ==> Apply(t, r.value.x, r.value.y) == p
  {
    var det := Det(t);
    if det == 0.0 then Failure(TransformNotInvertibleError)
    else
      var dx := p.x - t.c;
      var dy := p.y - t.f;
      var col := (t.e * dx - t.b * dy) / det;
      var row := (t.a * dy - t.d * dx) / det;
      InverseCorrect(t, dx, dy, col, row);
      Success(Point(col, row))
  }

  lemma InverseCorrect(t: Affine, dx: real, dy: real, col: real, row: real)
    requires Det(t) != 0.0
    requires col == (t.e * dx - t.b * dy) / Det(t)
    requires row == (t.a * dy - t.d * dx) / Det(t)
    ensures t.a * col + t.b * row == dx
    ensures t.d * col + t.e * row == dy
  {
    var det := Det(t);
    assert col * det == t.e * dx - t.b * dy;
    assert row * det == t.a * dy - t.d * dx;
    assert (t.a * col + t.b * row) * det == dx * det;
    assert (t.d * col + t.e * row) * det == dy * det;
  }

  /** On a rectilinear transform the inverse divides each axis by its own
      pixel size. */
  lemma InverseRectilinear(t: Affine, p: Point)
    requires Rectilinear(t) && t.a != 0.0 && t.e != 0.0
    ensures InverseApply(t, p) == Success(Point((p.x - t.c) / t.a, (p.y - t.f) / t.e))
  {
    var r := InverseApply(t, p);
    var col, row := r.value.x, r.value.y;
    assert t.a * col == p.x - t.c;
    assert t.e * row == p.y - t.f;
    assert col == (p.x - t.c) / t.a;
    assert row == (p.y - t.f) / t.e;
  }

  /** The point is first moved into the raster's CRS when it comes with a
      different one. `transformPoint(from, to, p)` stands for rasterio's
      `warp.transform`. */
  function PointInCrs(p: Point, pointCrs: Option<string>, dataCrs: string,
                      transformPoint: (string, string, Point) -> Point): Point
  {
    if pointCrs.Some? && !CompareCrs(pointCrs.value, dataCrs) then transformPoint(pointCrs.value, dataCrs, p)
    else p
  }

  /** `window_from_center_coords`: the window of `shape` = (H, W) pixels
      whose upper-left corner is the centre pixel minus half the shape,
      each offset rounded on its own. Meaningful for rectilinear
      transforms only, which is not checked. */
  function WindowFromCenterCoords(dataCrs: string, transform: Affine, center: Point,
                                  shape: (nat, nat), centerCrs: Option<string>,
                                  transformPoint: (string, string, Point) -> Point): (r: Result<Window>)
    ensures r.Failure? <==> Det(transform) == 0.0
    ensures r.Success? ==> r.value.width == shape.1 && r.value.height == shape.0
    ensures r.Success? ==>
      var px := InverseApply(transform, PointInCrs(center, centerCrs, dataCrs, transformPoint)).value;
      && r.value.colOff == RoundHalfEven(px.x - shape.1 as real / 2.0) as real
      && r.value.rowOff == RoundHalfEven(px.y - shape.0 as real / 2.0) as real
  {
    var p := PointInCrs(center, centerCrs, dataCrs, transformPoint);
    match InverseApply(transform, p)
    case Failure(e) => Failure(e)
    case Success(px) =>
      var upperLeft := RoundAll([px.x - shape.1 as real / 2.0, px.y - shape.0 as real / 2.0]);
      Success(Window(upperLeft[0] as real, upperLeft[1] as real, shape.1, shape.0))
  }

  /** The window's centre lies within half a pixel of the requested centre
      on each axis, and its offsets are whole pixels. */
  lemma CenterWindowIsCentred(dataCrs: string, transform: Affine, center: Point,
                              shape: (nat, nat), centerCrs: Option<string>,
                              transformPoint: (string, string, Point) -> Point)
    requires Det(transform) != 0.0
    ensures var w := WindowFromCenterCoords(dataCrs, transform, center, shape, centerCrs, transformPoint).value;
            var px := InverseApply(transform, PointInCrs(center, centerCrs, dataCrs, transformPoint)).value;
            && -0.5 <= w.colOff + w.width as real / 2.0 - px.x <= 0.5
            && -0.5 <= w.rowOff + w.height as real / 2.0 - px.y <= 0.5
            && w.colOff.Floor as real == w.colOff && w.rowOff.Floor as real == w.rowOff
  {
  }

  /** A centre already in the raster's CRS (in any spelling that compares
      equal) is used as it is: the result does not depend on the point
      transform. */
  lemma CenterSameCrs(dataCrs: string, transform: Affine, center: Point, shape: (nat, nat),
                      centerCrs: string, transformPoint: (string, string, Point) -> Point)
    requires CompareCrs(centerCrs, dataCrs)
    ensures WindowFromCenterCoords(dataCrs, transform, center, shape, Some(centerCrs), transformPoint)
         == WindowFromCenterCoords(dataCrs, transform, center, shape, None, transformPoint)
  {
  }

  /** `window_from_bounds`: bounds in another CRS are first reprojected with
      `transformBounds` (rasterio's `warp.transform_bounds`); the window is
      then `fromBounds` (rasterio's `windows.from_bounds`), unrounded. */
  function WindowFromBounds<W>(dataCrs: string, transform: Affine, bounds: Bounds, boundsCrs: Option<string>,
                               transformBounds: (string, string, Bounds) -> Bounds,
                               fromBounds: (Bounds, Affine) -> W): (r: W)
    ensures boundsCrs.Some? && !CompareCrs(boundsCrs.value, dataCrs) ==>
              r == fromBounds(transformBounds(boundsCrs.value, dataCrs, bounds), transform)
    ensures boundsCrs.None? || CompareCrs(boundsCrs.value, dataCrs) ==> r == fromBounds(bounds, transform)
  {
    var boundsIn := if boundsCrs.Some? && !CompareCrs(boundsCrs.value, dataCrs)
                    then transformBounds(boundsCrs.value, dataCrs, bounds) else bounds;
    fromBounds(boundsIn, transform)
  }

  /** Bounds given in the raster's own CRS give the same window as bounds
      given without a CRS. */
  lemma BoundsSameCrs<W>(dataCrs: string, transform: Affine, bounds: Bounds, boundsCrs: string,
                         transformBounds: (string, string, Bounds) -> Bounds,
                         fromBounds: (Bounds, Affine) -> W)
    requires CompareCrs(boundsCrs, dataCrs)
    ensures WindowFromBounds(dataCrs, transform, bounds, Some(boundsCrs), transformBounds, fromBounds)
         == WindowFromBounds(dataCrs, transform, bounds, None, transformBounds, fromBounds)
  {
  }

  /** Two windows intersect when their pixel rectangles share a region of
      positive area (the edge behaviour of rasterio's `windows.intersect`
      is assumed, not shown). */
  predicate Intersects(w1: Window, w2: Window)
  {
    && Max(w1.colOff, w2.colOff) < Min(w1.colOff + w1.width as real, w2.colOff + w2.width as real)
    && Max(w1.rowOff, w2.rowOff) < Min(w1.rowOff + w1.height as real, w2.rowOff + w2.height as real)
  }

  function Max(x: real, y: real): real { if x < y then y else x }
  function Min(x: real, y: real): real { if x < y then x else y }

  lemma IntersectsSymmetric(w1: Window, w2: Window)
    ensures Intersects(w1, w2) <==> Intersects(w2, w1)
  {
  }

  /** A window that starts at or beyond the extent's right or bottom edge, or
      ends at or before its left or top edge, does not intersect it. */
  lemma DisjointOutside(extent: Window, w: Window)
    requires || w.colOff >= extent.colOff + extent.width as real
             || w.rowOff >= extent.rowOff + extent.height as real
             || w.colOff + w.width as real <= extent.colOff
             || w.rowOff + w.height as real <= extent.rowOff
    ensures !Intersects(extent, w)
  {
  }

  /** `rasterio.windows.transform(window, transform)`: the transform of the
      window's own pixel grid, whose pixel (0, 0) is the window's origin. */
  function WindowTransform(w: Window, t: Affine): (r: Affine)
    ensures r.a == t.a && r.b == t.b && r.d == t.d && r.e == t.e
    ensures Apply(r, 0.0, 0.0) == Apply(t, w.colOff, w.rowOff)
  {
    var origin := Apply(t, w.colOff, w.rowOff);
    Affine(t.a, t.b, origin.x, t.d, t.e, origin.y)
  }

  /** Pixel (col, row) of the window is pixel (col + colOff, row + rowOff) of
      the raster. */
  lemma WindowTransformShifts(w: Window, t: Affine, col: real, row: real)
    ensures Apply(WindowTransform(w, t), col, row) == Apply(t, col + w.colOff, row + w.rowOff)
  {
    var origin := Apply(t, w.colOff, w.rowOff);
    var p := Apply(WindowTransform(w, t), col, row);
    var q := Apply(t, col + w.colOff, row + w.rowOff);
    assert p.x == (t.a * col + t.b * row) + (t.a * w.colOff + t.b * w.rowOff + t.c);
    assert q.x == (t.a * col + t.b * row) + (t.a * w.colOff + t.b * w.rowOff + t.c) by {
      Distribute(t.a, col, w.colOff);
      Distribute(t.b, row, w.rowOff);
    }
    assert p.y == (t.d * col + t.e * row) + (t.d * w.colOff + t.e * w.rowOff + t.f);
    assert q.y == (t.d * col + t.e * row) + (t.d * w.colOff + t.e * w.rowOff + t.f) by {
      Distribute(t.d, col, w.colOff);
      Distribute(t.e, row, w.rowOff);
    }
  }

  lemma Distribute(k: real, x: real, y: real)
    ensures k * (x + y) == k * x + k * y
  {
  }
}
