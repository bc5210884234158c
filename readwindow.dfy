/** Reading a window of a raster (`read_from_window` in georeader/read.py):
    a window entirely outside the raster gives no data, or, for a boundless
    read, a synthesised array of the window's shape holding the raster's
    fill value; every other read is handed to the raster itself. */
module ReadWindow {
  import opened Base
  import opened Shapes
  import opened Windows
  import opened Rounding

  /** The attributes of a `GeoData` handle the core uses. `fill` is absent
      when the handle has no `fill_value_default` attribute. */
  datatype GeoData = GeoData(raster: Raster, dtype: string, crs: string, transform: Affine, fill: Option<real>)

  /** `getattr(data_in, "fill_value_default", 0)` */
  function FillValue(g: GeoData): real
  {
    g.fill.GetOr(0.0)
  }

  /** The georeferencing a synthesised `GeoTensor` carries. */
  datatype GeoRef = GeoRef(crs: string, transform: Affine, fill: real)

  datatype ReadResult =
    | NoData
      /** An array of `shape` made here; `georef` is absent when only the
          array is asked for. */
    | Synthesised(shape: seq<nat>, data: array<real>, georef: Option<GeoRef>)
      /** `data_in.read_from_window(window, boundless)`, then `.values` when
          only the array is asked for, or `.load()` when `load` holds. */
    | Delegated(window: Window, boundless: bool, onlyData: bool, load: bool)

  /** The raster's own extent in pixels, `Window(0, 0, W, H)`, sized from
      the named shape. */
  function DataWindow(g: GeoData): (w: Window)
    requires HasSpatialAxes(g.raster)
    ensures w.colOff == 0.0 && w.rowOff == 0.0
  {
    var named := NamedShape(g.raster.dims, g.raster.shape);
    assert "x" in named && "y" in named;
    Window(0.0, 0.0, named["x"], named["y"])
  }

  /** For a well-formed raster the extent is its last two sizes. */
  lemma DataWindowOfWellFormed(g: GeoData)
    requires WellFormed(g.raster)
    ensures HasSpatialAxes(g.raster)
    ensures var n := |g.raster.shape|;
            DataWindow(g) == Window(0.0, 0.0, g.raster.shape[n - 1], g.raster.shape[n - 2])
  {
    var r := g.raster;
    var n := |r.dims|;
    assert r.dims[n - 1] == "x" && r.dims[n - 2] == "y";
    NamedPrefixAt(r.dims, r.shape, n, n - 1);
    NamedPrefixAt(r.dims, r.shape, n, n - 2);
  }

  /** `np.zeros(n)` followed, when `value != 0`, by `data += value`. */
  method Full(n: nat, value: real) returns (data: array<real>)
    ensures fresh(data) && data.Length == n
    ensures forall i :: 0 <= i < n ==> data[i] == value
  {
    data := new real[n](_ => 0.0);
    if value != 0.0 {
      for i := 0 to n
        invariant forall j :: 0 <= j < i ==> data[j] == value
        invariant forall j :: i <= j < n ==> data[j] == 0.0
      {
        data[i] := data[i] + value;
      }
    }
  }

  method ReadFromWindow(g: GeoData, window: Window, onlyData: bool, triggerLoad: bool, boundless: bool)
    returns (r: ReadResult)
    requires HasSpatialAxes(g.raster)
    ensures r.NoData? <==> !Intersects(DataWindow(g), window) && !boundless
    ensures r.Synthesised? <==> !Intersects(DataWindow(g), window) && boundless
    ensures r.Synthesised? ==>
      && r.shape == WindowShape(g.raster, window.width, window.height)
      && fresh(r.data) && r.data.Length == Prod(r.shape)
      && (forall i :: 0 <= i < r.data.Length ==> r.data[i] == FillValue(g))
      && r.georef == if onlyData then None else Some(GeoRef(g.crs, WindowTransform(window, g.transform), FillValue(g)))
    ensures r.Delegated? ==> r == Delegated(window, boundless, onlyData, triggerLoad && !onlyData)
  {
    var windowData := DataWindow(g);
    if !Intersects(windowData, window) {
      if !boundless {
        return NoData;
      }
      var shape := WindowShape(g.raster, window.width, window.height);
      var fill := FillValue(g);
      var data := Full(Prod(shape), fill);
      if onlyData {
        return Synthesised(shape, data, None);
      }
      return Synthesised(shape, data, Some(GeoRef(g.crs, WindowTransform(window, g.transform), fill)));
    }
    return Delegated(window, boundless, onlyData, triggerLoad && !onlyData);
  }

  /** A chip of 4 x 4 pixels centred at (1000, 1000) under the identity
      transform starts at pixel (998, 998). */
  lemma FarChipWindow(crs: string, transformPoint: (string, string, Point) -> Point)
    ensures WindowFromCenterCoords(crs, Identity(), Point(1000.0, 1000.0), (4, 4), None, transformPoint)
         == Success(Window(998.0, 998.0, 4, 4))
  {
    var c := Point(1000.0, 1000.0);
    IdentityInverse(c);
    assert RoundHalfEven(998.0) == 998 by {
      RoundOfInteger(998);
    }
    assert PointInCrs(c, None, crs, transformPoint) == c;
    var w := WindowFromCenterCoords(crs, Identity(), c, (4, 4), None, transformPoint);
    assert w.Success? && w.value.width == 4 && w.value.height == 4;
    assert w.value.colOff == RoundHalfEven(1000.0 - 4 as real / 2.0) as real;
    assert w.value.rowOff == RoundHalfEven(1000.0 - 4 as real / 2.0) as real;
  }

  lemma IdentityInverse(c: Point)
    ensures InverseApply(Identity(), c) == Success(c)
  {
    InverseRectilinear(Identity(), c);
  }

  function Identity(): Affine
  {
    Affine(1.0, 0.0, 0.0, 0.0, 1.0, 0.0)
  }

  /** That chip lies outside a raster of one band of 10 x 10 pixels: a
      boundless read synthesises a 1 x 4 x 4 array, any other read gives no
      data. */
  lemma FarChipIsOutside(band: string, crs: string, transformPoint: (string, string, Point) -> Point)
    requires band != "x" && band != "y"
    ensures var g := GeoData(Raster([band, "y", "x"], [1, 10, 10]), "float32", crs, Identity(), None);
            && HasSpatialAxes(g.raster)
            && !Intersects(DataWindow(g), Window(998.0, 998.0, 4, 4))
            && WindowShape(g.raster, 4, 4) == [1, 4, 4]
  {
    var r := Raster([band, "y", "x"], [1, 10, 10]);
    var g := GeoData(r, "float32", crs, Identity(), None);
    assert r.dims[1] != r.dims[2] by { assert r.dims[1][0] != r.dims[2][0]; }
    assert WellFormed(r);
    DataWindowOfWellFormed(g);
    WindowShapeOfWellFormed(r, 4, 4);
    assert LeadingShape(r) == [1];
  }
}
