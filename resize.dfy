/** Changing the resolution of a raster (`resize` in georeader/read.py):
    the target resolution, the scale factors, the default output window,
    the anti-aliasing decision with its default sigma, and the in-place
    Gaussian filtering of every 2-D slice before the raster is reprojected
    onto its own grid at the new resolution. */
module Resize {
  import opened Base
  import opened Rounding
  import opened Windows
  import opened Shapes
  import opened Slices
  import opened ReadWindow
  import opened Reproject

  /** `(abs(r), abs(r))` for a single number, the pair itself otherwise. */
  function DstResolution(res: Resolution): (r: (real, real))
    ensures res.Scalar? ==> r.0 == r.1 && r.0 >= 0.0 && (r.0 == res.r || r.0 == -res.r)
    ensures res.Pair? ==> r == (res.x, res.y)
  {
    match res
    case Scalar(v) => var a := if v < 0.0 then -v else v; (a, a)
    case Pair(x, y) => (x, y)
  }

  /** `resolution_or / resolution_dst` on each axis; a zero target size
      raises. Below 1 the raster shrinks, above 1 it grows. */
  function Scale(resOr: (real, real), resDst: (real, real)): (r: Result<(real, real)>)
    ensures r.Failure? <==> resDst.0 == 0.0 || resDst.1 == 0.0
    ensures r.Failure? ==> r.error == ZeroDivisionError
    ensures r.Success? ==> r.value.0 * resDst.0 == resOr.0 && r.value.1 * resDst.1 == resOr.1
    ensures r.Success? && resOr.0 > 0.0 && resOr.1 > 0.0 && resDst.0 > 0.0 && resDst.1 > 0.0 ==>
              r.value.0 > 0.0 && r.value.1 > 0.0
  {
    if resDst.0 == 0.0 || resDst.1 == 0.0 then Failure(ZeroDivisionError)
    else Success((resOr.0 / resDst.0, resOr.1 / resDst.1))
  }

  /** The default output window: no offset, and each spatial length scaled,
      rounded to 3 decimals and rounded up (`ceil(round(n * s, 3))`). The
      row count is scaled by the first factor, the column count by the
      second. */
  function DefaultWindow(shape: seq<nat>, scale: (real, real)): (w: Window)
    requires |shape| >= 2 && scale.0 >= 0.0 && scale.1 >= 0.0
  {
    CeilWindow(Scaled(shape[|shape| - 2], scale.0), Scaled(shape[|shape| - 1], scale.1))
  }

  /** `n * s`, the exact scaled length. */
  function Scaled(n: nat, s: real): (r: real)
    requires s >= 0.0
    ensures r >= 0.0
  {
    NonNegativeProduct(n as real, s);
    n as real * s
  }

  lemma NonNegativeProduct(x: real, y: real)
    requires x >= 0.0 && y >= 0.0
    ensures x * y >= 0.0
  {
  }

  /** The window of `ceil(round(h, 3))` rows and `ceil(round(wd, 3))` columns. */
  function CeilWindow(h: real, wd: real): (w: Window)
    requires h >= 0.0 && wd >= 0.0
  {
    CeilOfRoundedNonNegative(h);
    CeilOfRoundedNonNegative(wd);
    Window(0.0, 0.0, CeilOfRounded(wd), CeilOfRounded(h))
  }

  /** The default window starts at the origin, and each length lies within
      a thousandth (below) and one pixel (above) of the scaled length. */
  lemma DefaultWindowBounds(shape: seq<nat>, scale: (real, real))
    requires |shape| >= 2 && scale.0 >= 0.0 && scale.1 >= 0.0
    ensures var w := DefaultWindow(shape, scale);
            var h := Scaled(shape[|shape| - 2], scale.0);
            var wd := Scaled(shape[|shape| - 1], scale.1);
            && w.colOff == 0.0 && w.rowOff == 0.0
            && h - 0.0005 <= w.height as real < h + 1.0005
            && wd - 0.0005 <= w.width as real < wd + 1.0005
  {
  }

  /** A scaled length that is a whole number (up to the 3-decimal rounding)
      is not rounded up. */
  lemma DefaultWindowExact(shape: seq<nat>, scale: (real, real), rows: nat, cols: nat)
    requires |shape| >= 2 && scale.0 >= 0.0 && scale.1 >= 0.0
    requires -0.0005 <= Scaled(shape[|shape| - 2], scale.0) - rows as real <= 0.0005
    requires -0.0005 <= Scaled(shape[|shape| - 1], scale.1) - cols as real <= 0.0005
    ensures DefaultWindow(shape, scale) == Window(0.0, 0.0, cols, rows)
  {
    CeilOfRoundedNearInteger(Scaled(shape[|shape| - 2], scale.0), rows);
    CeilOfRoundedNearInteger(Scaled(shape[|shape| - 1], scale.1), cols);
  }

  /** Filtering happens only when asked for and some axis gets coarser. */
  predicate Filters(antiAliasing: bool, resOr: (real, real), resDst: (real, real))
  {
    antiAliasing && (resOr.0 < resDst.0 || resOr.1 < resDst.1)
  }

  /** The standard deviation of the Gaussian filter: one value for all axes,
      or one per spatial axis. */
  datatype Sigma = Uniform(s: real) | PerAxis(s0: real, s1: real)

  function Max0(x: real): real { if x < 0.0 then 0.0 else x }

  /** `np.maximum(0, (scale - 1) / 2)`, the default as the code computes it. */
  function DefaultSigmaAsWritten(scale: (real, real)): (r: Sigma)
    ensures r.PerAxis? && r.s0 >= 0.0 && r.s1 >= 0.0
  {
    PerAxis(Max0((scale.0 - 1.0) / 2.0), Max0((scale.1 - 1.0) / 2.0))
  }

  /** The default sigma of the code is zero on every axis that gets coarser:
      exactly the axes the filter is meant to smooth. */
  lemma AsWrittenSigmaIsZeroWhenShrinking(scale: (real, real))
    ensures scale.0 <= 1.0 ==> DefaultSigmaAsWritten(scale).s0 == 0.0
    ensures scale.1 <= 1.0 ==> DefaultSigmaAsWritten(scale).s1 == 0.0
  {
  }

  /** Halving the resolution (10 to 20 units per pixel on both axes) filters,
      with sigma 0 on both axes as written. */
  lemma HalvingIsNotSmoothed()
    ensures Filters(true, (10.0, 10.0), (20.0, 20.0))
    ensures Scale((10.0, 10.0), (20.0, 20.0)) == Success((0.5, 0.5))
    ensures DefaultSigmaAsWritten((0.5, 0.5)) == PerAxis(0.0, 0.0)
    ensures DefaultSigma((0.5, 0.5)) == PerAxis(0.5, 0.5)
  {
  }

  /** The documented default `(s - 1) / 2`, with `s = 1 / scale` the
      downsampling factor, and no smoothing on an axis that does not get
      coarser. */
  function DefaultSigma(scale: (real, real)): (r: Sigma)
    requires scale.0 > 0.0 && scale.1 > 0.0
    ensures r.PerAxis? && r.s0 >= 0.0 && r.s1 >= 0.0
    ensures scale.0 < 1.0 <==> r.s0 > 0.0
    ensures scale.1 < 1.0 <==> r.s1 > 0.0
  {
    PerAxis(Max0((1.0 / scale.0 - 1.0) / 2.0), Max0((1.0 / scale.1 - 1.0) / 2.0))
  }

  /** A downsampling by an integer factor s gets sigma (s - 1) / 2. */
  lemma DefaultSigmaOfFactor(s0: real, s1: real)
    requires s0 >= 1.0 && s1 >= 1.0
    ensures DefaultSigma((1.0 / s0, 1.0 / s1)) == PerAxis((s0 - 1.0) / 2.0, (s1 - 1.0) / 2.0)
  {
    assert 1.0 / (1.0 / s0) == s0;
    assert 1.0 / (1.0 / s1) == s1;
  }

  /** What `resize` does before reprojecting: the target resolution, the
      output window and, when the raster is filtered first, the sigma. */
  datatype ResizePlan = ResizePlan(resolution: (real, real), window: Window, filter: Option<Sigma>)

  function PlanResize(shape: seq<nat>, resOr: (real, real), res: Resolution, windowOut: Option<Window>,
                      antiAliasing: bool, sigma: Option<real>): (r: Result<ResizePlan>)
    requires |shape| >= 2 && resOr.0 > 0.0 && resOr.1 > 0.0
    requires res.Pair? ==> res.x >= 0.0 && res.y >= 0.0
    ensures var dst := DstResolution(res);
            && (r.Failure? <==> dst.0 == 0.0 || dst.1 == 0.0)
            && (r.Failure? ==> r.error == ZeroDivisionError)
            && (r.Success? ==>
                  && r.value.resolution == dst
                  && r.value.window == (if windowOut.Some? then windowOut.value else DefaultWindow(shape, Scale(resOr, dst).value))
                  && (r.value.filter.Some? <==> Filters(antiAliasing, resOr, dst))
                  && (r.value.filter.Some? && sigma.Some? ==> r.value.filter == Some(Uniform(sigma.value)))
                  && (r.value.filter.Some? && sigma.None? ==> r.value.filter == Some(DefaultSigma(Scale(resOr, dst).value))))
  {
    var dst := DstResolution(res);
    match Scale(resOr, dst)
    case Failure(e) => Failure(e)
    case Success(scale) =>
      var window := if windowOut.None? then DefaultWindow(shape, scale) else windowOut.value;
      var filter := if !Filters(antiAliasing, resOr, dst) then None
                    else if sigma.None? then Some(DefaultSigma(scale))
                    else Some(Uniform(sigma.value));
      Success(ResizePlan(dst, window, filter))
  }

  /** A scalar target resolution is the same on both axes, whatever its sign. */
  lemma ScalarResolutionIsSquare(r: real)
    ensures DstResolution(Scalar(r)) == DstResolution(Scalar(-r))
    ensures DstResolution(Scalar(r)).0 == DstResolution(Scalar(r)).1 >= 0.0
  {
  }

  /** The Gaussian filter: the filtered content of an array of the given
      shape, of the same size. */
  type Blur = f: (Sigma, seq<nat>, seq<real>) -> seq<real> | forall s, sh, v :: |f(s, sh, v)| == |v|
    witness (s: Sigma, sh: seq<nat>, v: seq<real>) => v

  /** The axes the filter loops over: the first two for rank 4, the first
      for rank 3, none otherwise. */
  function FilterLead(shape: seq<nat>): (lead: seq<nat>)
    ensures lead <= shape
    ensures |shape| == 4 ==> lead == shape[..2]
    ensures |shape| == 3 ==> lead == shape[..1]
    ensures |shape| != 3 && |shape| != 4 ==> lead == []
  {
    if |shape| == 4 then shape[..2] else if |shape| == 3 then shape[..1] else []
  }

  /** The shape of each filtered slice. */
  function FilterSlice(shape: seq<nat>): (rest: seq<nat>)
    ensures FilterLead(shape) + rest == shape
  {
    shape[|FilterLead(shape)|..]
  }

  function BlurStep(sigma: Sigma, sliceShape: seq<nat>, blur: Blur): (seq<nat>, seq<real>) -> seq<real>
  {
    (t: seq<nat>, b: seq<real>) => blur(sigma, sliceShape, b)
  }

  lemma BlurStepKeepsSize(sigma: Sigma, sliceShape: seq<nat>, blur: Blur, size: nat)
    ensures KeepsSize(BlurStep(sigma, sliceShape, blur), size)
  {
    var f := BlurStep(sigma, sliceShape, blur);
    forall t, b | |b| == size ensures |f(t, b)| == size {
      assert f(t, b) == blur(sigma, sliceShape, b);
    }
  }

  lemma FilterSplit(shape: seq<nat>)
    ensures Prod(shape) == Prod(FilterLead(shape)) * Prod(FilterSlice(shape))
  {
    ProdConcat(FilterLead(shape), FilterSlice(shape));
  }

  /** A raster whose values are held in memory (`GeoTensor`). */
  class GeoTensor {
    const shape: seq<nat>
    const values: array<real>
    const crs: string
    const transform: Affine
    /** `res`: the pixel size along x and along y. */
    const res: (real, real)

    ghost predicate Valid()
      reads this
    {
      values.Length == Prod(shape)
    }

    constructor (shape: seq<nat>, values: array<real>, crs: string, transform: Affine, res: (real, real))
      requires values.Length == Prod(shape)
      ensures this.shape == shape && this.values == values && this.crs == crs
      ensures this.transform == transform && this.res == res && Valid()
    {
      this.shape := shape;
      this.values := values;
      this.crs := crs;
      this.transform := transform;
      this.res := res;
    }

    /** The filtering loops of `resize`: every slice over the axes of
        `FilterLead` is replaced by its filtered content; with no such axes
        the whole array is filtered at once. */
    method AntiAlias(sigma: Sigma, blur: Blur)
      requires Valid()
      modifies values
      ensures SliceMapFits(shape)
      ensures values[..] == SliceMap(old(values[..]), FilterLead(shape), Prod(FilterSlice(shape)),
                                     BlurStep(sigma, FilterSlice(shape), blur))
    {
      FilterSplit(shape);
      var lead := FilterLead(shape);
      var rest := FilterSlice(shape);
      BlurStepKeepsSize(sigma, rest, blur, Prod(rest));
      var _ := ForEachSlice(values, lead, Prod(rest), BlurStep(sigma, rest, blur));
    }
  }

  /** The whole array holds `Prod(shape)` values, slice by slice. */
  predicate SliceMapFits(shape: seq<nat>)
  {
    Prod(shape) == Prod(FilterLead(shape)) * Prod(FilterSlice(shape))
  }

  /** Each slice is filtered from its own old content. */
  lemma FilteredSliceAt(s: seq<real>, shape: seq<nat>, sigma: Sigma, blur: Blur, t: seq<nat>)
    requires |s| == Prod(shape) && InRange(t, FilterLead(shape))
    ensures SliceMapFits(shape) && Rank(t, FilterLead(shape)) < Prod(FilterLead(shape))
    ensures var lead, rest := FilterLead(shape), FilterSlice(shape);
            var out := SliceMap(s, lead, Prod(rest), BlurStep(sigma, rest, blur));
            && |out| == |s|
            && Block(out, Prod(lead), Prod(rest), Rank(t, lead))
               == blur(sigma, rest, Block(s, Prod(lead), Prod(rest), Rank(t, lead)))
  {
    FilterSplit(shape);
    var lead, rest := FilterLead(shape), FilterSlice(shape);
    BlurStepKeepsSize(sigma, rest, blur, Prod(rest));
    SliceMapAt(s, lead, Prod(rest), BlurStep(sigma, rest, blur), t);
  }

  /** For a rank other than 3 and 4 the filter sees the whole array once. */
  lemma WholeArrayFiltered(s: seq<real>, shape: seq<nat>, sigma: Sigma, blur: Blur)
    requires |s| == Prod(shape) && |shape| != 3 && |shape| != 4
    ensures FilterSlice(shape) == shape
    ensures SliceMap(s, [], Prod(shape), BlurStep(sigma, shape, blur)) == blur(sigma, shape, s)
  {
    BlurStepKeepsSize(sigma, shape, blur, Prod(shape));
    SliceMapWhole(s, Prod(shape), BlurStep(sigma, shape, blur));
  }

  /** The call `resize` hands on: `read_reproject(data_in, dst_crs=crs,
      resolution_dst_crs=resolution, dst_transform=transform,
      window_out=window, resampling=..., return_only_data=...)`. */
  function ReprojectArgsOf(crs: string, transform: Affine, plan: ResizePlan, resampling: string,
                           onlyData: bool): (a: ReprojectArgs)
    ensures a.windowOut == Some(plan.window) && a.bounds.None?
    ensures a.dstCrs == Some(crs) && a.dstTransform == Some(transform)
    ensures a.resolution == Some(Pair(plan.resolution.0, plan.resolution.1))
    ensures a.dtype.None? && a.dstNodata.None? && a.onlyData == onlyData && a.resampling == resampling
  {
    ReprojectArgs(Some(crs), None, Some(Pair(plan.resolution.0, plan.resolution.1)), Some(transform),
                  Some(plan.window), resampling, None, onlyData, None)
  }

  /** `resize` always passes an output window, so the reprojection it
      hands on never fails for a missing size: it fails only when the
      transform helper does, and with its error. */
  lemma ResizeNeverMissesSize(g: GeoData, plan: ResizePlan, resampling: string, onlyData: bool, ops: GridOps)
    requires |g.raster.dims| == |g.raster.shape|
    ensures var args := ReprojectArgsOf(g.crs, g.transform, plan, resampling, onlyData);
            && (PlanReproject(g, args, ops).Failure? <==> OutTransform(args, ops).Failure?)
            && (PlanReproject(g, args, ops).Failure? ==> PlanReproject(g, args, ops).error == OutTransform(args, ops).error)
  {
  }

  /** `resize` up to its final call: plans, filters the tensor's values in
      place when the plan says so, and returns the arguments it hands to
      `read_reproject` (modelled by `Reproject.ReadReproject`). */
  method Resize(t: GeoTensor, res: Resolution, windowOut: Option<Window>, antiAliasing: bool,
                sigma: Option<real>, resampling: string, onlyData: bool, blur: Blur)
    returns (r: Result<ReprojectArgs>)
    requires t.Valid() && |t.shape| >= 2 && t.res.0 > 0.0 && t.res.1 > 0.0
    requires res.Pair? ==> res.x >= 0.0 && res.y >= 0.0
    modifies t.values
    ensures SliceMapFits(t.shape)
    ensures var plan := PlanResize(t.shape, t.res, res, windowOut, antiAliasing, sigma);
            && (r.Failure? <==> plan.Failure?)
            && (r.Failure? ==> r.error == plan.error && unchanged(t.values))
            && (r.Success? ==>
                  && r.value == ReprojectArgsOf(t.crs, t.transform, plan.value, resampling, onlyData)
                  && (plan.value.filter.None? ==> unchanged(t.values))
                  && (plan.value.filter.Some? ==>
                        t.values[..] == SliceMap(old(t.values[..]), FilterLead(t.shape), Prod(FilterSlice(t.shape)),
                                                 BlurStep(plan.value.filter.value, FilterSlice(t.shape), blur))))
  {
    FilterSplit(t.shape);
    var plan := PlanResize(t.shape, t.res, res, windowOut, antiAliasing, sigma);
    if plan.Failure? {
      return Failure(plan.error);
    }
    var p := plan.value;
    if p.filter.Some? {
      t.AntiAlias(p.filter.value, blur);
    }
    return Success(ReprojectArgsOf(t.crs, t.transform, p, resampling, onlyData));
  }
}
