/** Reprojection of a raster onto another grid (`read_reproject` in
    georeader/read.py): the output grid and window are worked out, a read
    on the raster's own grid is answered by a plain windowed read, and
    otherwise a zero-filled destination is warped slice by slice, one call
    of the warp primitive per index tuple of the non-spatial axes. */
module Reproject {
  import opened Base
  import opened Crs
  import opened Windows
  import opened Shapes
  import opened Slices
  import opened ReadWindow

  /** A target resolution: one size for both axes, or one per axis. */
  datatype Resolution = Scalar(r: real) | Pair(x: real, y: real)

  /** Grid helpers from outside the core: `window_utils.figure_out_transform`,
      which may raise (it has nothing to build a transform from when neither
      a transform nor bounds are given),
      `rasterio.windows.from_bounds(...).round_lengths(op="ceil")`,
      `window_utils.window_bounds`, `window_utils._is_exact_round` and
      `Window.round_offsets(op="floor")`. */
  datatype GridOps = GridOps(
    figureOutTransform: (Option<Affine>, Option<Bounds>, Option<Resolution>) -> Result<Affine>,
    fromBoundsCeil: (Bounds, Affine) -> Window,
    windowBounds: (Window, Affine) -> Bounds,
    isExactRound: real -> bool,
    roundOffsetsFloor: Window -> Window)

  /** The keyword arguments of `read_reproject`. */
  datatype ReprojectArgs = ReprojectArgs(
    dstCrs: Option<string>, bounds: Option<Bounds>, resolution: Option<Resolution>,
    dstTransform: Option<Affine>, windowOut: Option<Window>, resampling: string,
    dtype: Option<string>, onlyData: bool, dstNodata: Option<real>)

  /** What `read_reproject` goes on to do once the grid is known. */
  datatype Plan =
      /** `read_from_window(data_in, window, return_only_data)` */
    | Direct(window: Window, onlyData: bool)
      /** Warp into a new array of `shape` on the grid `dstTransform`, reading
          the source chip covering `bounds`; `cast` says whether the chip is
          converted to `dtype`. */
    | Warp(dstCrs: string, dstTransform: Affine, windowOut: Window, bounds: Bounds,
           dtype: string, cast: bool, shape: seq<nat>)

  const MissingSizeMessage: string :=
    "Both window_out and bounds are None. This is needed to figure out the size of the output array"

  /** Same pixel size and rotation: the coefficients a, b, d and e agree. */
  predicate SameGrid(dst: Affine, src: Affine)
  {
    dst.a == src.a && dst.b == src.b && dst.d == src.d && dst.e == src.e
  }

  /** The window of the output bounds on the raster's own grid. */
  function WindowIn(g: GeoData, bounds: Bounds, ops: GridOps): Window
  {
    ops.fromBoundsCeil(bounds, g.transform)
  }

  /** The output is the raster's own grid, shifted by whole pixels. */
  predicate FastPath(g: GeoData, dstCrs: string, dstTransform: Affine, windowOut: Window,
                     bounds: Bounds, ops: GridOps)
  {
    var w := WindowIn(g, bounds, ops);
    && CompareCrs(dstCrs, g.crs)
    && SameGrid(dstTransform, g.transform)
    && ops.isExactRound(w.rowOff) && ops.isExactRound(w.colOff)
    && w.width == windowOut.width && w.height == windowOut.height
  }

  /** The output transform, computed before the output window is checked. */
  function OutTransform(args: ReprojectArgs, ops: GridOps): Result<Affine>
  {
    ops.figureOutTransform(args.dstTransform, args.bounds, args.resolution)
  }

  /** The output window: the given one, or the ceiling-rounded window of the
      bounds on the output grid. */
  function OutWindow(args: ReprojectArgs, dstTransform: Affine, ops: GridOps): Window
    requires args.windowOut.Some? || args.bounds.Some?
  {
    if args.windowOut.Some? then args.windowOut.value
    else ops.fromBoundsCeil(args.bounds.value, dstTransform)
  }

  function PlanReproject(g: GeoData, args: ReprojectArgs, ops: GridOps): (r: Result<Plan>)
    requires |g.raster.dims| == |g.raster.shape|
    ensures r.Failure? <==> OutTransform(args, ops).Failure? || (args.windowOut.None? && args.bounds.None?)
    ensures r.Failure? ==> r.error == if OutTransform(args, ops).Failure? then OutTransform(args, ops).error
                                      else AssertionError(MissingSizeMessage)
    ensures r.Success? ==>
      var t := OutTransform(args, ops).value;
      var w := OutWindow(args, t, ops);
      var b := ops.windowBounds(w, t);
      var crs := args.dstCrs.GetOr(g.crs);
      && (r.value.Direct? <==> FastPath(g, crs, t, w, b, ops))
      && (r.value.Direct? ==> r.value == Direct(ops.roundOffsetsFloor(WindowIn(g, b, ops)), args.onlyData))
      && (r.value.Warp? ==>
            && r.value.dstCrs == crs && r.value.dstTransform == t && r.value.windowOut == w
            && r.value.bounds == b
            && r.value.dtype == args.dtype.GetOr(g.dtype) && r.value.cast == args.dtype.None?
            && r.value.shape == NamedWindowShape(g.raster, w.width, w.height))
  {
    match OutTransform(args, ops)
    case Failure(e) => Failure(e)
    case Success(dstTransform) =>
      if args.windowOut.None? && args.bounds.None? then Failure(AssertionError(MissingSizeMessage))
      else
        var windowOut := OutWindow(args, dstTransform, ops);
        var bounds := ops.windowBounds(windowOut, dstTransform);
        var dstCrs := if args.dstCrs.None? then g.crs else args.dstCrs.value;
        if FastPath(g, dstCrs, dstTransform, windowOut, bounds, ops) then
          Success(Direct(ops.roundOffsetsFloor(WindowIn(g, bounds, ops)), args.onlyData))
        else
          var cast := args.dtype.None?;
          var dtype := if cast then g.dtype else args.dtype.value;
          Success(Warp(dstCrs, dstTransform, windowOut, bounds, dtype, cast,
                       NamedWindowShape(g.raster, windowOut.width, windowOut.height)))
  }

  /** Asking for the raster's own grid and a window on it whose bounds map
      back to the same window at whole-pixel offsets is answered by a direct
      read of that window, without warping. */
  lemma OwnGridIsRead(g: GeoData, args: ReprojectArgs, ops: GridOps)
    requires |g.raster.dims| == |g.raster.shape|
    requires args.dstCrs.None? && args.windowOut.Some?
    requires OutTransform(args, ops) == Success(g.transform)
    requires var w := args.windowOut.value;
             && ops.fromBoundsCeil(ops.windowBounds(w, g.transform), g.transform) == w
             && ops.isExactRound(w.rowOff) && ops.isExactRound(w.colOff)
    ensures PlanReproject(g, args, ops) == Success(Direct(ops.roundOffsetsFloor(args.windowOut.value), args.onlyData))
  {
    CompareCrsIsEquivalence(g.crs, g.crs, g.crs);
  }

  /** A change of CRS (one that does not compare equal) is always warped,
      towards the requested CRS. */
  lemma OtherCrsIsWarped(g: GeoData, args: ReprojectArgs, ops: GridOps)
    requires |g.raster.dims| == |g.raster.shape|
    requires OutTransform(args, ops).Success? && (args.windowOut.Some? || args.bounds.Some?)
    requires args.dstCrs.Some? && !CompareCrs(args.dstCrs.value, g.crs)
    ensures PlanReproject(g, args, ops).Success?
    ensures PlanReproject(g, args, ops).value.Warp?
    ensures PlanReproject(g, args, ops).value.dstCrs == args.dstCrs.value
  {
  }

  /** The output of a warp has the raster's non-spatial axes followed by the
      output window's height and width. */
  lemma WarpShape(g: GeoData, args: ReprojectArgs, ops: GridOps)
    requires WellFormed(g.raster)
    requires PlanReproject(g, args, ops).Success? && PlanReproject(g, args, ops).value.Warp?
    ensures var p := PlanReproject(g, args, ops).value;
            p.shape == LeadingShape(g.raster) + [p.windowOut.height, p.windowOut.width]
  {
    var p := PlanReproject(g, args, ops).value;
    NamedWindowShapeOfDistinct(g.raster, p.windowOut.width, p.windowOut.height);
    WindowShapeOfWellFormed(g.raster, p.windowOut.width, p.windowOut.height);
  }

  /** `dst_nodata or fill_value_default`: Python's `or` falls back on any
      falsy value, so an explicit 0 is replaced like a missing one. */
  function EffectiveNodata(dstNodata: Option<real>, chipFill: real): (r: real)
    ensures r == chipFill || (dstNodata.Some? && r == dstNodata.value)
    ensures r != chipFill ==> dstNodata.Some? && dstNodata.value != 0.0
  {
    if dstNodata.Some? && dstNodata.value != 0.0 then dstNodata.value else chipFill
  }

  lemma ZeroNodataFallsBack(chipFill: real)
    ensures EffectiveNodata(Some(0.0), chipFill) == chipFill
    ensures EffectiveNodata(None, chipFill) == chipFill
  {
  }

  lemma NonZeroNodataIsKept(v: real, chipFill: real)
    requires v != 0.0
    ensures EffectiveNodata(Some(v), chipFill) == v
  {
  }

  /** The padded, loaded source chip `read_from_bounds` returns: its values
      in row-major order, the size of its spatial axes, its grid and its
      fill value. */
  datatype Chip = Chip(values: seq<real>, rows: nat, cols: nat, transform: Affine, fill: real)

  /** The chip has the non-spatial axes `lead`. */
  predicate ChipFits(chip: Chip, lead: seq<nat>)
  {
    |chip.values| == Prod(lead) * (chip.rows * chip.cols)
  }

  /** `np_array_in[i_sel_tuple]`: the 2-D source slice an index tuple addresses. */
  function SourceSlice(chip: Chip, lead: seq<nat>, t: seq<nat>): (r: seq<real>)
    ensures ChipFits(chip, lead) && InRange(t, lead) ==>
      Rank(t, lead) < Prod(lead) && r == Block(chip.values, Prod(lead), chip.rows * chip.cols, Rank(t, lead))
  {
    if ChipFits(chip, lead) && InRange(t, lead) then
      RankBound(t, lead);
      Block(chip.values, Prod(lead), chip.rows * chip.cols, Rank(t, lead))
    else []
  }

  /** The arguments of one `rasterio.warp.reproject` call. */
  datatype WarpCall = WarpCall(
    src: seq<real>, dst: seq<real>, srcTransform: Affine, srcCrs: string,
    dstTransform: Affine, dstCrs: string, srcNodata: real, dstNodata: real, resampling: string)

  /** The warp primitive: the new content of the destination slice it is
      given, which keeps its size. */
  type WarpFn = f: WarpCall -> seq<real> | forall c :: |f(c)| == |c.dst| witness (c: WarpCall) => c.dst

  /** The per-slice step of the loop: warp the source slice of tuple `t` into
      the destination slice `dst`. */
  function WarpStep(chip: Chip, lead: seq<nat>, srcCrs: string, dstTransform: Affine, dstCrs: string,
                    dstNodata: real, resampling: string, warp: WarpFn): (seq<nat>, seq<real>) -> seq<real>
  {
    (t: seq<nat>, dst: seq<real>) =>
      warp(WarpCall(SourceSlice(chip, lead, t), dst, chip.transform, srcCrs, dstTransform, dstCrs,
                    chip.fill, dstNodata, resampling))
  }

  lemma WarpStepKeepsSize(chip: Chip, lead: seq<nat>, srcCrs: string, dstTransform: Affine, dstCrs: string,
                          dstNodata: real, resampling: string, warp: WarpFn, size: nat)
    ensures KeepsSize(WarpStep(chip, lead, srcCrs, dstTransform, dstCrs, dstNodata, resampling, warp), size)
  {
    var f := WarpStep(chip, lead, srcCrs, dstTransform, dstCrs, dstNodata, resampling, warp);
    forall t, b | |b| == size ensures |f(t, b)| == size {
      var c := WarpCall(SourceSlice(chip, lead, t), b, chip.transform, srcCrs, dstTransform, dstCrs,
                        chip.fill, dstNodata, resampling);
      assert f(t, b) == warp(c);
    }
  }

  /** The output array of a reprojection, of shape `lead + [rows, cols]`. */
  class Destination {
    const lead: seq<nat>
    const rows: nat
    const cols: nat
    const data: array<real>
    /** The index tuples reprojected so far, in call order. */
    ghost var calls: seq<seq<nat>>

    ghost predicate Valid()
      reads this
    {
      data.Length == Prod(lead) * (rows * cols)
    }

    function Shape(): (s: seq<nat>)
      ensures Prod(s) == Prod(lead) * (rows * cols)
    {
      ProdConcat(lead, [rows, cols]);
      ProdPair(rows, cols);
      lead + [rows, cols]
    }

    /** `np.zeros(shape_out)` */
    constructor (lead: seq<nat>, rows: nat, cols: nat)
      ensures this.lead == lead && this.rows == rows && this.cols == cols
      ensures Valid() && fresh(data)
      ensures data[..] == Zeros(Prod(lead) * (rows * cols)) && calls == []
    {
      this.lead := lead;
      this.rows := rows;
      this.cols := cols;
      data := new real[Prod(lead) * (rows * cols)](_ => 0.0);
      calls := [];
    }

    /** The `itertools.product` loop: one warp call per index tuple of the
        non-spatial axes, each writing its own destination slice. */
    method ReprojectSlices(chip: Chip, srcCrs: string, dstTransform: Affine, dstCrs: string,
                           dstNodata: real, resampling: string, warp: WarpFn)
      requires Valid() && ChipFits(chip, lead)
      modifies this, data
      ensures Valid()
      ensures calls == Tuples(lead)
      ensures data[..] == SliceMap(old(data[..]), lead, rows * cols,
                                   WarpStep(chip, lead, srcCrs, dstTransform, dstCrs, dstNodata, resampling, warp))
    {
      var f := WarpStep(chip, lead, srcCrs, dstTransform, dstCrs, dstNodata, resampling, warp);
      WarpStepKeepsSize(chip, lead, srcCrs, dstTransform, dstCrs, dstNodata, resampling, warp, rows * cols);
      calls := ForEachSlice(data, lead, rows * cols, f);
    }
  }

  lemma ProdPair(rows: nat, cols: nat)
    ensures Prod([rows, cols]) == rows * cols
  {
    assert [rows, cols][1..] == [cols];
    assert Prod([cols]) == cols * Prod([]) by {
      assert [cols][1..] == [];
    }
  }

  /** The destination once every slice of a zero-filled array of shape
      `lead + [rows, cols]` has been warped. */
  ghost function Warped(chip: Chip, lead: seq<nat>, rows: nat, cols: nat, srcCrs: string, dstTransform: Affine,
                        dstCrs: string, dstNodata: real, resampling: string, warp: WarpFn): seq<real>
  {
    SliceMap(Zeros(Prod(lead) * (rows * cols)), lead, rows * cols,
             WarpStep(chip, lead, srcCrs, dstTransform, dstCrs, dstNodata, resampling, warp))
  }

  /** Zeros split into blocks are zeros. */
  lemma BlockOfZeros(n: nat, size: nat, k: nat)
    requires k < n
    ensures Block(Zeros(n * size), n, size, k) == Zeros(size)
  {
    MulStep(k, n, size);
  }

  /** Each destination slice, starting from zeros, holds the warp of the
      source slice with the same index tuple into a zero slice. */
  lemma WarpedSliceAt(chip: Chip, lead: seq<nat>, rows: nat, cols: nat, srcCrs: string, dstTransform: Affine,
                      dstCrs: string, dstNodata: real, resampling: string, warp: WarpFn, t: seq<nat>)
    requires ChipFits(chip, lead) && InRange(t, lead)
    ensures Rank(t, lead) < Prod(lead)
    ensures var out := Warped(chip, lead, rows, cols, srcCrs, dstTransform, dstCrs, dstNodata, resampling, warp);
            && |out| == Prod(lead) * (rows * cols)
            && Block(out, Prod(lead), rows * cols, Rank(t, lead))
               == warp(WarpCall(SourceSlice(chip, lead, t), Zeros(rows * cols), chip.transform, srcCrs,
                                dstTransform, dstCrs, chip.fill, dstNodata, resampling))
  {
    var size := rows * cols;
    var f := WarpStep(chip, lead, srcCrs, dstTransform, dstCrs, dstNodata, resampling, warp);
    WarpStepKeepsSize(chip, lead, srcCrs, dstTransform, dstCrs, dstNodata, resampling, warp, size);
    SliceMapAt(Zeros(Prod(lead) * size), lead, size, f, t);
    BlockOfZeros(Prod(lead), size, Rank(t, lead));
  }

  /** The result of `read_reproject`. */
  datatype Outcome =
    | Read(result: ReadResult)
    | Reprojected(destination: Destination, transform: Affine, crs: string, nodata: real, onlyData: bool)

  /** `read_from_bounds(data_in, bounds, dst_crs, pad_add=(3, 3), trigger_load=True)`
      keeps the non-spatial axes of the raster. */
  ghost predicate ChipReaderFits(readChip: (Bounds, string) -> Chip, lead: seq<nat>)
  {
    forall b, crs :: ChipFits(readChip(b, crs), lead)
  }

  method ReadReproject(g: GeoData, args: ReprojectArgs, ops: GridOps,
                       readChip: (Bounds, string) -> Chip, warp: WarpFn) returns (r: Result<Outcome>)
    requires WellFormed(g.raster) && ChipReaderFits(readChip, LeadingShape(g.raster))
    ensures r.Failure? <==> PlanReproject(g, args, ops).Failure?
    ensures r.Failure? ==> r.error == PlanReproject(g, args, ops).error
    ensures r.Success? ==> match PlanReproject(g, args, ops).value
      case Direct(window, onlyData) =>
        && r.value.Read? && !r.value.result.NoData?
        && (r.value.result.Delegated? ==> r.value.result == Delegated(window, true, onlyData, false))
      case Warp(dstCrs, dstTransform, windowOut, bounds, dtype, cast, shape) =>
        r.value.Reprojected? &&
        var chip := readChip(bounds, dstCrs);
        var d := r.value.destination;
        var lead := LeadingShape(g.raster);
        && fresh(d) && fresh(d.data)
        && d.lead == lead && d.rows == windowOut.height && d.cols == windowOut.width
        && d.Shape() == shape && d.Valid()
        && d.calls == Tuples(lead)
        && d.data[..] == Warped(chip, lead, d.rows, d.cols, g.crs, dstTransform, dstCrs,
                                EffectiveNodata(args.dstNodata, chip.fill), args.resampling, warp)
        && r.value.transform == dstTransform && r.value.crs == dstCrs
        && r.value.nodata == EffectiveNodata(args.dstNodata, chip.fill)
        && r.value.onlyData == args.onlyData
  {
    DataWindowOfWellFormed(g);
    var plan := PlanReproject(g, args, ops);
    if plan.Failure? {
      return Failure(plan.error);
    }
    match plan.value
    case Direct(window, onlyData) =>
      var read := ReadFromWindow(g, window, onlyData, false, true);
      return Success(Read(read));
    case Warp(dstCrs, dstTransform, windowOut, bounds, dtype, cast, shape) =>
      WarpShape(g, args, ops);
      var lead := LeadingShape(g.raster);
      var destination := new Destination(lead, windowOut.height, windowOut.width);
      var chip := readChip(bounds, dstCrs);
      var nodata := EffectiveNodata(args.dstNodata, chip.fill);
      destination.ReprojectSlices(chip, g.crs, dstTransform, dstCrs, nodata, args.resampling, warp);
      return Success(Reprojected(destination, dstTransform, dstCrs, nodata, args.onlyData));
  }
}
