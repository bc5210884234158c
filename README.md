# georeader core, modelled in Dafny

georeader reads rectangular chips out of large raster datasets. A chip is addressed by geographic coordinates, and the reader can reproject or resample it. This project models the deterministic bookkeeping around the library calls:

- **CRS comparison.** CRS identifiers are compared after dropping every `+init=` and lower-casing.
- **Windows from geography.** A pixel window is computed from a centre point, with its offsets rounded by Python's half-to-even `round`, or from bounds, where `from_bounds` gives the window without rounding.
- **Boundless reads.** A read whose window lies outside the raster gives no data or a synthesised array full of the fill value. Any other read is delegated to the dataset.
- **The reprojection driver** `read_reproject`:
  - the output grid and window;
  - the fast path back to a plain read;
  - the defaults of the destination CRS, dtype and nodata;
  - a zero-filled destination array, written slice by slice by one warp call per index tuple of the non-spatial axes, in `itertools.product` order.
- **`resize`:**
  - the target resolution;
  - the default output window, `ceil(round(n * scale, 3))`;
  - the anti-aliasing decision and its default sigma;
  - the in-place Gaussian filtering of every 2-D slice.
- **In `setup.py`:** the `__version__` line scan, the requirement-file line filter, and the optional dependency groups.

N-dimensional arrays are flat row-major `array<real>` values.

- **Mutable objects are classes.** The reprojection destination and the in-memory `GeoTensor` are classes whose methods write the array in place.
- **Both per-slice loops share one method.** `Slices.ForEachSlice` is proved against the specification function `Slices.SliceMap`.
- **The lemmas about `Shapes.Tuples`** show that the loop visits every index tuple exactly once, in lexicographic order.

Collaborators outside the core become function-valued parameters:

- rasterio's point and bounds transforms;
- `from_bounds` followed by rounding;
- `window_bounds`, `_is_exact_round`, `round_offsets` and `figure_out_transform`;
- the `reproject` primitive;
- scipy's `gaussian_filter`;
- the padded chip read that `read_reproject` performs.

The modules follow the source:

| module | what it holds |
|---|---|
| `Base` | `Option`/`Result`, Python's error kinds, products and flattening of blocks |
| `Text` | ASCII `startswith`, `in`, `replace`, `lower`, `strip`, `split(sep)[1]` |
| `Crs` | `_normalize_crs` and `compare_crs` |
| `Rounding` | `round`, `round(x, 3)`, `ceil` and `_round_all` |
| `Windows` | affine maps, `window_from_center_coords`, `window_from_bounds`, window intersection and window transform |
| `Shapes` | named shapes, the x/y replacement rule, and `itertools.product` with its row-major rank |
| `Slices` | the in-place slice-by-slice loop |
| `ReadWindow` | `read_from_window` |
| `Reproject` | `read_reproject` |
| `Resize` | `resize` |
| `Setup` | `setup.py` |

Two behaviours of the code are easy to misread:

- **Destination nodata.** Line 409 of georeader/read.py uses Python's `or`, so an explicit `dst_nodata=0` falls back to the chip's fill value, like a missing one (`Reproject.EffectiveNodata`).
- **Filtering by rank.** Lines 307-317 filter every rank other than 3 and 4 as one array, and no rank is rejected (`Resize.FilterLead`).

The model follows the code everywhere except in one place: the default sigma of `resize`. Line 304 computes a sigma that is zero on every axis the filter is meant to smooth. `Resize.PlanResize` uses the documented default instead, and the code's own default is modelled beside it (see "## Findings").

## Model

| member | source | states |
|---|---|---|
| `Crs.NormalizeCrs` | georeader/read.py:22-26 | normalisation never lengthens an identifier, shortens it exactly when it holds a `+init=` marker, and leaves no upper-case letter |
| `Crs.CompareCrs` | georeader/read.py:29-30 | two identifiers compare equal when their normalised forms are equal (characterised by `Crs.CompareCrsIff`) |
| `Crs.NormalizeRemovesThenLowers` | georeader/read.py:22-26 | normalisation removes every `+init=`, then lower-cases; the `in` guard before `replace` changes nothing |
| `Crs.CompareCrsIff` | georeader/read.py:29-30 | two CRS strings compare equal exactly when their marker-free, lower-cased forms are equal |
| `Crs.CompareCrsIsEquivalence` | georeader/read.py:29-30 | the comparison is reflexive, symmetric and transitive |
| `Crs.LegacyPrefixIgnored` | georeader/read.py:22-30 | `+init=` in front of an identifier does not change what it compares equal to |
| `Crs.CaseInsensitiveWithoutMarker` | georeader/read.py:22-30 | for identifiers with no marker in any case, the comparison is case-insensitive equality |
| `Crs.UpperCaseMarkerIsKept` | georeader/read.py:24-26 | an upper-case `+INIT=` is not removed (removal happens before lower-casing), so it survives as `+init=` and the comparison with the bare name fails |
| `Crs.NormalizeNotIdempotent` | georeader/read.py:22-26 | normalising twice can differ from normalising once |
| `Text.ReplaceAbsent` | georeader/read.py:24-25 | `replace` of a pattern that does not occur returns the string unchanged |
| `Text.RemoveShrinks` | georeader/read.py:24-25 | removing a pattern never lengthens a string, and shortens it exactly when the pattern occurs |
| `Text.Lower` | georeader/read.py:26 | `lower` keeps the length |
| `Text.LowerIdempotent` | georeader/read.py:26 | lower-casing twice is lower-casing once, and leaves no upper-case letter |
| `Text.Strip` | setup.py:16 | `strip` returns an infix surrounded by white space only, and the result neither starts nor ends with white space |
| `Text.StripIdempotent` | setup.py:16 | a stripped string has nothing left to strip |
| `Text.StripSpaces` | setup.py:16 | a string of white space only strips to "" |
| `Text.SecondField` | setup.py:42 | `split(sep)[1]`: none exactly when `sep` does not occur; otherwise the text after the first `sep` up to the next `sep` or the end, which holds no `sep` |
| `Rounding.RoundHalfEven` | georeader/read.py:19 | `round(x)` is within 0.5 of `x` and even on a tie |
| `Rounding.RoundHalfEvenUnique` | georeader/read.py:19 | those two properties determine the rounded integer |
| `Rounding.RoundOfInteger` | georeader/read.py:19 | an integer rounds to itself |
| `Rounding.RoundAll` | georeader/read.py:18-20 | `_round_all` rounds each component, ties to even, keeping the length |
| `Rounding.Ceil` | georeader/read.py:297 | `ceil(x)` is the integer in `[x, x + 1)` |
| `Rounding.Round3` | georeader/read.py:296 | `round(x, 3)` is within half a thousandth of `x` |
| `Rounding.CeilOfRounded` | georeader/read.py:296-297 | `ceil(round(x, 3))` lies in `[x - 0.0005, x + 1.0005)` |
| `Rounding.CeilOfRoundedNearInteger` | georeader/read.py:295-297 | a product within half a thousandth of an integer gives that integer, so an exact product is not rounded up |
| `Rounding.CeilOfRoundedNonNegative` | georeader/read.py:296-297 | a non-negative length gives a non-negative size |
| `Windows.InverseApply` | georeader/read.py:91 | `~transform * p` fails exactly on a singular transform; otherwise the transform maps the result back to `p` |
| `Windows.InverseCorrect` | georeader/read.py:91 | the inverse formula solves the affine system on both axes |
| `Windows.InverseRectilinear` | georeader/read.py:91 | on a rectilinear transform each axis is inverted on its own |
| `Windows.WindowFromCenterCoords` | georeader/read.py:67-103 | the width is `shape[1]` and the height `shape[0]`; the offsets are the half-to-even rounding of `px - W/2` and `py - H/2`, with the centre first moved into the raster's CRS when its CRS compares unequal; failure only for a singular transform |
| `Windows.CenterWindowIsCentred` | georeader/read.py:91-102 | the window's offsets are whole numbers and its centre is within half a pixel of the requested centre pixel |
| `Windows.PointInCrs` | georeader/read.py:85-86 | a point is transformed into the raster's CRS only when its own CRS is given and compares unequal (partner: `Windows.CenterSameCrs`) |
| `Windows.CenterSameCrs` | georeader/read.py:85-86 | a centre in a CRS that compares equal is not transformed |
| `Windows.WindowFromBounds` | georeader/read.py:41-64 | bounds in a CRS that compares unequal are transformed first; otherwise they are used as given |
| `Windows.BoundsSameCrs` | georeader/read.py:56-61 | bounds in an equal-comparing CRS give the same window as bounds without a CRS |
| `Windows.Intersects` | georeader/read.py:136 | two windows intersect when they share a region of positive area on both axes (partners: `Windows.IntersectsSymmetric`, `Windows.DisjointOutside`) |
| `Windows.IntersectsSymmetric` | georeader/read.py:136 | window intersection does not depend on the argument order |
| `Windows.DisjointOutside` | georeader/read.py:136 | a window past any edge of the extent does not intersect it |
| `Windows.WindowTransform` | georeader/read.py:150 | the window's transform keeps pixel size and rotation, and its origin is the window's corner |
| `Windows.WindowTransformShifts` | georeader/read.py:150 | pixel (c, r) of the window is pixel (c + colOff, r + rowOff) of the raster |
| `Shapes.NamedShape` | georeader/read.py:127 | `OrderedDict(zip(dims, shape))`, inserting pairs in order so that a repeated name keeps its last size (partners: `Shapes.NamedPrefix`, `Shapes.NamedPrefixAt`) |
| `Shapes.NamedPrefix` | georeader/read.py:127 | the keys of `OrderedDict(zip(dims, shape))` are the dimension names |
| `Shapes.NamedPrefixAt` | georeader/read.py:127-130 | with distinct names, each name maps to its own size |
| `Shapes.WindowShape` | georeader/read.py:141 | the synthesised shape of `read_from_window`, one entry per name in `dims` (characterised by `Shapes.WindowShapeRule`) |
| `Shapes.Keys` | georeader/read.py:127 | the keys of the named shape come without repetition and are exactly the dimension names |
| `Shapes.KeysOfDistinct` | georeader/read.py:127 | without repeated names the keys are the names in order |
| `Shapes.NamedWindowShape` | georeader/read.py:395-396 | the output shape of `read_reproject` has one entry per key of the named shape |
| `Shapes.NamedWindowShapeOfDistinct` | georeader/read.py:396 | with distinct names, the shape built from the keys equals the shape built from `dims` |
| `Shapes.RepeatedNameIsOneAxis` | georeader/read.py:396 | with `dims` ["b", "b", "y", "x"] and sizes [2, 3, 10, 10] the output has rank 3 and its first axis has size 3 |
| `Shapes.WindowShapeRule` | georeader/read.py:140-141 | one entry per dimension in `dims` order: "x" gets the window width, "y" its height, every other dimension keeps its size |
| `Shapes.WindowShapeOfWellFormed` | georeader/read.py:395-396 | for a raster ending in ("y", "x"), the window shape is the leading shape followed by (height, width) |
| `Shapes.NonSpatialSizes` | georeader/read.py:411 | the sizes of the keys of the named shape other than "x" and "y", in key order (partner: `Shapes.NonSpatialIsLeading`) |
| `Shapes.RepeatedNameIsOneRange` | georeader/read.py:411 | with `dims` ["b", "b", "y", "x"] and sizes [2, 3, 10, 10] a single range of size 3 is iterated |
| `Shapes.NonSpatialIsLeading` | georeader/read.py:411 | the ranges `read_reproject` iterates over are the sizes of the non-spatial axes |
| `Shapes.Tuples` | georeader/read.py:416 | `itertools.product` of the ranges, first index outermost (partners: `Shapes.TuplesExactlyOnce`, `Shapes.TuplesLexOrdered`) |
| `Shapes.TuplesLength` | georeader/read.py:416 | `itertools.product` yields as many tuples as the product of the sizes |
| `Shapes.RankBound` | georeader/read.py:418-421 | the flat slice number of a tuple in range is below the number of slices |
| `Shapes.TuplesAtRank` | georeader/read.py:416-418 | every tuple in range is produced, at the position of its row-major rank |
| `Shapes.RankOfTuplesAt` | georeader/read.py:416-421 | the tuple at position k is in range and addresses slice k |
| `Shapes.TuplesExactlyOnce` | georeader/read.py:411-418 | the tuples produced are exactly the tuples in range, with no repetition |
| `Shapes.RankOrder` | georeader/read.py:416 | a smaller rank means a lexicographically smaller tuple |
| `Shapes.TuplesLexOrdered` | georeader/read.py:416 | tuples come in strictly increasing lexicographic order, first axis outermost |
| `Slices.SliceMap` | georeader/read.py:416-432 | the array after the per-slice loop: each slice replaced by `f` of its index tuple and old content (characterised by `Slices.SliceMapAt`) |
| `Slices.SliceMapAt` | georeader/read.py:420-432 | after the loop, the slice a tuple addresses holds `f` of the tuple and of that slice's old content, so no other write touches it |
| `Slices.SliceMapWhole` | georeader/read.py:315-317 | with no leading axes the loop is a single call on the whole array |
| `Slices.WriteSlice` | georeader/read.py:421-432 | writing a slice replaces exactly `len(values)` elements at the offset and nothing else |
| `Slices.RewriteNext` | georeader/read.py:418-432 | one iteration reads slice k, applies `f` and writes the result back, extending the finished prefix by one slice |
| `Slices.ForEachSlice` | georeader/read.py:416-432 | the loop visits `Tuples(lead)` in order and leaves the array equal to `SliceMap` of its old content |
| `ReadWindow.DataWindow` | georeader/read.py:129-130 | the raster's extent starts at pixel (0, 0) |
| `ReadWindow.FillValue` | georeader/read.py:143 | the fill value, 0 when the raster has none |
| `ReadWindow.DataWindowOfWellFormed` | georeader/read.py:127-130 | the raster's extent is `Window(0, 0, W, H)` with W and H its last two sizes |
| `ReadWindow.Full` | georeader/read.py:142-145 | `np.zeros` followed by `+= fill` gives a fresh array whose every element is the fill value |
| `ReadWindow.ReadFromWindow` | georeader/read.py:106-162 | no data exactly when the window misses the extent and the read is not boundless; a synthesised array exactly when it misses and the read is boundless, shaped by the x/y rule, every element the fill value (0 by default), and georeferenced by the window's transform unless only data is asked for; otherwise the read is delegated, loading only when asked to and when not returning bare data |
| `ReadWindow.FarChipWindow` | georeader/read.py:67-103 | a 4 x 4 chip centred at (1000, 1000) under the identity transform starts at pixel (998, 998) |
| `ReadWindow.FarChipIsOutside` | georeader/read.py:129-141 | that chip misses a 10 x 10 single-band raster, and a boundless read of it has shape (1, 4, 4) |
| `Reproject.PlanReproject` | georeader/read.py:356-397 | fails with the transform helper's error when that helper fails, and otherwise with the assertion message exactly when both `window_out` and `bounds` are absent; reads directly exactly when the fast-path predicate holds; otherwise warps onto the computed grid with `dst_crs` defaulting to the source CRS, the dtype defaulting to the source's (and then casting), and the output shape given by the x/y rule over the keys of the named shape |
| `Reproject.FastPath` | georeader/read.py:377-385 | the direct read is taken when the CRS compares equal, pixel size and rotation agree, and the window on the raster's grid has whole offsets and the output's size (partners: `Reproject.OwnGridIsRead`, `Reproject.OtherCrsIsWarped`) |
| `Reproject.OutWindow` | georeader/read.py:363-367 | the output window is the given one, or the ceiling-rounded window of the bounds on the output grid |
| `Reproject.OwnGridIsRead` | georeader/read.py:377-387 | the raster's own CRS and grid, with a window that maps back exactly, takes the direct read of the floored window |
| `Reproject.OtherCrsIsWarped` | georeader/read.py:373-377 | a destination CRS that compares unequal is always warped into that CRS |
| `Reproject.WarpShape` | georeader/read.py:395-396 | the warp output is the non-spatial sizes followed by `window_out`'s height and width |
| `Reproject.EffectiveNodata` | georeader/read.py:409 | the effective nodata is the chip's fill value or the argument, and it differs from the fill value only for a non-zero argument |
| `Reproject.ZeroNodataFallsBack` | georeader/read.py:409 | a `dst_nodata` of 0, like none at all, falls back to the chip's fill value |
| `Reproject.NonZeroNodataIsKept` | georeader/read.py:409 | a non-zero `dst_nodata` is kept |
| `Reproject.SourceSlice` | georeader/read.py:420 | `np_array_in[i_sel_tuple]` is the chip's block at the tuple's rank |
| `Reproject.WarpStepKeepsSize` | georeader/read.py:421-432 | each warp call rewrites its destination slice in place, keeping its size |
| `Reproject.Destination.Shape` | georeader/read.py:395-397 | the destination holds as many values as the product of its shape |
| `Reproject.Destination.constructor` | georeader/read.py:397 | the destination starts zero-filled, with no warp call made |
| `Reproject.Destination.ReprojectSlices` | georeader/read.py:411-432 | one warp call per index tuple, in `itertools.product` order, with each destination slice rewritten from the matching source slice |
| `Reproject.WarpedSliceAt` | georeader/read.py:397-432 | each slice of the finished destination is the warp of its source slice into a zero slice, with the effective nodata |
| `Reproject.ReadReproject` | georeader/read.py:326-438 | follows the plan: its failure is the plan's; a direct plan is a boundless, non-loading read that always gives an array; a warp plan allocates a fresh zero-filled destination, warps every slice once in order, and returns it with the output transform, CRS and effective nodata |
| `Resize.DstResolution` | georeader/read.py:285-286 | a scalar resolution becomes `(abs(r), abs(r))`; a pair is kept |
| `Resize.ScalarResolutionIsSquare` | georeader/read.py:285-286 | a scalar resolution is square and non-negative, whatever its sign |
| `Resize.Scale` | georeader/read.py:288 | the scale is `res_or / res_dst` per axis, failing with `ZeroDivisionError` exactly for a zero target |
| `Resize.DefaultWindow` | georeader/read.py:290-298 | the default output window, `ceil(round(n * scale, 3))` on each spatial axis (partners: `Resize.DefaultWindowBounds`, `Resize.DefaultWindowExact`) |
| `Resize.Filters` | georeader/read.py:300 | filtering happens exactly when anti-aliasing is on and some axis gets coarser |
| `Resize.DefaultWindowBounds` | georeader/read.py:290-298 | the default window starts at the origin, and each length lies within half a thousandth below to one pixel above the exact scaled length |
| `Resize.DefaultWindowExact` | georeader/read.py:295-298 | an (almost) integral scaled length is taken exactly, not rounded up |
| `Resize.DefaultSigmaAsWritten` | georeader/read.py:304 | the code's default sigma, `max(0, (scale - 1) / 2)`, is per axis and never negative |
| `Resize.AsWrittenSigmaIsZeroWhenShrinking` | georeader/read.py:300-304 | that default is 0 on every axis that gets coarser |
| `Resize.HalvingIsNotSmoothed` | georeader/read.py:288-304 | going from 10 to 20 units per pixel filters, and the code's default sigma there is (0, 0), where the documented one is (0.5, 0.5) |
| `Resize.DefaultSigma` | georeader/read.py:272-275 | the documented default `(s - 1) / 2`, with downsampling factor `s = 1 / scale`, is per axis, never negative, and positive exactly on an axis that gets coarser |
| `Resize.DefaultSigmaOfFactor` | georeader/read.py:272-275 | downsampling by a factor s gives sigma `(s - 1) / 2` |
| `Resize.PlanResize` | georeader/read.py:284-304 | the target resolution; zero-division exactly for a zero target; the given window or the default one; filtering exactly when asked and some axis gets coarser, with the given sigma or the documented default one (`Resize.DefaultSigma`, not line 304's) |
| `Resize.FilterLead` | georeader/read.py:306-317 | the filter loops over the first two axes for rank 4, the first axis for rank 3, and none for any other rank |
| `Resize.FilterSlice` | georeader/read.py:306-317 | the looped axes followed by the slice axes make up the whole shape |
| `Resize.FilterSplit` | georeader/read.py:306-317 | the array splits exactly into the filtered slices |
| `Resize.GeoTensor.AntiAlias` | georeader/read.py:306-317 | every slice over the looped axes is replaced, in place and in order, by the Gaussian filter of its old content |
| `Resize.FilteredSliceAt` | georeader/read.py:308-314 | after filtering, each slice is the filter of its own old content with the chosen sigma |
| `Resize.WholeArrayFiltered` | georeader/read.py:315-317 | for a rank other than 3 and 4 the filter sees the whole array once |
| `Resize.ReprojectArgsOf` | georeader/read.py:320-322 | `resize` reprojects onto the raster's own CRS and transform, with the new resolution and the output window, and no bounds, dtype or nodata |
| `Resize.ResizeNeverMissesSize` | georeader/read.py:320-322 | because `resize` always passes a window, the reprojection it asks for fails only when the transform helper fails, and with that helper's error |
| `Resize.Resize` | georeader/read.py:257-322 | fails exactly where the plan does and then changes nothing; otherwise it filters the values in place exactly when the plan says so, and returns the `read_reproject` arguments of the plan |
| `Setup.VersionDelimiter` | setup.py:41 | the delimiter is `"` exactly when the line holds one, and otherwise `'` |
| `Setup.VersionFromLine` | setup.py:41-42 | `IndexError` exactly when the line holds neither quote; otherwise a version free of the delimiter |
| `Setup.VersionOf` | setup.py:38-44 | the version of the first line starting with `__version__`, or `RuntimeError` when there is none (partners: `Setup.GetVersion`, `Setup.VersionNotFoundIff`) |
| `Setup.GetVersion` | setup.py:38-44 | the loop with an early return computes the version of the first `__version__` line, or `RuntimeError` |
| `Setup.FirstVersionLineDecides` | setup.py:39-42 | only the first line starting with `__version__` decides the result |
| `Setup.LaterLinesIgnored` | setup.py:39-42 | lines after a matching line never change the result |
| `Setup.VersionNotFoundIff` | setup.py:39-44 | `RuntimeError("Unable to find version string.")` exactly when no line starts with `__version__` |
| `Setup.QuotedField` | setup.py:42 | the text between the first two quotes is returned |
| `Setup.DoubleQuotedVersion` | setup.py:38-44 | `__version__ = "v"` gives `v` |
| `Setup.SingleQuotedVersion` | setup.py:38-44 | `__version__ = 'v'` gives `v` when `v` holds no quote |
| `Setup.ParseRequirements` | setup.py:16 | the stripped non-empty lines, in order (partners: `Setup.ParseRequirementsPerLine`, `Setup.ParseRequirementsDropsEmpty`) |
| `Setup.ParseRequirementsConcat` | setup.py:16 | the comprehension can be applied to the lines piece by piece |
| `Setup.ParseRequirementsPerLine` | setup.py:16 | with no empty line, there is one requirement per line, in order, each the stripped line |
| `Setup.ParseRequirementsDropsEmpty` | setup.py:16 | the result is shorter than the input by exactly the number of empty lines |
| `Setup.BlankLineGivesEmpty` | setup.py:16 | a line of white space passes the emptiness test and gives "" |
| `Setup.RequirementsAreStripped` | setup.py:16 | no requirement starts or ends with white space |
| `Setup.Extras` | setup.py:22-32 | the "all" group is the six requirement lists one after the other |
| `Setup.AllCoversGroups` | setup.py:6-24 | "all" holds every requirement of every optional group, in group order, 15 entries in all |
| `Setup.AllKeepsDuplicates` | setup.py:6-24 | duplicates are kept: "fsspec" occurs three times in "all" |

## Left out

- rasterio: point and bounds transforms, `from_bounds`, `round_lengths`, `round_offsets`, `transform` and `reproject` are function parameters with no behaviour of their own. The exception is `Windows.WindowTransform`, written out as the usual affine shift. Their code is not part of this model.
- `intersect` is given plain rectangle-overlap semantics (a shared region of positive area). rasterio's exact edge behaviour is not part of this model.
- The `window_utils` helpers `figure_out_transform`, `window_bounds`, `_is_exact_round`, `pad_window`, `round_outer_window` and `PIXEL_PRECISION` are parameters. Their source is not part of this model. `figure_out_transform` may fail (a `Result`), and its failure comes before the assertion at line 364. The other helpers are taken to be total.
- `read_from_center_coords`, `read_from_bounds` and `read_reproject_like` only compose modelled operations with the helpers above. They are not modelled on their own, and the padded chip that `read_from_bounds` returns is a parameter of `Reproject.ReadReproject`.
- Dataset I/O (`data_in.read_from_window`, `.load()`, `.values`) is returned as a description (`ReadWindow.Delegated`), not performed.
- `GeoTensor` construction from a result is left out. A result is a datatype value, or a `Destination` plus its georeferencing.
- Floating point is modelled by exact reals with explicit rounding functions. No IEEE behaviour (NaN, overflow, rounding error of `n * scale`) is modelled.
- dtypes are names only. `astype` casts and dtype-dependent truncation of the fill value are not modelled.
- `lower`, `isspace` and `strip` are restricted to ASCII.
- CRS objects are strings; `str(a_crs)` of a non-string CRS is not modelled.
- File reading in `setup.py` (`read`, `open`, `readlines`, `splitlines`) and the `setup()` call are packaging and I/O. Only the line processing is modelled.
- `Reproject.ReadReproject`: requires a well-formed raster, meaning one size per distinct dimension name with "y", "x" as the last two. It also requires that the chip reader returns a chip with the raster's non-spatial axes. The source assumes both without checking.
- `Reproject.ReadReproject`: for a direct plan it states only that the result is an array and, when delegated, the read's arguments. The synthesised case is stated by `ReadWindow.ReadFromWindow` and not repeated.
- `ReadWindow.ReadFromWindow`: requires "x" and "y" among the dimensions. Without them the source raises `KeyError`, which is not modelled.
- `Resize.PlanResize`: when no sigma is given it uses the documented default `max(0, (1/scale - 1)/2)` (`Resize.DefaultSigma`), not line 304's `max(0, (scale - 1)/2)` (`Resize.DefaultSigmaAsWritten`), so it does not state the sigma the code computes. For resolution 10 to 20 the code passes (0, 0) and the model (0.5, 0.5); see "## Findings".
- `Resize.PlanResize`: requires a positive source resolution and a non-negative pair target. The scaled lengths of the default window are taken to be non-negative, so negative resolutions, which would give negative lengths, are not modelled.
- `Resize.Resize`: filters with the documented default sigma of `Resize.PlanResize`, not line 304's, when no sigma is given.
- `Resize.Resize`: the same preconditions as `Resize.PlanResize`. It stops at the arguments it hands to `read_reproject`, which `Reproject.ReadReproject` models. `data_in.load()` is taken to return the tensor in hand, so its values are filtered in place.
- `Resize.GeoTensor.AntiAlias`: scipy rejects a two-element sigma on an array of rank other than 2. That error is not modelled; the filter is a total parameter.
- `Windows.WindowFromCenterCoords`: the shape is taken as a pair of natural numbers; non-integer or negative shapes are not modelled.

## Findings

| source | as written | input that shows it | evidently intended | confidence | as-written member | corrected member |
|---|---|---|---|---|---|---|
| georeader/read.py:304 | the default sigma is `max(0, (scale - 1) / 2)` with `scale = res_or / res_dst`, which is 0 on every axis that filtering is meant for (`scale < 1`) | resolution 10 to target 20 on both axes: filtering is chosen, then sigma is (0, 0), so the Gaussian filter does nothing | `(s - 1) / 2` with `s = 1 / scale` the downsampling factor, as documented at lines 272-275, which gives (0.5, 0.5) | not executed | `Resize.DefaultSigmaAsWritten` (shown by `Resize.HalvingIsNotSmoothed`) | `Resize.DefaultSigma` (used by `Resize.PlanResize`) |
