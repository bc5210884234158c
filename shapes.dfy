/** Shapes of N-dimensional rasters: the named shape (`OrderedDict(zip(dims,
    shape))`), the rule that puts a window's height and width on the "y" and
    "x" axes and keeps every other axis, and the enumeration of all index
    tuples over the non-spatial axes (`itertools.product` of ranges). */
module Shapes {
  import opened Base

  /** The attributes of a raster (`GeoData`) that the core reads. */
  datatype Raster = Raster(dims: seq<string>, shape: seq<nat>)

  /** The invariant every raster keeps: one size per dimension name, no
      name twice, and the spatial axes "y" (rows) and "x" (columns) last. */
  predicate WellFormed(r: Raster)
  {
    && |r.dims| == |r.shape| >= 2
    && Distinct(r.dims)
    && r.dims[|r.dims| - 2] == "y" && r.dims[|r.dims| - 1] == "x"
  }

  /** No name occurs twice. */
  predicate Distinct(names: seq<string>)
  {
    forall i, j :: 0 <= i < j < |names| ==> names[i] != names[j]
  }

  /** `OrderedDict(zip(dims, shape))`: pairs are inserted in order, so a
      repeated name keeps its last size. */
  function NamedShape(dims: seq<string>, shape: seq<nat>): map<string, nat>
  {
    NamedPrefix(dims, shape, if |dims| < |shape| then |dims| else |shape|)
  }

  function NamedPrefix(dims: seq<string>, shape: seq<nat>, n: nat): (m: map<string, nat>)
    requires n <= |dims| && n <= |shape|
    ensures forall k :: k in m <==> k in dims[..n]
  {
    if n == 0 then map[] else NamedPrefix(dims, shape, n - 1)[dims[n - 1] := shape[n - 1]]
  }

  /** With distinct names, every name is mapped to its own size. */
  lemma {:induction false} NamedPrefixAt(dims: seq<string>, shape: seq<nat>, n: nat, i: nat)
    requires n <= |dims| && n <= |shape| && i < n
    requires Distinct(dims)
    ensures dims[i] in NamedPrefix(dims, shape, n) && NamedPrefix(dims, shape, n)[dims[i]] == shape[i]
  {
    var m := NamedPrefix(dims, shape, n - 1);
    assert NamedPrefix(dims, shape, n) == m[dims[n - 1] := shape[n - 1]];
    if i < n - 1 {
      NamedPrefixAt(dims, shape, n - 1, i);
      assert dims[i] != dims[n - 1];
    }
  }

  predicate HasSpatialAxes(r: Raster)
  {
    |r.dims| == |r.shape| && "x" in r.dims && "y" in r.dims
  }

  /** The shape of `r` once its "x" axis is `width` long and its "y" axis
      `height` long: `tuple([named_shape[s] if s not in ["x", "y"] else
      expected_shapes[s] for s in dims])`. */
  function WindowShape(r: Raster, width: nat, height: nat): seq<nat>
    requires |r.dims| == |r.shape|
  {
    var named := NamedShape(r.dims, r.shape);
    seq(|r.dims|, i requires 0 <= i < |r.dims| =>
      if r.dims[i] == "x" then width
      else if r.dims[i] == "y" then height
      else (assert r.dims[i] in named; named[r.dims[i]]))
  }

  /** One entry per dimension, in order: the window's width on "x", its
      height on "y", and the raster's own size on every other axis. */
  lemma WindowShapeRule(r: Raster, width: nat, height: nat)
    requires |r.dims| == |r.shape| && Distinct(r.dims)
    ensures |WindowShape(r, width, height)| == |r.dims|
    ensures forall i :: 0 <= i < |r.dims| ==>
      WindowShape(r, width, height)[i] ==
        if r.dims[i] == "x" then width else if r.dims[i] == "y" then height else r.shape[i]
  {
    forall i | 0 <= i < |r.dims|
      ensures WindowShape(r, width, height)[i] ==
        if r.dims[i] == "x" then width else if r.dims[i] == "y" then height else r.shape[i]
    {
      NamedPrefixAt(r.dims, r.shape, |r.dims|, i);
    }
  }

  /** For a well-formed raster the window shape is the leading shape
      followed by (height, width). */
  lemma WindowShapeOfWellFormed(r: Raster, width: nat, height: nat)
    requires WellFormed(r)
    ensures WindowShape(r, width, height) == LeadingShape(r) + [height, width]
  {
    WindowShapeRule(r, width, height);
    var n := |r.dims|;
    forall i | 0 <= i < n - 2 ensures r.dims[i] != "x" && r.dims[i] != "y" {
      assert r.dims[i] != r.dims[n - 2] && r.dims[i] != r.dims[n - 1];
    }
  }

  /** The keys of `OrderedDict(zip(dims, ...))` in iteration order: a name
      that occurs again keeps the position of its first insertion. */
  function Keys(dims: seq<string>): (k: seq<string>)
    ensures Distinct(k) && |k| <= |dims|
    ensures forall s :: s in k <==> s in dims
  {
    if dims == [] then []
    else
      var init := dims[..|dims| - 1];
      var last := dims[|dims| - 1];
      var k := Keys(init);
      assert dims == init + [last];
      if last in k then k else k + [last]
  }

  /** Without repeated names the keys are the names themselves. */
  lemma {:induction false} KeysOfDistinct(dims: seq<string>)
    requires Distinct(dims)
    ensures Keys(dims) == dims
  {
    if dims != [] {
      var n := |dims|;
      var init := dims[..n - 1];
      assert Distinct(init);
      KeysOfDistinct(init);
      assert dims[n - 1] !in init by {
        forall i | 0 <= i < |init| ensures init[i] != dims[n - 1] {
          assert init[i] == dims[i];
        }
      }
      assert dims == init + [dims[n - 1]];
    }
  }

  /** The output shape of `read_reproject`: one entry per key of the named
      shape, the window's width on "x", its height on "y", and the named
      size on every other key. */
  function NamedWindowShape(r: Raster, width: nat, height: nat): (s: seq<nat>)
    requires |r.dims| == |r.shape|
    ensures |s| == |Keys(r.dims)|
  {
    var named := NamedShape(r.dims, r.shape);
    var keys := Keys(r.dims);
    seq(|keys|, i requires 0 <= i < |keys| => (assert keys[i] in r.dims; AxisSize(named, keys[i], width, height)))
  }

  function AxisSize(named: map<string, nat>, name: string, width: nat, height: nat): nat
    requires name == "x" || name == "y" || name in named
  {
    if name == "x" then width else if name == "y" then height else named[name]
  }

  /** With distinct names it is the shape built from the names in order. */
  lemma NamedWindowShapeOfDistinct(r: Raster, width: nat, height: nat)
    requires |r.dims| == |r.shape| && Distinct(r.dims)
    ensures NamedWindowShape(r, width, height) == WindowShape(r, width, height)
  {
    KeysOfDistinct(r.dims);
  }

  /** A repeated name is a single key holding its last size: dimensions
      ["b", "b", "y", "x"] of sizes [2, 3, 10, 10] give a rank-3 output. */
  lemma RepeatedNameIsOneAxis(width: nat, height: nat)
    ensures NamedWindowShape(Raster(["b", "b", "y", "x"], [2, 3, 10, 10]), width, height) == [3, height, width]
  {
    var dims, shape := ["b", "b", "y", "x"], [2, 3, 10, 10];
    KeysOfRepeated();
    NamedOfRepeated();
    var keys := Keys(dims);
    var named := NamedShape(dims, shape);
    assert keys[0] == "b" && "b" != "x" && "b" != "y" by { assert "b"[0] == 'b'; }
    assert AxisSize(named, keys[0], width, height) == 3;
  }

  lemma KeysOfRepeated()
    ensures Keys(["b", "b", "y", "x"]) == ["b", "y", "x"]
  {
    var b: string, y: string, x: string := "b", "y", "x";
    assert b != y && b != x && y != x by {
      assert b[0] == 'b' && y[0] == 'y' && x[0] == 'x';
    }
    assert [b][..0] == [];
    assert Keys([b]) == [b];
    assert [b, b][..1] == [b];
    assert Keys([b, b]) == [b];
    assert [b, b, y][..2] == [b, b];
    assert Keys([b, b, y]) == [b, y];
    assert [b, b, y, x][..3] == [b, b, y];
  }

  lemma NamedOfRepeated()
    ensures var m := NamedShape(["b", "b", "y", "x"], [2, 3, 10, 10]); "b" in m && m["b"] == 3
  {
    var dims, shape := ["b", "b", "y", "x"], [2, 3, 10, 10];
    assert "b" != "y" && "b" != "x" by {
      assert "b"[0] == 'b' && "y"[0] == 'y' && "x"[0] == 'x';
    }
    var m2 := NamedPrefix(dims, shape, 2);
    assert m2["b"] == 3;
    assert NamedPrefix(dims, shape, 4) == m2["y" := 10]["x" := 10];
  }

  /** The sizes of the non-spatial axes of a well-formed raster. */
  function LeadingShape(r: Raster): seq<nat>
    requires WellFormed(r)
  {
    r.shape[..|r.shape| - 2]
  }

  /** `[s for ns, s in named_shape.items() if ns not in ["x", "y"]]`: the
      sizes of the non-spatial keys of the named shape, in key order. */
  function NonSpatialSizes(dims: seq<string>, shape: seq<nat>): seq<nat>
    requires |dims| == |shape|
  {
    KeySizes(Keys(dims), NamedShape(dims, shape))
  }

  /** The sizes `named` gives the keys other than "x" and "y", in order. */
  function KeySizes(keys: seq<string>, named: map<string, nat>): seq<nat>
    requires forall k :: k in keys ==> k in named
  {
    if keys == [] then []
    else (if keys[0] == "x" || keys[0] == "y" then [] else [named[keys[0]]]) + KeySizes(keys[1..], named)
  }

  lemma {:induction false} KeySizesOfPlain(keys: seq<string>, named: map<string, nat>, sizes: seq<nat>)
    requires |keys| == |sizes|
    requires forall i :: 0 <= i < |keys| ==> keys[i] != "x" && keys[i] != "y" && keys[i] in named && named[keys[i]] == sizes[i]
    ensures KeySizes(keys, named) == sizes
  {
    if keys != [] {
      KeySizesOfPlain(keys[1..], named, sizes[1..]);
    }
  }

  lemma {:induction false} KeySizesAppend(k1: seq<string>, k2: seq<string>, named: map<string, nat>)
    requires forall k :: k in k1 + k2 ==> k in named
    ensures KeySizes(k1 + k2, named) == KeySizes(k1, named) + KeySizes(k2, named)
  {
    if k1 != [] {
      assert (k1 + k2)[0] == k1[0] && (k1 + k2)[1..] == k1[1..] + k2;
      KeySizesAppend(k1[1..], k2, named);
    } else {
      assert k1 + k2 == k2;
    }
  }

  /** A repeated name gives a single range, of its last size: the
      dimensions ["b", "b", "y", "x"] of sizes [2, 3, 10, 10] are iterated
      over one range of 3. */
  lemma RepeatedNameIsOneRange()
    ensures NonSpatialSizes(["b", "b", "y", "x"], [2, 3, 10, 10]) == [3]
  {
    var dims, shape := ["b", "b", "y", "x"], [2, 3, 10, 10];
    KeysOfRepeated();
    NamedOfRepeated();
    var named := NamedShape(dims, shape);
    var b: string, y: string, x: string := "b", "y", "x";
    assert b != y && b != x by { assert b[0] == 'b' && y[0] == 'y' && x[0] == 'x'; }
    assert [b, y, x][1..] == [y, x] && [y, x][1..] == [x] && [x][1..] == [];
    assert KeySizes([x], named) == [];
    assert KeySizes([y, x], named) == [];
  }

  /** For a well-formed raster the non-spatial sizes are the leading shape. */
  lemma NonSpatialIsLeading(r: Raster)
    requires WellFormed(r)
    ensures NonSpatialSizes(r.dims, r.shape) == LeadingShape(r)
  {
    var n := |r.dims|;
    var lead := r.dims[..n - 2];
    var named := NamedShape(r.dims, r.shape);
    assert r.dims == lead + ["y", "x"];
    assert forall k :: k in r.dims ==> k in named by {
      assert r.dims[..n] == r.dims;
    }
    calc {
      NonSpatialSizes(r.dims, r.shape);
      KeySizes(Keys(r.dims), named);
      { KeysOfDistinct(r.dims); }
      KeySizes(lead + ["y", "x"], named);
      { KeySizesAppend(lead, ["y", "x"], named); }
      KeySizes(lead, named) + KeySizes(["y", "x"], named);
      { LeadKeySizes(r); SpatialKeySizes(named); }
      r.shape[..n - 2];
    }
  }

  /** The named sizes of the leading names are the leading sizes. */
  lemma LeadKeySizes(r: Raster)
    requires WellFormed(r)
    ensures var n := |r.dims|;
            KeySizes(r.dims[..n - 2], NamedShape(r.dims, r.shape)) == r.shape[..n - 2]
  {
    var n := |r.dims|;
    var lead := r.dims[..n - 2];
    var named := NamedShape(r.dims, r.shape);
    forall i | 0 <= i < |lead|
      ensures lead[i] != "x" && lead[i] != "y" && lead[i] in named && named[lead[i]] == r.shape[..n - 2][i]
    {
      assert lead[i] == r.dims[i];
      assert r.dims[i] != r.dims[n - 2] && r.dims[i] != r.dims[n - 1];
      NamedPrefixAt(r.dims, r.shape, n, i);
    }
    KeySizesOfPlain(lead, named, r.shape[..n - 2]);
  }

  lemma SpatialKeySizes(named: map<string, nat>)
    requires "y" in named && "x" in named
    ensures KeySizes(["y", "x"], named) == []
  {
    assert ["y", "x"][1..] == ["x"] && ["x"][1..] == [];
    assert KeySizes(["x"], named) == [];
  }

  // ---------------------------------------------------------------------
  // Index tuples over the non-spatial axes

  /** `itertools.product(range(sizes[0]), range(sizes[1]), ...)`: for each
      value of the first index, every tuple of the remaining ones. */
  function Tuples(sizes: seq<nat>): seq<seq<nat>>
    decreases |sizes|, 0
  {
    if sizes == [] then [[]] else PrependEach(sizes[0], Tuples(sizes[1..]))
  }

  function PrependEach(n: nat, rest: seq<seq<nat>>): (r: seq<seq<nat>>)
    ensures |r| == n * |rest|
  {
    if n == 0 then [] else PrependEach(n - 1, rest) + seq(|rest|, j requires 0 <= j < |rest| => [n - 1] + rest[j])
  }

  predicate InRange(t: seq<nat>, sizes: seq<nat>)
  {
    |t| == |sizes| && forall i :: 0 <= i < |t| ==> t[i] < sizes[i]
  }

  /** Row-major position of an index tuple: the flat slice number numpy
      addresses when it indexes by that tuple. */
  function Rank(t: seq<nat>, sizes: seq<nat>): nat
    requires |t| == |sizes|
  {
    if t == [] then 0 else t[0] * Prod(sizes[1..]) + Rank(t[1..], sizes[1..])
  }

  /** Strict lexicographic order, first index most significant. */
  predicate LexLess(t: seq<nat>, u: seq<nat>)
    requires |t| == |u|
  {
    |t| > 0 && (t[0] < u[0] || (t[0] == u[0] && LexLess(t[1..], u[1..])))
  }

  lemma {:induction false} PrependEachAt(n: nat, rest: seq<seq<nat>>, i: nat, j: nat)
    requires i < n && j < |rest|
    ensures i * |rest| + j < n * |rest|
    ensures PrependEach(n, rest)[i * |rest| + j] == [i] + rest[j]
  {
    MulStep(i, n, |rest|);
    if i < n - 1 {
      PrependEachAt(n - 1, rest, i, j);
    } else {
      assert i * |rest| == |PrependEach(n - 1, rest)|;
    }
  }

  lemma {:induction false} TuplesLength(sizes: seq<nat>)
    ensures |Tuples(sizes)| == Prod(sizes)
    decreases |sizes|
  {
    if sizes != [] {
      TuplesLength(sizes[1..]);
    }
  }

  /** A tuple's rank is below the number of tuples. */
  lemma {:induction false} RankBound(t: seq<nat>, sizes: seq<nat>)
    requires InRange(t, sizes)
    ensures Rank(t, sizes) < Prod(sizes)
    decreases |sizes|
  {
    if t != [] {
      RankBound(t[1..], sizes[1..]);
      MulStep(t[0], sizes[0], Prod(sizes[1..]));
    }
  }

  /** Splits a position below n * m into a block number and an offset. */
  lemma DivMod(k: nat, m: nat, n: nat) returns (i: nat, j: nat)
    requires k < n * m
    ensures i < n && j < m && k == i * m + j
  {
    assert m > 0;
    i, j := k / m, k % m;
    assert k == i * m + j;
    MulCancel(i, n, m);
  }

  lemma MulCancel(i: nat, n: nat, m: nat)
    requires i * m < n * m
    ensures i < n
  {
    if n <= i {
      MulMono(n, i, m);
    }
  }

  /** Mixed-radix digits: a smaller number has a head digit no larger. */
  lemma HeadOrder(x: nat, rx: nat, y: nat, ry: nat, p: nat)
    requires rx < p && ry < p && x * p + rx < y * p + ry
    ensures x <= y
  {
    if y < x {
      MulMono(y + 1, x, p);
    }
  }

  lemma MulMono(n: nat, i: nat, m: nat)
    requires n <= i
    ensures n * m <= i * m
  {
  }

  /** Every tuple in range occurs in the enumeration, at its rank. */
  lemma {:induction false} TuplesAtRank(t: seq<nat>, sizes: seq<nat>)
    requires InRange(t, sizes)
    ensures Rank(t, sizes) < |Tuples(sizes)| && Tuples(sizes)[Rank(t, sizes)] == t
    decreases |sizes|
  {
    TuplesLength(sizes);
    RankBound(t, sizes);
    if t != [] {
      var rest := Tuples(sizes[1..]);
      TuplesAtRank(t[1..], sizes[1..]);
      TuplesLength(sizes[1..]);
      PrependEachAt(sizes[0], rest, t[0], Rank(t[1..], sizes[1..]));
      assert [t[0]] + t[1..] == t;
    }
  }

  /** The tuple at position k is in range and has rank k. */
  lemma {:induction false} RankOfTuplesAt(sizes: seq<nat>, k: nat)
    requires k < |Tuples(sizes)|
    ensures InRange(Tuples(sizes)[k], sizes) && Rank(Tuples(sizes)[k], sizes) == k
    decreases |sizes|
  {
    TuplesLength(sizes);
    if sizes != [] {
      var rest := Tuples(sizes[1..]);
      var m := |rest|;
      TuplesLength(sizes[1..]);
      var i, j := DivMod(k, m, sizes[0]);
      PrependEachAt(sizes[0], rest, i, j);
      RankOfTuplesAt(sizes[1..], j);
      var t := Tuples(sizes)[k];
      assert t == [i] + rest[j];
      assert t[1..] == rest[j];
    }
  }

  /** Each index tuple in range is visited exactly once: it occurs in the
      enumeration, and no two positions hold the same tuple. */
  lemma TuplesExactlyOnce(sizes: seq<nat>)
    ensures |Tuples(sizes)| == Prod(sizes)
    ensures forall t :: t in Tuples(sizes) <==> InRange(t, sizes)
    ensures forall i, j :: 0 <= i < j < |Tuples(sizes)| ==> Tuples(sizes)[i] != Tuples(sizes)[j]
  {
    TuplesLength(sizes);
    forall t | InRange(t, sizes) ensures t in Tuples(sizes) {
      TuplesAtRank(t, sizes);
    }
    forall t | t in Tuples(sizes) ensures InRange(t, sizes) {
      var k :| 0 <= k < |Tuples(sizes)| && Tuples(sizes)[k] == t;
      RankOfTuplesAt(sizes, k);
    }
    forall i, j | 0 <= i < j < |Tuples(sizes)| ensures Tuples(sizes)[i] != Tuples(sizes)[j] {
      RankOfTuplesAt(sizes, i);
      RankOfTuplesAt(sizes, j);
    }
  }

  /** Between tuples in range, a smaller rank means lexicographically
      smaller. */
  lemma {:induction false} RankOrder(t: seq<nat>, u: seq<nat>, sizes: seq<nat>)
    requires InRange(t, sizes) && InRange(u, sizes)
    requires Rank(t, sizes) < Rank(u, sizes)
    ensures LexLess(t, u)
    decreases |sizes|
  {
    var p := Prod(sizes[1..]);
    RankBound(t[1..], sizes[1..]);
    RankBound(u[1..], sizes[1..]);
    HeadOrder(t[0], Rank(t[1..], sizes[1..]), u[0], Rank(u[1..], sizes[1..]), p);
    if t[0] == u[0] {
      RankOrder(t[1..], u[1..], sizes[1..]);
    }
  }

  /** The enumeration is in strictly increasing lexicographic order, the
      outermost (first declared) axis varying slowest. */
  lemma TuplesLexOrdered(sizes: seq<nat>, i: nat, j: nat)
    requires i < j < |Tuples(sizes)|
    ensures InRange(Tuples(sizes)[i], sizes) && InRange(Tuples(sizes)[j], sizes)
    ensures LexLess(Tuples(sizes)[i], Tuples(sizes)[j])
  {
    RankOfTuplesAt(sizes, i);
    RankOfTuplesAt(sizes, j);
    RankOrder(Tuples(sizes)[i], Tuples(sizes)[j], sizes);
  }
}
