/** In-place, slice-by-slice rewriting of a flat row-major array: for every
    index tuple over the leading axes, in `itertools.product` order, the
    slice that tuple addresses is replaced by a function of the tuple and of
    the slice's current content. Both the reprojection loop and the
    anti-aliasing loops of georeader/read.py have this shape. */
module Slices {
  import opened Base
  import opened Shapes

  /** Slice `k` of `count` consecutive slices of `size` elements. */
  function Block(s: seq<real>, count: nat, size: nat, k: nat): (r: seq<real>)
    requires k < count && |s| == count * size
    ensures |r| == size
  {
    MulStep(k, count, size);
    s[k * size .. k * size + size]
  }

  /** `f` keeps the length of every slice, as an in-place write does. */
  ghost predicate KeepsSize(f: (seq<nat>, seq<real>) -> seq<real>, size: nat)
  {
    forall t, b :: |b| == size ==> |f(t, b)| == size
  }

  /** The new content of each slice, in enumeration order. */
  ghost function NewSlices(s: seq<real>, lead: seq<nat>, size: nat, f: (seq<nat>, seq<real>) -> seq<real>)
    : (r: seq<seq<real>>)
    requires |s| == Prod(lead) * size
    ensures |Tuples(lead)| == Prod(lead) && |r| == Prod(lead)
  {
    TuplesLength(lead);
    seq(Prod(lead), k requires 0 <= k < Prod(lead) => f(Tuples(lead)[k], Block(s, Prod(lead), size, k)))
  }

  lemma NewSlicesAt(s: seq<real>, lead: seq<nat>, size: nat, f: (seq<nat>, seq<real>) -> seq<real>, k: nat)
    requires |s| == Prod(lead) * size && k < Prod(lead)
    ensures |Tuples(lead)| == Prod(lead)
    ensures NewSlices(s, lead, size, f)[k] == f(Tuples(lead)[k], Block(s, Prod(lead), size, k))
  {
    TuplesLength(lead);
  }

  lemma NewSlicesKeepSize(s: seq<real>, lead: seq<nat>, size: nat, f: (seq<nat>, seq<real>) -> seq<real>)
    requires |s| == Prod(lead) * size && KeepsSize(f, size)
    ensures AllSize(NewSlices(s, lead, size, f), size)
  {
    forall k | 0 <= k < Prod(lead) ensures |NewSlices(s, lead, size, f)[k]| == size {
      NewSlicesAt(s, lead, size, f, k);
    }
  }

  /** The content of the array once every slice has been rewritten. */
  ghost function SliceMap(s: seq<real>, lead: seq<nat>, size: nat, f: (seq<nat>, seq<real>) -> seq<real>): seq<real>
    requires |s| == Prod(lead) * size
  {
    Flatten(NewSlices(s, lead, size, f))
  }

  /** The slice an index tuple addresses holds `f` of that tuple and of its
      old content; nothing else is written, so no slice is written twice. */
  lemma SliceMapAt(s: seq<real>, lead: seq<nat>, size: nat, f: (seq<nat>, seq<real>) -> seq<real>, t: seq<nat>)
    requires |s| == Prod(lead) * size && KeepsSize(f, size) && InRange(t, lead)
    ensures Rank(t, lead) < Prod(lead)
    ensures |SliceMap(s, lead, size, f)| == |s|
    ensures Block(SliceMap(s, lead, size, f), Prod(lead), size, Rank(t, lead))
         == f(t, Block(s, Prod(lead), size, Rank(t, lead)))
  {
    TuplesLength(lead);
    TuplesAtRank(t, lead);
    var blocks := NewSlices(s, lead, size, f);
    NewSlicesKeepSize(s, lead, size, f);
    NewSlicesAt(s, lead, size, f, Rank(t, lead));
    FlattenAt(blocks, size, Rank(t, lead));
  }

  /** With no leading axes there is a single slice: the whole array. */
  lemma SliceMapWhole(s: seq<real>, size: nat, f: (seq<nat>, seq<real>) -> seq<real>)
    requires |s| == size && KeepsSize(f, size)
    ensures |s| == Prod([]) * size
    ensures SliceMap(s, [], size, f) == f([], s)
  {
    assert Prod([]) == 1;
    SliceMapAt(s, [], size, f, []);
    assert Rank([], []) == 0;
    var out := SliceMap(s, [], size, f);
    assert out[0..size] == out;
    assert s[0..size] == s;
  }

  /** With k slices done, slice k still holds its old content. */
  lemma ReadStep(done: seq<seq<real>>, before: seq<real>, n: nat, size: nat, k: nat)
    requires |before| == n * size && k < n
    requires AllSize(done, size) && |done| == k
    ensures |Flatten(done)| == k * size && k * size + size <= |before|
    ensures (Flatten(done) + before[k * size..])[k * size .. k * size + size] == Block(before, n, size, k)
  {
    FlattenLength(done, size);
    MulStep(k, n, size);
  }

  /** One step of the loop: writing the next slice turns "k slices done"
      into "k + 1 slices done". */
  lemma WriteStep(done: seq<seq<real>>, before: seq<real>, n: nat, size: nat, k: nat,
                  cur: seq<real>, out: seq<real>, next: seq<real>)
    requires |before| == n * size && k < n && |out| == size
    requires AllSize(done, size) && |done| == k
    requires cur == Flatten(done) + before[k * size..]
    requires k * size + size <= |cur|
    requires next == cur[..k * size] + out + cur[k * size + size..]
    ensures AllSize(done + [out], size)
    ensures (k + 1) * size <= |before|
    ensures next == Flatten(done + [out]) + before[(k + 1) * size..]
  {
    ReadStep(done, before, n, size, k);
    FlattenSnoc(done, out);
    assert (k + 1) * size == k * size + size;
    assert cur[..k * size] == Flatten(done);
    assert cur[k * size + size..] == before[k * size + size..];
  }

  /** `a[offset : offset + len(values)] = values`. */
  method WriteSlice(a: array<real>, offset: nat, values: seq<real>)
    requires offset + |values| <= a.Length
    modifies a
    ensures a[..] == old(a[..])[..offset] + values + old(a[..])[offset + |values|..]
  {
    for m := 0 to |values|
      invariant forall p :: 0 <= p < a.Length ==>
        a[p] == if offset <= p < offset + m then values[p - offset] else old(a[p])
    {
      a[offset + m] := values[m];
    }
  }

  /** One iteration: with `k` slices rewritten, reads slice `k`, applies `f`
      and writes the result back. */
  method RewriteNext(a: array<real>, lead: seq<nat>, size: nat, f: (seq<nat>, seq<real>) -> seq<real>,
                     ghost before: seq<real>, ghost done: seq<seq<real>>, k: nat)
    returns (out: seq<real>)
    requires |before| == Prod(lead) * size && KeepsSize(f, size) && k < Prod(lead)
    requires AllSize(done, size) && |done| == k
    requires a[..] == Flatten(done) + before[k * size..]
    modifies a
    ensures |Tuples(lead)| == Prod(lead)
    ensures out == NewSlices(before, lead, size, f)[k]
    ensures AllSize(done + [out], size) && (k + 1) * size <= |before|
    ensures a[..] == Flatten(done + [out]) + before[(k + 1) * size..]
  {
    var n := Prod(lead);
    TuplesLength(lead);
    var t := Tuples(lead)[k];
    RankOfTuplesAt(lead, k);
    ghost var cur := a[..];
    ReadStep(done, before, n, size, k);
    var offset := Rank(t, lead) * size;
    var slice := a[offset .. offset + size];
    assert slice == Block(before, n, size, k);
    out := f(t, slice);
    NewSlicesAt(before, lead, size, f, k);
    WriteSlice(a, offset, out);
    WriteStep(done, before, n, size, k, cur, out, a[..]);
  }

  /** Visits the index tuples of `lead` in order; for each, reads the slice
      it addresses, applies `f` and writes the result back in place. */
  method ForEachSlice(a: array<real>, lead: seq<nat>, size: nat, f: (seq<nat>, seq<real>) -> seq<real>)
    returns (ghost visited: seq<seq<nat>>)
    requires a.Length == Prod(lead) * size && KeepsSize(f, size)
    modifies a
    ensures visited == Tuples(lead)
    ensures a[..] == SliceMap(old(a[..]), lead, size, f)
  {
    var tuples := Tuples(lead);
    TuplesLength(lead);
    var n := |tuples|;
    ghost var before := a[..];
    ghost var target := NewSlices(before, lead, size, f);
    ghost var done: seq<seq<real>> := [];
    visited := [];
    var k := 0;
    while k < n
      invariant 0 <= k <= n
      invariant visited == tuples[..k]
      invariant done == target[..k] && AllSize(done, size)
      invariant k * size <= |before|
      invariant a[..] == Flatten(done) + before[k * size..]
    {
      var out := RewriteNext(a, lead, size, f, before, done, k);
      TakeSnoc(target, k);
      TakeSnoc(tuples, k);
      done := done + [out];
      visited := visited + [tuples[k]];
      k := k + 1;
    }
    FlattenLength(done, size);
    assert before[n * size..] == [];
    assert done == target;
  }
}
