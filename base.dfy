/** Small value types shared by the whole model: optional values, results
    with an error, and flat row-major storage of N-dimensional arrays. */
module Base {

  datatype Option<+T> = None | Some(value: T) {
    function GetOr(default: T): T {
      match this
      case Some(v) => v
      case None => default
    }
  }

  /** Exceptions the modelled Python code raises. */
  datatype Error =
    | AssertionError(message: string)
    | RuntimeError(message: string)
    | IndexError
    | ZeroDivisionError
    | TransformNotInvertibleError

  datatype Result<+T> = Success(value: T) | Failure(error: Error)

  /** Number of elements of an array of the given shape (numpy's `size`). */
  function Prod(shape: seq<nat>): nat
  {
    if shape == [] then 1 else shape[0] * Prod(shape[1..])
  }

  /** A sequence of `n` zeros, the content of `np.zeros`. */
  function Zeros(n: nat): (r: seq<real>)
    ensures |r| == n && forall i :: 0 <= i < n ==> r[i] == 0.0
  {
    seq(n, _ => 0.0)
  }

  predicate AllSize<T>(blocks: seq<seq<T>>, size: nat)
  {
    forall k :: 0 <= k < |blocks| ==> |blocks[k]| == size
  }

  /** Concatenation of blocks in order: the row-major layout of a stack of slices. */
  function Flatten<T>(blocks: seq<seq<T>>): seq<T>
  {
    if blocks == [] then [] else Flatten(blocks[..|blocks| - 1]) + blocks[|blocks| - 1]
  }

  lemma {:induction false} MulStep(k: nat, n: nat, size: nat)
    requires k < n
    ensures k * size + size <= n * size
    decreases n
  {
    if k + 1 < n {
      MulStep(k, n - 1, size);
      assert n * size == (n - 1) * size + size;
    } else {
      assert n * size == k * size + size;
    }
  }

  /** Block `k` of a flattened stack of equal-size blocks sits at `k * size`. */
  lemma {:induction false} FlattenAt<T>(blocks: seq<seq<T>>, size: nat, k: nat)
    requires AllSize(blocks, size) && k < |blocks|
    ensures |Flatten(blocks)| == |blocks| * size
    ensures k * size + size <= |Flatten(blocks)|
    ensures Flatten(blocks)[k * size .. k * size + size] == blocks[k]
  {
    var n := |blocks|;
    var init := blocks[..n - 1];
    assert AllSize(init, size);
    FlattenLength(blocks, size);
    FlattenLength(init, size);
    MulStep(k, n, size);
    assert Flatten(blocks) == Flatten(init) + blocks[n - 1];
    if k < n - 1 {
      FlattenAt(init, size, k);
      SliceOfAppendLeft(Flatten(init), blocks[n - 1], k * size, k * size + size);
      assert init[k] == blocks[k];
    } else {
      SliceOfAppendRight(Flatten(init), blocks[n - 1]);
    }
  }

  lemma SliceOfAppendLeft<T>(a: seq<T>, b: seq<T>, i: nat, j: nat)
    requires i <= j <= |a|
    ensures (a + b)[i..j] == a[i..j]
  {
  }

  lemma SliceOfAppendRight<T>(a: seq<T>, b: seq<T>)
    ensures (a + b)[|a|..|a| + |b|] == b
  {
  }

  lemma MulSucc(m: nat, size: nat)
    ensures (m + 1) * size == m * size + size
  {
  }

  lemma {:induction false} FlattenLength<T>(blocks: seq<seq<T>>, size: nat)
    requires AllSize(blocks, size)
    ensures |Flatten(blocks)| == |blocks| * size
  {
    if blocks != [] {
      var init := blocks[..|blocks| - 1];
      assert AllSize(init, size);
      FlattenLength(init, size);
      MulSucc(|init|, size);
    }
  }

  lemma TakeSnoc<T>(s: seq<T>, k: nat)
    requires k < |s|
    ensures s[..k + 1] == s[..k] + [s[k]]
  {
  }

  lemma AppendAssoc<T>(x: seq<T>, y: seq<T>, z: seq<T>)
    ensures x + (y + z) == (x + y) + z
  {
  }

  /** Appending one more block extends the flattened sequence by that block. */
  lemma FlattenSnoc<T>(blocks: seq<seq<T>>, b: seq<T>)
    ensures Flatten(blocks + [b]) == Flatten(blocks) + b
  {
    assert (blocks + [b])[..|blocks|] == blocks;
  }

  /** The size of a shape that is the concatenation of two shapes. */
  lemma {:induction false} ProdConcat(a: seq<nat>, b: seq<nat>)
    ensures Prod(a + b) == Prod(a) * Prod(b)
  {
    if a == [] {
      assert a + b == b;
    } else {
      assert (a + b)[1..] == a[1..] + b;
      ProdConcat(a[1..], b);
      assert a[0] * (Prod(a[1..]) * Prod(b)) == (a[0] * Prod(a[1..])) * Prod(b);
    }
  }
}
