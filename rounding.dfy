/** Python's numeric rounding over exact reals: `round(x)` (nearest
    integer, ties to even), `round(x, 3)` and `math.ceil`. Floating-point
    representation error is not modelled. */
module Rounding {

  predicate IsEven(n: int) { n % 2 == 0 }

  /** Python's built-in `round(x)`: the nearest integer, and on a tie the
      even one. */
  function RoundHalfEven(x: real): (r: int)
    ensures -0.5 <= r as real - x <= 0.5
    ensures (r as real - x == 0.5 || x - r as real == 0.5) ==> IsEven(r)
  {
    var f := x.Floor;
    var d := x - f as real;
    if d < 0.5 then f
    else if d > 0.5 then f + 1
    else if IsEven(f) then f else f + 1
  }

  /** The two properties above determine the rounded value. */
  lemma RoundHalfEvenUnique(x: real, n: int)
    requires -0.5 <= n as real - x <= 0.5
    requires (n as real - x == 0.5 || x - n as real == 0.5) ==> IsEven(n)
    ensures RoundHalfEven(x) == n
  {
    var r := RoundHalfEven(x);
    assert -1 <= r - n <= 1;
  }

  lemma RoundOfInteger(n: int)
    ensures RoundHalfEven(n as real) == n
  {
    RoundHalfEvenUnique(n as real, n);
  }

  /** `_round_all`: every component rounded to the nearest integer, ties to even. */
  function RoundAll(xs: seq<real>): (r: seq<int>)
    ensures |r| == |xs|
    ensures forall i :: 0 <= i < |xs| ==> -0.5 <= r[i] as real - xs[i] <= 0.5
    ensures forall i :: 0 <= i < |xs| ==> (r[i] as real - xs[i] == 0.5 || xs[i] - r[i] as real == 0.5) ==> IsEven(r[i])
  {
    seq(|xs|, i requires 0 <= i < |xs| => RoundHalfEven(xs[i]))
  }

  /** `math.ceil`. */
  function Ceil(x: real): (r: int)
    ensures x <= r as real < x + 1.0
  {
    -((-x).Floor)
  }

  /** `round(x, ndigits=3)`: the nearest multiple of 1/1000, ties to even. */
  function Round3(x: real): (r: real)
    ensures -0.0005 <= r - x <= 0.0005
  {
    RoundHalfEven(x * 1000.0) as real / 1000.0
  }

  /** `ceil(round(x, 3))`: the length `resize` gives an output axis. */
  function CeilOfRounded(x: real): (r: int)
    ensures x - 0.0005 <= r as real < x + 1.0005
  {
    Ceil(Round3(x))
  }

  /** A product within half a thousandth of an integer gives exactly that
      integer, so an exact integer product is never rounded up. */
  lemma CeilOfRoundedNearInteger(x: real, m: int)
    requires -0.0005 <= x - m as real <= 0.0005
    ensures CeilOfRounded(x) == m
  {
    var n := 1000 * m;
    assert -0.5 <= n as real - x * 1000.0 <= 0.5;
    assert IsEven(n);
    RoundHalfEvenUnique(x * 1000.0, n);
    assert Round3(x) == m as real;
  }

  lemma CeilOfRoundedNonNegative(x: real)
    requires x >= 0.0
    ensures CeilOfRounded(x) >= 0
  {
    RoundHalfEvenUnique(0.0, 0);
    if RoundHalfEven(x * 1000.0) < 0 {
      assert false;
    }
  }
}
