/** Cell values and series as the dataframe library of the pipeline treats them.
    Prices, quantities and weights are exact reals; a float cell is either a finite
    number, a missing value (NaN) or an infinity, which the row filter keeps. */
module Frames {

  datatype Option<+T> = None | Some(value: T)

  datatype Result<+T, +E> = Success(value: T) | Failure(error: E)

  /** A cell of a float column. */
  datatype Float = Num(v: real) | NaN | Inf(negative: bool)

  /** One entry of a series: its index (a timestamp) and its cell. */
  datatype Point = Point(t: int, v: Float)

  /** A series indexed by timestamp, in index order. */
  type Series = seq<Point>

  /** The index of a series. */
  function Index(s: Series): (ts: seq<int>)
    ensures |ts| == |s|
    ensures forall k :: 0 <= k < |s| ==> ts[k] == s[k].t
  {
    seq(|s|, k requires 0 <= k < |s| => s[k].t)
  }

  /** Elementwise series division of finite operands: a zero divisor gives a
      missing value when the dividend is zero too, and a signed infinity otherwise. */
  function Div(num: real, den: real): (r: Float)
    ensures r.Num? <==> den != 0.0
    ensures r.Num? ==> r.v * den == num
    ensures r.NaN? <==> num == 0.0 && den == 0.0
    ensures r.Inf? ==> r.negative == (num < 0.0)
  {
    if den != 0.0 then Num(num / den)
    else if num == 0.0 then NaN
    else Inf(num < 0.0)
  }

  /** Nearest integer to `x`, halves going to the even neighbour. */
  function RoundHalfEven(x: real): (n: int)
    ensures -0.5 <= x - n as real <= 0.5
    ensures x - n as real == 0.5 || x - n as real == -0.5 ==> n % 2 == 0
  {
    var f := x.Floor;
    var frac := x - f as real;
    if frac < 0.5 then f
    else if frac > 0.5 then f + 1
    else if f % 2 == 0 then f
    else f + 1
  }

  /** `round(x, 2)`: `x` rounded to hundredths, halves to even, on exact reals. */
  function Round2(x: real): (r: real)
    ensures -0.005 <= r - x <= 0.005
    ensures (r * 100.0).Floor as real == r * 100.0
  {
    RoundHalfEven(x * 100.0) as real / 100.0
  }

  /** A value that already has at most two decimals is left as it is. */
  lemma Round2Exact(n: int)
    ensures Round2(n as real / 100.0) == n as real / 100.0
  {
    var x := n as real / 100.0;
    assert x * 100.0 == n as real;
    assert (x * 100.0).Floor == n;
  }

  /** Rounding twice is rounding once. */
  lemma Round2Idempotent(x: real)
    ensures Round2(Round2(x)) == Round2(x)
  {
    var n := RoundHalfEven(x * 100.0);
    Round2Exact(n);
  }
}
