/** Weighted sums over (weight, price) pairs: the numerator and denominator of
    both volume-weighted averages of the pipeline. */
module WeightedSums {

  datatype Pair = Pair(w: real, p: real)

  /** Σ w */
  function SumW(ps: seq<Pair>): real {
    if ps == [] then 0.0 else ps[0].w + SumW(ps[1..])
  }

  /** Σ w·p */
  function SumWP(ps: seq<Pair>): real {
    if ps == [] then 0.0 else ps[0].w * ps[0].p + SumWP(ps[1..])
  }

  predicate NonNegative(ps: seq<Pair>) {
    forall k :: 0 <= k < |ps| ==> ps[k].w >= 0.0
  }

  /** Every pair of positive weight has its price in [lo, hi]. */
  predicate PricesWithin(ps: seq<Pair>, lo: real, hi: real) {
    forall k :: 0 <= k < |ps| && ps[k].w > 0.0 ==> lo <= ps[k].p <= hi
  }

  lemma {:induction false} SumWNonNegative(ps: seq<Pair>)
    requires NonNegative(ps)
    ensures SumW(ps) >= 0.0
  {
    if ps != [] {
      assert NonNegative(ps[1..]) by {
        forall k | 0 <= k < |ps[1..]| ensures ps[1..][k].w >= 0.0 {
          assert ps[1..][k] == ps[k + 1];
        }
      }
      SumWNonNegative(ps[1..]);
    }
  }

  /** Non-negative weights that sum to zero are all zero, so the weighted sum is zero too. */
  lemma {:induction false} ZeroTotalWeight(ps: seq<Pair>)
    requires NonNegative(ps) && SumW(ps) == 0.0
    ensures SumWP(ps) == 0.0
    ensures forall k :: 0 <= k < |ps| ==> ps[k].w == 0.0
  {
    if ps != [] {
      assert NonNegative(ps[1..]) by {
        forall k | 0 <= k < |ps[1..]| ensures ps[1..][k].w >= 0.0 {
          assert ps[1..][k] == ps[k + 1];
        }
      }
      SumWNonNegative(ps[1..]);
      assert ps[0].w == 0.0;
      ZeroTotalWeight(ps[1..]);
      forall k | 0 <= k < |ps| ensures ps[k].w == 0.0 {
        if k > 0 { assert ps[k] == ps[1..][k - 1]; }
      }
    }
  }

  /** One pair: lo·w ≤ w·p ≤ hi·w. */
  lemma PairBounds(x: Pair, lo: real, hi: real)
    requires x.w >= 0.0
    requires x.w > 0.0 ==> lo <= x.p <= hi
    ensures lo * x.w <= x.w * x.p <= hi * x.w
  {
    if x.w > 0.0 {
      assert x.w * lo <= x.w * x.p;
      assert x.w * x.p <= x.w * hi;
    }
  }

  lemma Distribute(a: real, b: real, c: real)
    ensures a * (b + c) == a * b + a * c
  {
  }

  /** lo·Σw ≤ Σw·p ≤ hi·Σw when the weights are non-negative and every weighted price is in [lo, hi]. */
  lemma {:induction false} WeightedSumBounds(ps: seq<Pair>, lo: real, hi: real)
    requires NonNegative(ps) && PricesWithin(ps, lo, hi)
    ensures lo * SumW(ps) <= SumWP(ps) <= hi * SumW(ps)
  {
    if ps != [] {
      var rest := ps[1..];
      assert NonNegative(rest) && PricesWithin(rest, lo, hi) by {
        forall k | 0 <= k < |rest| ensures rest[k] == ps[k + 1] { }
      }
      WeightedSumBounds(rest, lo, hi);
      PairBounds(ps[0], lo, hi);
      Distribute(lo, ps[0].w, SumW(rest));
      Distribute(hi, ps[0].w, SumW(rest));
    }
  }

  /** The weighted average Σw·p / Σw lies in any interval that holds every weighted price. */
  lemma AverageWithin(ps: seq<Pair>, lo: real, hi: real)
    requires NonNegative(ps) && PricesWithin(ps, lo, hi) && SumW(ps) > 0.0
    ensures lo <= SumWP(ps) / SumW(ps) <= hi
  {
    WeightedSumBounds(ps, lo, hi);
    QuotientBounds(SumWP(ps), SumW(ps), lo, hi);
  }

  lemma QuotientBounds(n: real, s: real, lo: real, hi: real)
    requires s > 0.0 && lo * s <= n <= hi * s
    ensures lo <= n / s <= hi
  {
    assert n / s - lo == (n - lo * s) / s;
    assert hi - n / s == (hi * s - n) / s;
  }
}
