/** Running statistics of round-trip times. */
module PingStats {

  function Times(x: real, y: real): real {
    x * y
  }

  function Sum(rs: seq<real>): real {
    if rs == [] then 0.0 else Sum(rs[..|rs| - 1]) + rs[|rs| - 1]
  }

  function SumSq(rs: seq<real>): real {
    if rs == [] then 0.0 else SumSq(rs[..|rs| - 1]) + Times(rs[|rs| - 1], rs[|rs| - 1])
  }

  predicate IsMin(m: real, rs: seq<real>) {
    m in rs && forall r :: r in rs ==> m <= r
  }

  predicate IsMax(m: real, rs: seq<real>) {
    m in rs && forall r :: r in rs ==> r <= m
  }

  /** The squared distances from `m`. */
  function Spread(rs: seq<real>, m: real): real {
    if rs == [] then 0.0
    else Spread(rs[..|rs| - 1], m) + Times(rs[|rs| - 1] - m, rs[|rs| - 1] - m)
  }

  /** `sq` - 2 `m` `sum` + `k` `m` `m` */
  function Expanded(sq: real, sum: real, k: real, m: real): real {
    sq - 2.0 * m * sum + k * m * m
  }

  lemma {:induction false} SpreadExpands(rs: seq<real>, m: real)
    ensures Spread(rs, m) == Expanded(SumSq(rs), Sum(rs), |rs| as real, m)
  {
    hide Times, Expanded;
    if rs == [] {
      NothingExpanded(m);
    } else {
      var front, r := rs[..|rs| - 1], rs[|rs| - 1];
      SpreadExpands(front, m);
      OneMore(SumSq(front), Sum(front), |front| as real, m, r);
      assert |rs| as real == |front| as real + 1.0;
    }
  }

  lemma NothingExpanded(m: real)
    ensures Expanded(0.0, 0.0, 0.0, m) == 0.0
  {
  }

  lemma OneMore(sq: real, sum: real, k: real, m: real, r: real)
    ensures Expanded(sq, sum, k, m) + Times(r - m, r - m) == Expanded(sq + Times(r, r), sum + r, k + 1.0, m)
  {
  }

  lemma {:induction false} SpreadIsSquare(rs: seq<real>, m: real)
    ensures Spread(rs, m) >= 0.0
    ensures Spread(rs, m) == 0.0 <==> forall i :: 0 <= i < |rs| ==> rs[i] == m
  {
    hide Times;
    if rs != [] {
      var front, r := rs[..|rs| - 1], rs[|rs| - 1];
      SpreadIsSquare(front, m);
      Square(r - m);
      assert forall i :: 0 <= i < |front| ==> rs[i] == front[i];
    }
  }

  lemma Square(x: real)
    ensures Times(x, x) >= 0.0 && (Times(x, x) == 0.0 <==> x == 0.0)
  {
    if x > 0.0 {
      Positive(x, x);
    } else if x < 0.0 {
      Positive(-x, -x);
      Opposites(x);
    }
  }

  lemma Opposites(x: real)
    ensures Times(-x, -x) == Times(x, x)
  {
  }

  lemma Positive(x: real, y: real)
    requires x > 0.0 && y > 0.0
    ensures Times(x, y) > 0.0
  {
  }

  function Mean(rs: seq<real>): real
    requires rs != []
  {
    Sum(rs) / |rs| as real
  }

  function Variance(rs: seq<real>): real
    requires rs != []
  {
    SumSq(rs) / |rs| as real - Times(Mean(rs), Mean(rs))
  }

  /** In exact arithmetic the streaming variance is the mean squared distance
      from the mean, so it is never negative, and zero only when all round
      trips took the same time. */
  lemma VarianceIsSpread(rs: seq<real>)
    requires rs != []
    ensures Times(Variance(rs), |rs| as real) == Spread(rs, Mean(rs))
    ensures Variance(rs) >= 0.0
    ensures Variance(rs) == 0.0 <==> forall i :: 0 <= i < |rs| ==> rs[i] == Mean(rs)
  {
    var n, m := |rs| as real, Mean(rs);
    SpreadExpands(rs, m);
    SpreadIsSquare(rs, m);
    Centred(n, Sum(rs), SumSq(rs));
    hide Times, Expanded, Spread, Sum, SumSq;
    Sign(Variance(rs), n);
  }

  lemma Centred(n: real, sum: real, sq: real)
    requires n > 0.0
    ensures Times(sq / n - Times(sum / n, sum / n), n) == Expanded(sq, sum, n, sum / n)
  {
    var m := sum / n;
    assert sum == m * n;
    assert sq / n * n == sq;
    assert m * sum == n * m * m;
    assert (sq / n - m * m) * n == sq / n * n - m * m * n;
  }

  lemma Sign(v: real, n: real)
    requires n > 0.0
    ensures (Times(v, n) >= 0.0 <==> v >= 0.0) && (Times(v, n) == 0.0 <==> v == 0.0)
  {
  }

  /** The mean lies between the extremes. */
  lemma MeanBetween(rs: seq<real>, low: real, high: real)
    requires rs != [] && IsMin(low, rs) && IsMax(high, rs)
    ensures low <= Mean(rs) <= high
  {
    assert forall i :: 0 <= i < |rs| ==> rs[i] in rs;
    SumBetween(rs, low, high);
    Divide(Sum(rs), |rs| as real, low, high);
  }

  lemma Divide(sum: real, n: real, low: real, high: real)
    requires n > 0.0 && n * low <= sum <= n * high
    ensures low <= sum / n <= high
  {
    assert sum / n * n == sum;
  }

  lemma {:induction false} SumBetween(rs: seq<real>, low: real, high: real)
    requires forall i :: 0 <= i < |rs| ==> low <= rs[i] <= high
    ensures |rs| as real * low <= Sum(rs) <= |rs| as real * high
  {
    if rs != [] {
      SumBetween(rs[..|rs| - 1], low, high);
      assert (|rs| - 1) as real * low + low == |rs| as real * low;
      assert (|rs| - 1) as real * high + high == |rs| as real * high;
    }
  }

  /** The running totals of a list of round-trip times. */
  datatype Totals = Totals(n: nat, sum: real, sumSq: real, min: real, max: real)

  /** The totals are those of the list. */
  predicate Summarise(t: Totals, rs: seq<real>) {
    && t.n == |rs| && t.sum == Sum(rs) && t.sumSq == SumSq(rs)
    && (rs != [] ==> IsMin(t.min, rs) && IsMax(t.max, rs))
  }

  /** Adding one round-trip time. */
  method Count(t: Totals, rtt: real, ghost rs: seq<real>) returns (t': Totals)
    requires Summarise(t, rs)
    ensures Summarise(t', rs + [rtt])
  {
    var n := t.n + 1;
    assert (rs + [rtt])[..|rs|] == rs;
    t' := Totals(n, t.sum + rtt, t.sumSq + Times(rtt, rtt),
                 if n == 1 || rtt < t.min then rtt else t.min,
                 if n == 1 || rtt > t.max then rtt else t.max);
  }
}
