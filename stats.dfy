/** Reductions over one axis of an ensemble: sums, means, maxima and the
    threshold counts that summarise how many realizations cross a threshold.
    Values are exact reals; floating-point rounding is not modelled. */
module Stats {

  function Sum(xs: seq<real>): real
  {
    if |xs| == 0 then 0.0 else Sum(xs[..|xs| - 1]) + xs[|xs| - 1]
  }

  /** Arithmetic mean, as xarray's `mean` over one dimension. */
  function Mean(xs: seq<real>): real
    requires |xs| > 0
  {
    Sum(xs) / |xs| as real
  }

  /** The mean of a constant sample is that constant. */
  lemma MeanOfConstant(xs: seq<real>, x: real)
    requires |xs| > 0
    requires forall i :: 0 <= i < |xs| ==> xs[i] == x
    ensures Mean(xs) == x
  {
    SumOfConstant(xs, x);
  }

  lemma {:induction false} SumOfConstant(xs: seq<real>, x: real)
    requires forall i :: 0 <= i < |xs| ==> xs[i] == x
    ensures Sum(xs) == |xs| as real * x
  {
    if |xs| > 0 {
      SumOfConstant(xs[..|xs| - 1], x);
    }
  }

  /** Largest element, as xarray's `max` over one dimension. */
  function Max(xs: seq<real>): (m: real)
    requires |xs| > 0
    ensures forall i :: 0 <= i < |xs| ==> xs[i] <= m
    ensures exists i :: 0 <= i < |xs| && xs[i] == m
  {
    if |xs| == 1 then xs[0]
    else
      var rest := Max(xs[..|xs| - 1]);
      if xs[|xs| - 1] > rest then xs[|xs| - 1] else rest
  }

  function Abs(x: real): real
  {
    if x < 0.0 then -x else x
  }

  /** `np.abs(values).max()`: the largest magnitude in a field. */
  function MaxAbs(xs: seq<real>): (m: real)
    requires |xs| > 0
    ensures forall i :: 0 <= i < |xs| ==> -m <= xs[i] <= m
    ensures exists i :: 0 <= i < |xs| && Abs(xs[i]) == m
  {
    var mags := seq(|xs|, i requires 0 <= i < |xs| => Abs(xs[i]));
    assert forall i :: 0 <= i < |xs| ==> mags[i] == Abs(xs[i]);
    Max(mags)
  }

  /** The number of entries whose value is at least `t` (inclusive comparison),
      as `(change >= threshold).sum(dim="realization")`. */
  function CountAtLeast(xs: seq<real>, t: real): (c: nat)
    ensures c <= |xs|
    ensures c == 0 <==> forall i :: 0 <= i < |xs| ==> xs[i] < t
    ensures c == |xs| <==> forall i :: 0 <= i < |xs| ==> xs[i] >= t
  {
    if |xs| == 0 then 0
    else CountAtLeast(xs[..|xs| - 1], t) + (if xs[|xs| - 1] >= t then 1 else 0)
  }

  /** The set of positions whose value is at least `t`: an independent
      description of what `CountAtLeast` counts. */
  ghost function AtLeastPositions(xs: seq<real>, t: real): set<nat>
  {
    set i: nat | i < |xs| && xs[i] >= t
  }

  lemma {:induction false} CountAtLeastIsCardinality(xs: seq<real>, t: real)
    ensures CountAtLeast(xs, t) == |AtLeastPositions(xs, t)|
  {
    if |xs| > 0 {
      var n := |xs| - 1;
      var front := xs[..n];
      CountAtLeastIsCardinality(front, t);
      AtLeastPositionsCountOfFront(xs, t);
    } else {
      assert AtLeastPositions(xs, t) == {};
    }
  }

  /** The last entry adds one position exactly when it reaches `t`. */
  lemma AtLeastPositionsCountOfFront(xs: seq<real>, t: real)
    requires |xs| > 0
    ensures var n := |xs| - 1;
            |AtLeastPositions(xs, t)| == |AtLeastPositions(xs[..n], t)| + (if xs[n] >= t then 1 else 0)
  {
    var n := |xs| - 1;
    AtLeastPositionsOfFront(xs, t);
    var a := AtLeastPositions(xs[..n], t);
    if xs[n] >= t {
      assert n !in a;
    }
  }

  /** The positions in `xs` are those in its front, plus the last one when it
      reaches `t`. */
  lemma AtLeastPositionsOfFront(xs: seq<real>, t: real)
    requires |xs| > 0
    ensures var n := |xs| - 1;
            AtLeastPositions(xs, t) == AtLeastPositions(xs[..n], t) + (if xs[n] >= t then {n} else {})
  {
    var n := |xs| - 1;
    var front := xs[..n];
    forall i: nat | i < n
      ensures front[i] == xs[i]
    {
    }
  }

  /** Raising the threshold never increases the count. */
  lemma {:induction false} CountAtLeastAntitone(xs: seq<real>, t1: real, t2: real)
    requires t1 <= t2
    ensures CountAtLeast(xs, t2) <= CountAtLeast(xs, t1)
  {
    if |xs| > 0 {
      CountAtLeastAntitone(xs[..|xs| - 1], t1, t2);
    }
  }

  /** `100 * (change >= threshold).mean(dim="realization")`: the percentage of
      entries at or above `t`. */
  function PercentAtLeast(xs: seq<real>, t: real): (p: real)
    requires |xs| > 0
    ensures 0.0 <= p <= 100.0
    ensures p == 0.0 <==> forall i :: 0 <= i < |xs| ==> xs[i] < t
    ensures p == 100.0 <==> forall i :: 0 <= i < |xs| ==> xs[i] >= t
  {
    var c := CountAtLeast(xs, t);
    var n := |xs| as real;
    PercentBounds(c as real, n);
    100.0 * (c as real) / n
  }

  lemma PercentBounds(c: real, n: real)
    requires 0.0 <= c <= n && n > 0.0
    ensures 0.0 <= 100.0 * c / n <= 100.0
    ensures 100.0 * c / n == 0.0 <==> c == 0.0
    ensures 100.0 * c / n == 100.0 <==> c == n
  {
    assert 100.0 * c / n * n == 100.0 * c;
  }

  /** Raising the threshold never increases the percentage. */
  lemma PercentAtLeastAntitone(xs: seq<real>, t1: real, t2: real)
    requires |xs| > 0 && t1 <= t2
    ensures PercentAtLeast(xs, t2) <= PercentAtLeast(xs, t1)
  {
    CountAtLeastAntitone(xs, t1, t2);
    DivideMonotone(100.0 * CountAtLeast(xs, t2) as real, 100.0 * CountAtLeast(xs, t1) as real, |xs| as real);
  }

  /** Seven of ten realizations whose change is at least 5 give 70 percent. */
  lemma PercentAtLeastExample()
    ensures PercentAtLeast([0.0, 5.0, 10.0, 15.0, 20.0, -5.0, 0.0, 5.0, 10.0, 15.0], 5.0) == 70.0
  {
    var xs := [0.0, 5.0, 10.0, 15.0, 20.0, -5.0, 0.0, 5.0, 10.0, 15.0];
    assert CountAtLeast(xs[..1], 5.0) == 0;
    assert xs[..2][..1] == xs[..1];
    assert CountAtLeast(xs[..2], 5.0) == 1;
    assert xs[..3][..2] == xs[..2];
    assert CountAtLeast(xs[..3], 5.0) == 2;
    assert xs[..4][..3] == xs[..3];
    assert CountAtLeast(xs[..4], 5.0) == 3;
    assert xs[..5][..4] == xs[..4];
    assert CountAtLeast(xs[..5], 5.0) == 4;
    assert xs[..6][..5] == xs[..5];
    assert CountAtLeast(xs[..6], 5.0) == 4;
    assert xs[..7][..6] == xs[..6];
    assert CountAtLeast(xs[..7], 5.0) == 4;
    assert xs[..8][..7] == xs[..7];
    assert CountAtLeast(xs[..8], 5.0) == 5;
    assert xs[..9][..8] == xs[..8];
    assert CountAtLeast(xs[..9], 5.0) == 6;
    assert xs[..9] == xs[..|xs| - 1];
    assert CountAtLeast(xs, 5.0) == 7;
  }

  lemma DivideMonotone(a: real, b: real, n: real)
    requires a <= b && n > 0.0
    ensures a / n <= b / n
  {
    assert b / n - a / n == (b - a) / n;
  }

  lemma DivideTwice(s: real, k: real, m: real, p: real)
    requires k != 0.0 && m != 0.0 && p == m * k
    ensures s / k / m == s / p
  {
    assert (s / k / m) * (m * k) == s;
  }

  /** Concatenation of rows, realization by realization: the pooled sample
      that a mean over two dimensions at once is taken over. */
  function Flatten(rows: seq<seq<real>>): seq<real>
  {
    if |rows| == 0 then [] else Flatten(rows[..|rows| - 1]) + rows[|rows| - 1]
  }

  lemma {:induction false} FlattenLength(rows: seq<seq<real>>, n: nat)
    requires forall r :: 0 <= r < |rows| ==> |rows[r]| == n
    ensures |Flatten(rows)| == |rows| * n
  {
    if |rows| > 0 {
      FlattenLength(rows[..|rows| - 1], n);
    }
  }

  lemma {:induction false} SumConcat(a: seq<real>, b: seq<real>)
    ensures Sum(a + b) == Sum(a) + Sum(b)
  {
    if |b| > 0 {
      var b' := b[..|b| - 1];
      assert (a + b)[..|a + b| - 1] == a + b';
      SumConcat(a, b');
    } else {
      assert a + b == a;
    }
  }

  /** Summing the pooled sample is summing the per-row sums. */
  lemma {:induction false} SumFlatten(rows: seq<seq<real>>)
    ensures Sum(Flatten(rows)) == Sum(seq(|rows|, r requires 0 <= r < |rows| => Sum(rows[r])))
  {
    var sums := seq(|rows|, r requires 0 <= r < |rows| => Sum(rows[r]));
    if |rows| > 0 {
      var n := |rows| - 1;
      var front := rows[..n];
      SumFlatten(front);
      SumConcat(Flatten(front), rows[n]);
      assert sums[..n] == seq(|front|, r requires 0 <= r < |front| => Sum(front[r]));
    }
  }

  /** Dividing every entry by `k` divides the sum by `k`. */
  lemma {:induction false} SumDivide(xs: seq<real>, k: real)
    requires k != 0.0
    ensures Sum(seq(|xs|, i requires 0 <= i < |xs| => xs[i] / k)) == Sum(xs) / k
  {
    var ys := seq(|xs|, i requires 0 <= i < |xs| => xs[i] / k);
    if |xs| > 0 {
      var n := |xs| - 1;
      var front := xs[..n];
      SumDivide(front, k);
      assert ys[..n] == seq(|front|, i requires 0 <= i < |front| => front[i] / k);
      assert Sum(ys) == Sum(front) / k + xs[n] / k;
    }
  }

  /** For rows of equal, non-zero length, the mean of the row means is the
      mean of the pooled sample: averaging over time and then over
      realizations gives xarray's `mean(dim=["time", "realization"])`. */
  lemma MeanOfMeans(rows: seq<seq<real>>, n: nat)
    requires |rows| > 0 && n > 0
    requires forall r :: 0 <= r < |rows| ==> |rows[r]| == n
    ensures |Flatten(rows)| == |rows| * n
    ensures Mean(seq(|rows|, r requires 0 <= r < |rows| => Mean(rows[r])))
         == Sum(Flatten(rows)) / (|rows| * n) as real
  {
    FlattenLength(rows, n);
    var k := n as real;
    var sums := seq(|rows|, r requires 0 <= r < |rows| => Sum(rows[r]));
    var means := seq(|rows|, r requires 0 <= r < |rows| => Mean(rows[r]));
    forall r | 0 <= r < |rows|
      ensures means[r] == sums[r] / k
    {
      assert |rows[r]| as real == k;
    }
    assert means == seq(|sums|, i requires 0 <= i < |sums| => sums[i] / k);
    SumDivide(sums, k);
    SumFlatten(rows);
    assert Sum(means) == Sum(Flatten(rows)) / k;
    MeanOfTotal(Sum(means), Sum(Flatten(rows)), |rows|, n);
  }

  lemma MeanOfTotal(sum: real, total: real, count: nat, n: nat)
    requires count > 0 && n > 0 && sum == total / n as real
    ensures sum / count as real == total / (count * n) as real
  {
    DivideTwice(total, n as real, count as real, (count * n) as real);
  }
}
