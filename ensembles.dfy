/** The ensemble data model and the labelled-array operations the
    post-processing is built from: selection of time steps by calendar year,
    selection and relabelling of realizations, concatenation along the
    realization axis, reductions over time and over realizations, and
    pointwise differences of reduced fields. */
module Ensembles {
  import opened Results
  import opened Stats
  import opened YearRanges

  /** One variable (`portion_suitable`) of an ensemble, with axes realization,
      time and location: `values[i][t][l]` belongs to the realization at
      position `i`, the time step at position `t` (whose calendar year is
      `years[t]`) and grid point `l`. `realizations` holds the realization
      coordinate labels and `memberIds` the `member_id` coordinate. */
  datatype Dataset = Dataset(
    realizations: seq<int>,
    memberIds: seq<string>,
    years: seq<int>,
    locations: nat,
    values: seq<seq<seq<real>>>)

  /** The array is rectangular and every coordinate has one entry per position. */
  predicate WellFormed(d: Dataset)
  {
    && |d.memberIds| == |d.realizations|
    && |d.values| == |d.realizations|
    && forall i :: 0 <= i < |d.values| ==>
         && |d.values[i]| == |d.years|
         && forall t :: 0 <= t < |d.values[i]| ==> |d.values[i][t]| == d.locations
  }

  /** A variable reduced over time: `values[i][l]` for the realization at
      position `i` (label `realizations[i]`) and grid point `l`. */
  datatype Field = Field(realizations: seq<int>, locations: nat, values: seq<seq<real>>)

  predicate FieldWellFormed(f: Field)
  {
    && |f.values| == |f.realizations|
    && forall i :: 0 <= i < |f.values| ==> |f.values[i]| == f.locations
  }

  // ---------------------------------------------------------------------------
  // Time selection: ds.sel(time=ds.time.dt.year.isin(years))

  /** Positions of the time steps whose year lies in the window, in order. */
  function TimesIn(years: seq<int>, w: YearWindow): (idx: seq<nat>)
    ensures forall k :: 0 <= k < |idx| ==> idx[k] < |years| && w.Contains(years[idx[k]])
    ensures forall j, k :: 0 <= j < k < |idx| ==> idx[j] < idx[k]
    ensures forall t :: 0 <= t < |years| && w.Contains(years[t]) ==> t in idx
  {
    if |years| == 0 then []
    else
      var n := |years| - 1;
      TimesIn(years[..n], w) + (if w.Contains(years[n]) then [n] else [])
  }

  /** The window holds at least two time steps of `d`. With none the
      selection is empty; with one, the `squeeze()` that every reduction of
      the pipeline follows drops the time axis. */
  predicate SeveralStepsIn(d: Dataset, w: YearWindow)
  {
    |TimesIn(d.years, w)| >= 2
  }

  /** Several steps selected means two distinct time steps in the window. */
  lemma SeveralStepsInIff(d: Dataset, w: YearWindow)
    ensures SeveralStepsIn(d, w) <==>
              exists s, t :: 0 <= s < t < |d.years| && w.Contains(d.years[s]) && w.Contains(d.years[t])
  {
    var idx := TimesIn(d.years, w);
    if |idx| >= 2 {
      assert idx[0] < idx[1] && w.Contains(d.years[idx[0]]) && w.Contains(d.years[idx[1]]);
    }
    if exists s, t :: 0 <= s < t < |d.years| && w.Contains(d.years[s]) && w.Contains(d.years[t]) {
      var s, t :| 0 <= s < t < |d.years| && w.Contains(d.years[s]) && w.Contains(d.years[t]);
      TwoStepsSelected(d.years, w, s, t);
    }
  }

  /** Two distinct time steps in the window are both selected. */
  lemma TwoStepsSelected(years: seq<int>, w: YearWindow, s: nat, t: nat)
    requires s < t < |years| && w.Contains(years[s]) && w.Contains(years[t])
    ensures |TimesIn(years, w)| >= 2
  {
    var idx := TimesIn(years, w);
    assert s in idx && t in idx;
    var i :| 0 <= i < |idx| && idx[i] == s;
    var j :| 0 <= j < |idx| && idx[j] == t;
    assert i != j;
  }

  /** A window selects nothing exactly when no time step's year is in it. */
  lemma NoTimesIn(years: seq<int>, w: YearWindow)
    ensures |TimesIn(years, w)| == 0 <==> forall t :: 0 <= t < |years| ==> !w.Contains(years[t])
  {
    var idx := TimesIn(years, w);
    if |idx| > 0 {
      assert w.Contains(years[idx[0]]);
    }
  }

  /** The time steps of one realization at the given positions. */
  function GatherSteps(rows: seq<seq<real>>, idx: seq<nat>): (g: seq<seq<real>>)
    requires forall k :: 0 <= k < |idx| ==> idx[k] < |rows|
    ensures |g| == |idx|
    ensures forall k :: 0 <= k < |idx| ==> g[k] == rows[idx[k]]
  {
    seq(|idx|, k requires 0 <= k < |idx| => rows[idx[k]])
  }

  /** The dataset restricted to the time steps whose calendar year lies in the window. */
  function SelectYears(d: Dataset, w: YearWindow): (s: Dataset)
    requires WellFormed(d)
    ensures WellFormed(s)
    ensures s.realizations == d.realizations && s.memberIds == d.memberIds && s.locations == d.locations
    ensures forall t :: 0 <= t < |s.years| ==> w.Contains(s.years[t])
    ensures |s.years| == 0 <==> forall t :: 0 <= t < |d.years| ==> !w.Contains(d.years[t])
    ensures var idx := TimesIn(d.years, w);
            && |s.years| == |idx|
            && (forall k :: 0 <= k < |idx| ==> s.years[k] == d.years[idx[k]])
            && forall i :: 0 <= i < |s.values| ==> s.values[i] == GatherSteps(d.values[i], idx)
  {
    var idx := TimesIn(d.years, w);
    var years := seq(|idx|, k requires 0 <= k < |idx| => d.years[idx[k]]);
    var values := seq(|d.values|, i requires 0 <= i < |d.values| => GatherSteps(d.values[i], idx));
    GatheredWellFormed(d, idx, years, values);
    NoTimesIn(d.years, w);
    Dataset(d.realizations, d.memberIds, years, d.locations, values)
  }

  lemma GatheredWellFormed(d: Dataset, idx: seq<nat>, years: seq<int>, values: seq<seq<seq<real>>>)
    requires WellFormed(d)
    requires forall k :: 0 <= k < |idx| ==> idx[k] < |d.years|
    requires |years| == |idx| && |values| == |d.values|
    requires forall i :: 0 <= i < |values| ==> values[i] == GatherSteps(d.values[i], idx)
    ensures WellFormed(Dataset(d.realizations, d.memberIds, years, d.locations, values))
  {
  }

  // ---------------------------------------------------------------------------
  // Realization selection, relabelling and concatenation

  /** Position of the first occurrence of `x` in `labels`, or `|labels|`. */
  function IndexOf(labels: seq<int>, x: int): (i: nat)
    ensures i <= |labels|
    ensures i < |labels| ==> labels[i] == x
    ensures i == |labels| <==> x !in labels
    ensures forall j :: 0 <= j < i ==> labels[j] != x
  {
    if |labels| == 0 then 0
    else if labels[0] == x then 0
    else 1 + IndexOf(labels[1..], x)
  }

  /** The first wanted label that is not available, if any. */
  function FirstMissing(wanted: seq<int>, available: seq<int>): (m: Option<int>)
    ensures m.None? <==> forall k :: 0 <= k < |wanted| ==> wanted[k] in available
    ensures m.Some? ==> m.value in wanted && m.value !in available
  {
    if |wanted| == 0 then None
    else if wanted[0] !in available then Some(wanted[0])
    else FirstMissing(wanted[1..], available)
  }

  /** `ds.sel(realization=labels)`: the realizations with the given labels, in
      the order given; a label that is absent is a KeyError. */
  function SelectRealizations(d: Dataset, labels: seq<int>): (r: Result<Dataset>)
    requires WellFormed(d)
    ensures r.Ok? <==> forall k :: 0 <= k < |labels| ==> labels[k] in d.realizations
    ensures r.Err? ==> r.error.MissingRealization? && r.error.which in labels && r.error.which !in d.realizations
    ensures r.Ok? ==>
              && WellFormed(r.value)
              && r.value.realizations == labels
              && r.value.years == d.years && r.value.locations == d.locations
              && forall k :: 0 <= k < |labels| ==>
                   && r.value.values[k] == d.values[IndexOf(d.realizations, labels[k])]
                   && r.value.memberIds[k] == d.memberIds[IndexOf(d.realizations, labels[k])]
  {
    match FirstMissing(labels, d.realizations)
    case Some(x) => Err(MissingRealization(x))
    case None =>
      var pos := seq(|labels|, k requires 0 <= k < |labels| => IndexOf(d.realizations, labels[k]));
      Ok(Dataset(
        labels,
        seq(|labels|, k requires 0 <= k < |labels| => d.memberIds[pos[k]]),
        d.years,
        d.locations,
        seq(|labels|, k requires 0 <= k < |labels| => d.values[pos[k]])))
  }

  /** The first position that is not below `n`, if any. */
  function FirstOutOfRange(positions: seq<nat>, n: nat): (m: Option<int>)
    ensures m.None? <==> forall k :: 0 <= k < |positions| ==> positions[k] < n
    ensures m.Some? ==> m.value in positions && m.value >= n
  {
    if |positions| == 0 then None
    else if positions[0] >= n then Some(positions[0])
    else FirstOutOfRange(positions[1..], n)
  }

  /** `ds.isel(realization=positions)`: the realizations at the given
      positions, labels included; a position past the end is an IndexError. */
  function SelectPositions(d: Dataset, positions: seq<nat>): (r: Result<Dataset>)
    requires WellFormed(d)
    ensures r.Ok? <==> forall k :: 0 <= k < |positions| ==> positions[k] < |d.realizations|
    ensures r.Err? ==> r.error.MissingRealization? && r.error.which in positions
    ensures r.Ok? ==>
              && WellFormed(r.value)
              && |r.value.realizations| == |positions|
              && r.value.years == d.years && r.value.locations == d.locations
              && forall k :: 0 <= k < |positions| ==>
                   && r.value.realizations[k] == d.realizations[positions[k]]
                   && r.value.values[k] == d.values[positions[k]]
                   && r.value.memberIds[k] == d.memberIds[positions[k]]
  {
    match FirstOutOfRange(positions, |d.realizations|)
    case Some(p) => Err(MissingRealization(p))
    case None =>
      Ok(Dataset(
        seq(|positions|, k requires 0 <= k < |positions| => d.realizations[positions[k]]),
        seq(|positions|, k requires 0 <= k < |positions| => d.memberIds[positions[k]]),
        d.years,
        d.locations,
        seq(|positions|, k requires 0 <= k < |positions| => d.values[positions[k]])))
  }

  /** `ds.assign_coords(realization=labels)`: new labels, same data. */
  function Relabel(d: Dataset, labels: seq<int>): (r: Dataset)
    requires WellFormed(d) && |labels| == |d.realizations|
    ensures WellFormed(r) && r.realizations == labels
    ensures r.values == d.values && r.memberIds == d.memberIds && r.years == d.years && r.locations == d.locations
  {
    d.(realizations := labels)
  }

  /** `xr.concat([a, b], dim="realization")` for two datasets on the same time
      axis and grid. */
  function ConcatRealizations(a: Dataset, b: Dataset): (r: Dataset)
    requires WellFormed(a) && WellFormed(b)
    requires a.years == b.years && a.locations == b.locations
    ensures WellFormed(r)
    ensures r.realizations == a.realizations + b.realizations
    ensures r.years == a.years && r.locations == a.locations
    ensures forall i :: 0 <= i < |a.values| ==> r.values[i] == a.values[i] && r.memberIds[i] == a.memberIds[i]
    ensures forall i :: 0 <= i < |b.values| ==>
              r.values[|a.values| + i] == b.values[i] && r.memberIds[|a.values| + i] == b.memberIds[i]
  {
    Dataset(a.realizations + b.realizations, a.memberIds + b.memberIds, a.years, a.locations, a.values + b.values)
  }

  // ---------------------------------------------------------------------------
  // Reductions

  /** The time series of one grid point: `rows[t][l]` for every step `t`. */
  function Column(rows: seq<seq<real>>, l: nat): (c: seq<real>)
    requires forall t :: 0 <= t < |rows| ==> l < |rows[t]|
    ensures |c| == |rows|
    ensures forall t :: 0 <= t < |rows| ==> c[t] == rows[t][l]
  {
    seq(|rows|, t requires 0 <= t < |rows| => rows[t][l])
  }

  /** The time mean at one realization position and grid point. */
  function TimeMean(d: Dataset, i: nat, l: nat): real
    requires WellFormed(d) && i < |d.realizations| && l < d.locations && |d.years| > 0
  {
    Mean(Column(d.values[i], l))
  }

  /** `ds.squeeze().mean(dim="time")`: every time reduction of the pipeline
      follows a `squeeze()`, which drops a time axis of length one, so a
      single selected step leaves no time dimension to reduce over and is a
      ValueError. A window that selected no time step is reported as an
      empty selection. */
  function MeanOverTime(d: Dataset): (r: Result<Field>)
    requires WellFormed(d)
    ensures r.Err? <==> |d.years| <= 1
    ensures |d.years| == 0 ==> r == Err(EmptySelection)
    ensures |d.years| == 1 ==> r == Err(MissingDimension)
    ensures r.Ok? ==> FieldWellFormed(r.value) && r.value.realizations == d.realizations && r.value.locations == d.locations
    ensures r.Ok? ==> forall i, l :: 0 <= i < |d.values| && 0 <= l < d.locations ==> r.value.values[i][l] == TimeMean(d, i, l)
  {
    if |d.years| == 0 then Err(EmptySelection)
    else if |d.years| == 1 then Err(MissingDimension)
    else
      Ok(Field(d.realizations, d.locations,
        seq(|d.values|, i requires 0 <= i < |d.values| =>
          seq(d.locations, l requires 0 <= l < d.locations => TimeMean(d, i, l)))))
  }

  /** The time maximum at one realization position and grid point: at least
      the value of every time step, and equal to the value of one of them. */
  function TimeMax(d: Dataset, i: nat, l: nat): (m: real)
    requires WellFormed(d) && i < |d.realizations| && l < d.locations && |d.years| > 0
    ensures forall t :: 0 <= t < |d.years| ==> d.values[i][t][l] <= m
    ensures exists t :: 0 <= t < |d.years| && d.values[i][t][l] == m
  {
    var c := Column(d.values[i], l);
    var m := Max(c);
    var t :| 0 <= t < |c| && c[t] == m;
    assert d.values[i][t][l] == m;
    m
  }

  /** `ds.squeeze().max(dim="time")`, with the same errors as the time mean. */
  function MaxOverTime(d: Dataset): (r: Result<Field>)
    requires WellFormed(d)
    ensures r.Err? <==> |d.years| <= 1
    ensures |d.years| == 0 ==> r == Err(EmptySelection)
    ensures |d.years| == 1 ==> r == Err(MissingDimension)
    ensures r.Ok? ==> FieldWellFormed(r.value) && r.value.realizations == d.realizations && r.value.locations == d.locations
    ensures r.Ok? ==> forall i, l :: 0 <= i < |d.values| && 0 <= l < d.locations ==> r.value.values[i][l] == TimeMax(d, i, l)
  {
    if |d.years| == 0 then Err(EmptySelection)
    else if |d.years| == 1 then Err(MissingDimension)
    else
      Ok(Field(d.realizations, d.locations,
        seq(|d.values|, i requires 0 <= i < |d.values| =>
          seq(d.locations, l requires 0 <= l < d.locations => TimeMax(d, i, l)))))
  }

  /** All samples of one grid point, realization after realization. */
  function Pooled(d: Dataset, l: nat): seq<real>
    requires WellFormed(d) && l < d.locations
  {
    Flatten(seq(|d.values|, i requires 0 <= i < |d.values| => Column(d.values[i], l)))
  }

  /** `ds.squeeze().mean(dim=["time", "realization"])`: one mean per grid
      point over every sample of every realization. A time or realization
      axis of length one is dropped by the squeeze, and reducing over it is
      then a ValueError; an empty axis gives NaN, reported as an empty
      selection. */
  function MeanOverTimeAndRealizations(d: Dataset): (r: Result<seq<real>>)
    requires WellFormed(d)
    ensures r.Err? <==> |d.years| <= 1 || |d.realizations| <= 1
    ensures |d.years| == 1 || |d.realizations| == 1 ==> r == Err(MissingDimension)
    ensures r.Err? && r.error != MissingDimension ==> r.error == EmptySelection
    ensures r.Ok? ==> |r.value| == d.locations
  {
    if |d.years| == 1 || |d.realizations| == 1 then Err(MissingDimension)
    else if |d.years| == 0 || |d.realizations| == 0 then Err(EmptySelection)
    else
      Ok(seq(d.locations, l requires 0 <= l < d.locations =>
        FlattenLength(seq(|d.values|, i requires 0 <= i < |d.values| => Column(d.values[i], l)), |d.years|);
        Mean(Pooled(d, l))))
  }

  /** The pooled mean over time and realizations equals the mean, over
      realizations, of each realization's time mean. */
  lemma PooledMeanIsMeanOfTimeMeans(d: Dataset, l: nat)
    requires WellFormed(d) && l < d.locations
    requires |d.years| > 1 && |d.realizations| > 1
    ensures MeanOverTimeAndRealizations(d).value[l]
         == Mean(seq(|d.values|, i requires 0 <= i < |d.values| => MeanOverTime(d).value.values[i][l]))
  {
    var rows := seq(|d.values|, i requires 0 <= i < |d.values| => Column(d.values[i], l));
    MeanOfMeans(rows, |d.years|);
    var r := MeanOverTime(d);
    assert r.Ok?;
    var f := r.value;
    var means := seq(|d.values|, i requires 0 <= i < |d.values| => MeanOverTime(d).value.values[i][l]);
    forall i | 0 <= i < |rows|
      ensures means[i] == Mean(rows[i])
    {
      assert f.values[i][l] == TimeMean(d, i, l);
    }
    assert means == seq(|rows|, i requires 0 <= i < |rows| => Mean(rows[i]));
    assert MeanOverTimeAndRealizations(d).value[l] == Mean(Pooled(d, l));
    assert Mean(Pooled(d, l)) == Sum(Flatten(rows)) / (|rows| * |d.years|) as real;
  }

  /** Where every sample of a grid point is `x`, the pooled mean there is `x`. */
  lemma PooledMeanOfConstant(d: Dataset, l: nat, x: real)
    requires WellFormed(d) && l < d.locations
    requires |d.years| > 1 && |d.realizations| > 1
    requires forall i, t :: 0 <= i < |d.values| && 0 <= t < |d.years| ==> d.values[i][t][l] == x
    ensures MeanOverTimeAndRealizations(d).value[l] == x
  {
    PooledMeanIsMeanOfTimeMeans(d, l);
    var f := MeanOverTime(d).value;
    var means := seq(|d.values|, i requires 0 <= i < |d.values| => MeanOverTime(d).value.values[i][l]);
    forall i | 0 <= i < |means|
      ensures means[i] == x
    {
      MeanOfConstant(Column(d.values[i], l), x);
      assert f.values[i][l] == TimeMean(d, i, l);
    }
    MeanOfConstant(means, x);
  }

  // ---------------------------------------------------------------------------
  // Differences

  /** `a - b` for two reduced fields. xarray aligns the operands on their
      labels; here they must carry the same realization labels and grid. */
  function Subtract(a: Field, b: Field): (r: Result<Field>)
    requires FieldWellFormed(a) && FieldWellFormed(b)
    ensures r.Err? <==> a.realizations != b.realizations || a.locations != b.locations
    ensures r.Err? ==> r.error == ShapeMismatch
    ensures r.Ok? ==> FieldWellFormed(r.value) && r.value.realizations == a.realizations && r.value.locations == a.locations
    ensures r.Ok? ==> forall i, l :: 0 <= i < |a.values| && 0 <= l < a.locations ==>
              r.value.values[i][l] == a.values[i][l] - b.values[i][l]
  {
    if a.realizations != b.realizations || a.locations != b.locations then Err(ShapeMismatch)
    else
      Ok(Field(a.realizations, a.locations,
        seq(|a.values|, i requires 0 <= i < |a.values| =>
          seq(a.locations, l requires 0 <= l < a.locations => a.values[i][l] - b.values[i][l]))))
  }

  function Negate(f: Field): (g: Field)
    requires FieldWellFormed(f)
    ensures FieldWellFormed(g) && g.realizations == f.realizations && g.locations == f.locations
    ensures forall i, l :: 0 <= i < |f.values| && 0 <= l < f.locations ==> g.values[i][l] == -f.values[i][l]
  {
    Field(f.realizations, f.locations,
      seq(|f.values|, i requires 0 <= i < |f.values| =>
        seq(f.locations, l requires 0 <= l < f.locations => -f.values[i][l])))
  }

  /** Differences are antisymmetric: `b - a == -(a - b)`. */
  lemma SubtractAntisymmetric(a: Field, b: Field)
    requires FieldWellFormed(a) && FieldWellFormed(b)
    ensures Subtract(a, b).Ok? <==> Subtract(b, a).Ok?
    ensures Subtract(a, b).Ok? ==> Subtract(b, a).value == Negate(Subtract(a, b).value)
  {
    if Subtract(a, b).Ok? {
      var ab := Subtract(a, b).value;
      var ba := Subtract(b, a).value;
      var n := Negate(ab);
      assert |ba.values| == |n.values|;
      forall i | 0 <= i < |ba.values|
        ensures ba.values[i] == n.values[i]
      {
        assert |ba.values[i]| == |n.values[i]|;
      }
    }
  }

  /** `a - b` on per-location maps of equal length. */
  function Difference(a: seq<real>, b: seq<real>): (r: seq<real>)
    requires |a| == |b|
    ensures |r| == |a|
    ensures forall l :: 0 <= l < |a| ==> r[l] == a[l] - b[l]
  {
    seq(|a|, l requires 0 <= l < |a| => a[l] - b[l])
  }

  /** Two changes from a common baseline differ by the difference of their
      endpoints: `(a - c) - (b - c) == a - b`. */
  lemma DifferenceOfChanges(a: seq<real>, b: seq<real>, c: seq<real>)
    requires |a| == |b| == |c|
    ensures Difference(Difference(a, c), Difference(b, c)) == Difference(a, b)
  {
    assert |Difference(Difference(a, c), Difference(b, c))| == |Difference(a, b)|;
  }

  /** Per-location maps are antisymmetric too. */
  lemma DifferenceAntisymmetric(a: seq<real>, b: seq<real>)
    requires |a| == |b|
    ensures forall l :: 0 <= l < |a| ==> Difference(b, a)[l] == -Difference(a, b)[l]
  {
  }

  /** `da.isel(time=-1) - da.isel(time=0)` for every realization and grid
      point; an empty time axis is an IndexError. */
  function EndpointChange(d: Dataset): (r: Result<Field>)
    requires WellFormed(d)
    ensures r.Err? <==> |d.years| == 0
    ensures r.Err? ==> r.error == EmptySelection
    ensures r.Ok? ==> FieldWellFormed(r.value) && r.value.realizations == d.realizations && r.value.locations == d.locations
    ensures r.Ok? ==> forall i, l :: 0 <= i < |d.values| && 0 <= l < d.locations ==>
              r.value.values[i][l] == d.values[i][|d.years| - 1][l] - d.values[i][0][l]
  {
    if |d.years| == 0 then Err(EmptySelection)
    else
      var last := |d.years| - 1;
      Ok(Field(d.realizations, d.locations,
        seq(|d.values|, i requires 0 <= i < |d.values| =>
          seq(d.locations, l requires 0 <= l < d.locations => d.values[i][last][l] - d.values[i][0][l]))))
  }

  /** For a series that is linear in the time step, `a + b * t`, the endpoint
      change is `b` times the number of steps between the endpoints. */
  lemma EndpointChangeOfLinearSeries(d: Dataset, i: nat, l: nat, a: real, b: real)
    requires WellFormed(d) && i < |d.realizations| && l < d.locations && |d.years| > 0
    requires forall t :: 0 <= t < |d.years| ==> d.values[i][t][l] == a + b * t as real
    ensures EndpointChange(d).value.values[i][l] == b * (|d.years| - 1) as real
  {
    var last := |d.years| - 1;
    assert d.values[i][last][l] == a + b * last as real;
    assert d.values[i][0][l] == a + b * 0 as real;
  }

  // ---------------------------------------------------------------------------
  // Threshold statistics over the realization axis

  /** The values of every realization at one grid point. */
  function AcrossRealizations(f: Field, l: nat): (c: seq<real>)
    requires FieldWellFormed(f) && l < f.locations
    ensures |c| == |f.realizations|
    ensures forall i :: 0 <= i < |c| ==> c[i] == f.values[i][l]
  {
    seq(|f.values|, i requires 0 <= i < |f.values| => f.values[i][l])
  }

  /** `(f >= threshold).sum(dim="realization")` at every grid point. */
  function CountsAtLeast(f: Field, threshold: real): (c: seq<nat>)
    requires FieldWellFormed(f)
    ensures |c| == f.locations
    ensures forall l :: 0 <= l < f.locations ==> c[l] <= |f.realizations|
    ensures forall l :: 0 <= l < f.locations ==> c[l] == |AtLeastPositions(AcrossRealizations(f, l), threshold)|
  {
    var c := seq(f.locations, l requires 0 <= l < f.locations => CountAtLeast(AcrossRealizations(f, l), threshold));
    assert forall l :: 0 <= l < f.locations ==> c[l] == |AtLeastPositions(AcrossRealizations(f, l), threshold)| by {
      forall l | 0 <= l < f.locations
        ensures c[l] == |AtLeastPositions(AcrossRealizations(f, l), threshold)|
      {
        CountAtLeastIsCardinality(AcrossRealizations(f, l), threshold);
      }
    }
    c
  }

  /** `100 * (f >= thresholds).mean(dim="realization")`, indexed
      `[location][threshold]`: the percentage of realizations at or above each
      threshold. With no realization the mean is undefined. */
  function PercentAtLeastPerThreshold(f: Field, thresholds: seq<real>): (r: Result<seq<seq<real>>>)
    requires FieldWellFormed(f)
    ensures r.Err? <==> |f.realizations| == 0
    ensures r.Err? ==> r.error == EmptySelection
    ensures r.Ok? ==> |r.value| == f.locations
    ensures r.Ok? ==> forall l :: 0 <= l < f.locations ==>
              && |r.value[l]| == |thresholds|
              && forall k :: 0 <= k < |thresholds| ==>
                   && 0.0 <= r.value[l][k] <= 100.0
                   && r.value[l][k] == 100.0 * (CountAtLeast(AcrossRealizations(f, l), thresholds[k]) as real)
                                              / (|f.realizations| as real)
  {
    if |f.realizations| == 0 then Err(EmptySelection)
    else
      Ok(seq(f.locations, l requires 0 <= l < f.locations => PercentRow(AcrossRealizations(f, l), thresholds)))
  }

  /** The percentage of `xs` at or above each of the thresholds. */
  function PercentRow(xs: seq<real>, thresholds: seq<real>): (row: seq<real>)
    requires |xs| > 0
    ensures |row| == |thresholds|
    ensures forall k :: 0 <= k < |thresholds| ==>
              && 0.0 <= row[k] <= 100.0
              && row[k] == 100.0 * (CountAtLeast(xs, thresholds[k]) as real) / (|xs| as real)
  {
    seq(|thresholds|, k requires 0 <= k < |thresholds| => PercentAtLeast(xs, thresholds[k]))
  }

  /** A higher threshold never has a higher percentage. */
  lemma PercentAtLeastPerThresholdAntitone(f: Field, thresholds: seq<real>, l: nat, j: nat, k: nat)
    requires FieldWellFormed(f) && |f.realizations| > 0 && l < f.locations
    requires j < |thresholds| && k < |thresholds| && thresholds[j] <= thresholds[k]
    ensures PercentAtLeastPerThreshold(f, thresholds).value[l][k] <= PercentAtLeastPerThreshold(f, thresholds).value[l][j]
  {
    PercentAtLeastAntitone(AcrossRealizations(f, l), thresholds[j], thresholds[k]);
  }
}
