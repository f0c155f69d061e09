/** The computations behind the plotting module's figures: the four mean
    maps with one colour scale shared by the two "minus before" panels, the
    maps of how many realizations cross a threshold (after a time mean or a
    time maximum) together with the locations where the intervention's effect
    is uncertain, and the per-realization example maps. Rendering, titles and
    saving are not modelled; each figure is described by the arrays it
    draws. */
module Plotting {
  import opened Results
  import opened Stats
  import opened YearRanges
  import opened Ensembles
  import opened FigureData

  // ---------------------------------------------------------------------------
  // Mean maps (make_mean_plots)

  datatype ColourLimits = ColourLimits(low: real, high: real)

  /** One map: its values per grid point and, when the figure fixes one, the
      colour range. */
  datatype MapPanel = MapPanel(values: seq<real>, limits: Option<ColourLimits>)

  datatype MeanPlots = MeanPlots(
    before: MapPanel,
    withoutIntervention: MapPanel,
    withIntervention: MapPanel,
    withMinusWithout: MapPanel)

  /** `max(np.abs(a).max(), np.abs(b).max())`: the largest magnitude in
      either field. numpy refuses the maximum of an empty array. */
  function SharedColourLimit(a: seq<real>, b: seq<real>): (r: Result<real>)
    ensures r.Err? <==> |a| == 0 || |b| == 0
    ensures r.Err? ==> r.error == EmptySelection
    ensures r.Ok? ==>
              && (forall l :: 0 <= l < |a| ==> -r.value <= a[l] <= r.value)
              && (forall l :: 0 <= l < |b| ==> -r.value <= b[l] <= r.value)
    ensures r.Ok? ==>
              (exists l :: 0 <= l < |a| && Abs(a[l]) == r.value) || (exists l :: 0 <= l < |b| && Abs(b[l]) == r.value)
  {
    if |a| == 0 || |b| == 0 then Err(EmptySelection)
    else
      var ma := MaxAbs(a);
      var mb := MaxAbs(b);
      Ok(if ma >= mb then ma else mb)
  }

  /** The shared limit is the least bound on both fields' magnitudes, and it
      does not depend on the order of the two fields. */
  lemma SharedColourLimitIsLeast(a: seq<real>, b: seq<real>, bound: real)
    requires SharedColourLimit(a, b).Ok?
    requires forall l :: 0 <= l < |a| ==> Abs(a[l]) <= bound
    requires forall l :: 0 <= l < |b| ==> Abs(b[l]) <= bound
    ensures 0.0 <= SharedColourLimit(a, b).value <= bound
    ensures SharedColourLimit(b, a) == SharedColourLimit(a, b)
  {
    var m := SharedColourLimit(a, b).value;
    if l :| 0 <= l < |a| && Abs(a[l]) == m {
      assert Abs(a[l]) <= bound;
    } else {
      var l :| 0 <= l < |b| && Abs(b[l]) == m;
      assert Abs(b[l]) <= bound;
    }
  }

  /** The four mean maps. The two changes from the before period share the
      symmetric colour range (-m, m), where m is the largest magnitude of
      either change; the before map and the with-minus-without map keep their
      own automatic ranges. */
  function MakeMeanPlots(control: Dataset, feedback: Dataset, beforeYears: YearWindow, afterYears: YearWindow)
    : (r: Result<MeanPlots>)
    requires WellFormed(control) && WellFormed(feedback)
    ensures r.Ok? <==> MeanPlotData(control, feedback, beforeYears, afterYears).Ok? && control.locations > 0
    ensures r.Ok? ==>
              var m := MeanPlotData(control, feedback, beforeYears, afterYears).value;
              var p := r.value;
              && p.before == MapPanel(m.before, None)
              && p.withoutIntervention.values == m.withoutInterventionMinusBefore
              && p.withIntervention.values == m.withInterventionMinusBefore
              && p.withMinusWithout == MapPanel(m.withMinusWithoutIntervention, None)
    ensures r.Ok? ==>
              var p := r.value;
              && p.withoutIntervention.limits.Some?
              && p.withIntervention.limits == p.withoutIntervention.limits
              && var c := p.withoutIntervention.limits.value;
                 && c.low == -c.high
                 && (forall l :: 0 <= l < control.locations ==>
                       && c.low <= p.withoutIntervention.values[l] <= c.high
                       && c.low <= p.withIntervention.values[l] <= c.high)
  {
    var m :- MeanPlotData(control, feedback, beforeYears, afterYears);
    var limit :- SharedColourLimit(m.withoutInterventionMinusBefore, m.withInterventionMinusBefore);
    var clim := Some(ColourLimits(-limit, limit));
    Ok(MeanPlots(
      MapPanel(m.before, None),
      MapPanel(m.withoutInterventionMinusBefore, clim),
      MapPanel(m.withInterventionMinusBefore, clim),
      MapPanel(m.withMinusWithoutIntervention, None)))
  }

  /** The shared range is as tight as it can be: some grid point of one of
      the two change maps sits on its edge. */
  lemma MeanPlotsLimitAttained(control: Dataset, feedback: Dataset, beforeYears: YearWindow, afterYears: YearWindow)
    requires WellFormed(control) && WellFormed(feedback)
    requires MakeMeanPlots(control, feedback, beforeYears, afterYears).Ok?
    ensures var p := MakeMeanPlots(control, feedback, beforeYears, afterYears).value;
            var m := p.withoutIntervention.limits.value.high;
            || (exists l :: 0 <= l < control.locations && Abs(p.withoutIntervention.values[l]) == m)
            || (exists l :: 0 <= l < control.locations && Abs(p.withIntervention.values[l]) == m)
  {
    var s := MeanPlotData(control, feedback, beforeYears, afterYears).value;
    var limit := SharedColourLimit(s.withoutInterventionMinusBefore, s.withInterventionMinusBefore);
    assert MakeMeanPlots(control, feedback, beforeYears, afterYears).value.withoutIntervention.limits.value.high
        == limit.value;
  }

  // ---------------------------------------------------------------------------
  // Threshold-count maps (make_icv_summary_plots, make_icv_summary_max_plots)

  const ParentPositions: seq<nat> := [0, 1, 2, 3, 4]

  lemma PositionConstants()
    ensures |ParentPositions| == 5 && forall k :: 0 <= k < 5 ==> ParentPositions[k] == k
  {
  }

  /** The facts about the position-matched data that the proofs below use. */
  predicate MatchesByPosition(before: Dataset, matched: Dataset)
  {
    && WellFormed(before) && |before.realizations| >= 5
    && WellFormed(matched) && |matched.realizations| == 10
    && matched.years == before.years && matched.locations == before.locations
    && forall k :: 0 <= k < 10 ==>
         && matched.realizations[k] == (if k < 5 then before.realizations[k] else k)
         && matched.values[k] == before.values[k % 5]
         && matched.memberIds[k] == before.memberIds[k % 5]
  }

  /** The control "before" data lined up with the feedback ensemble by
      position: the first five realizations of the input (with their own
      labels), then the same five relabelled 5..9. */
  function MatchedBeforeByPosition(before: Dataset): (r: Result<Dataset>)
    requires WellFormed(before)
    ensures r.Ok? <==> |before.realizations| >= 5
    ensures r.Err? ==> r.error.MissingRealization? && 0 <= r.error.which < 5
    ensures r.Ok? ==> MatchesByPosition(before, r.value)
  {
    PositionConstants();
    LabelConstants();
    var parents :- SelectPositions(before, ParentPositions);
    assert ParentPositions[4] < |before.realizations|;
    var matched := ConcatRealizations(parents, Relabel(parents, SiblingLabels));
    PositionLayout(before, ParentPositions, SiblingLabels, parents, matched);
    Ok(matched)
  }

  lemma PositionLayout(before: Dataset, positions: seq<nat>, siblingLabels: seq<int>, parents: Dataset, matched: Dataset)
    requires WellFormed(before)
    requires |positions| == 5 && forall k :: 0 <= k < 5 ==> positions[k] == k
    requires |siblingLabels| == 5 && forall j :: 0 <= j < 5 ==> siblingLabels[j] == j + 5
    requires |before.realizations| >= 5
    requires WellFormed(parents) && |parents.realizations| == 5
    requires parents.years == before.years && parents.locations == before.locations
    requires forall k :: 0 <= k < 5 ==>
               && parents.realizations[k] == before.realizations[positions[k]]
               && parents.values[k] == before.values[positions[k]]
               && parents.memberIds[k] == before.memberIds[positions[k]]
    requires matched == ConcatRealizations(parents, Relabel(parents, siblingLabels))
    ensures MatchesByPosition(before, matched)
  {
    forall k | 0 <= k < 10
      ensures matched.realizations[k] == (if k < 5 then before.realizations[k] else k)
      ensures matched.values[k] == before.values[k % 5]
      ensures matched.memberIds[k] == before.memberIds[k % 5]
    {
      var j := if k < 5 then k else k - 5;
      assert j == k % 5;
      assert positions[j] == j;
    }
  }

  /** When the control ensemble's first five realizations carry the labels
      0..4, matching by position is the same as matching by label. */
  lemma MatchersAgree(before: Dataset)
    requires WellFormed(before)
    requires |before.realizations| >= 5 && forall k :: 0 <= k < 5 ==> before.realizations[k] == k
    ensures MatchedBeforeByPosition(before) == FeedbackMatchedBefore(before)
  {
    assert forall k :: 0 <= k < 5 ==> k in before.realizations by {
      forall k | 0 <= k < 5 ensures k in before.realizations {
        assert before.realizations[k] == k;
      }
    }
    SameMatchedData(before, MatchedBeforeByPosition(before).value, FeedbackMatchedBefore(before).value);
  }

  lemma SameMatchedData(before: Dataset, p: Dataset, q: Dataset)
    requires WellFormed(before)
    requires |before.realizations| >= 5 && forall k :: 0 <= k < 5 ==> before.realizations[k] == k
    requires MatchesByPosition(before, p) && MatchesParents(before, q)
    ensures p == q
  {
    forall k | 0 <= k < 10
      ensures p.realizations[k] == q.realizations[k]
      ensures p.values[k] == q.values[k] && p.memberIds[k] == q.memberIds[k]
    {
      IndexOfLeadingLabels(before.realizations, k % 5);
    }
    assert p.realizations == q.realizations;
    assert p.values == q.values;
    assert p.memberIds == q.memberIds;
  }

  lemma IndexOfLeadingLabels(labels: seq<int>, x: nat)
    requires |labels| >= 5 && forall k :: 0 <= k < 5 ==> labels[k] == k
    requires x < 5
    ensures IndexOf(labels, x) == x
  {
    assert labels[x] == x;
  }

  /** The reduction over time that a threshold map is built on:
      `mean(dim="time")` or `max(dim="time")`. */
  datatype Reduction = TimeMeanReduction | TimeMaxReduction

  function ReducedAt(d: Dataset, reduction: Reduction, i: nat, l: nat): real
    requires WellFormed(d) && i < |d.realizations| && l < d.locations && |d.years| > 0
  {
    match reduction
    case TimeMeanReduction => TimeMean(d, i, l)
    case TimeMaxReduction => TimeMax(d, i, l)
  }

  /** The chosen reduction over time of squeezed data, failing as the time
      mean and time maximum do. */
  function Reduce(d: Dataset, reduction: Reduction): (r: Result<Field>)
    requires WellFormed(d)
    ensures r.Err? <==> |d.years| <= 1
    ensures |d.years| == 0 ==> r == Err(EmptySelection)
    ensures |d.years| == 1 ==> r == Err(MissingDimension)
    ensures r.Ok? ==> FieldWellFormed(r.value) && r.value.realizations == d.realizations && r.value.locations == d.locations
    ensures r.Ok? ==> forall i, l :: 0 <= i < |d.values| && 0 <= l < d.locations ==> r.value.values[i][l] == ReducedAt(d, reduction, i, l)
  {
    match reduction
    case TimeMeanReduction => MeanOverTime(d)
    case TimeMaxReduction => MaxOverTime(d)
  }

  /** Two datasets whose rows agree at two positions reduce to the same value
      there. */
  lemma ReducedAtSameRow(d: Dataset, i: nat, e: Dataset, j: nat, reduction: Reduction, l: nat)
    requires WellFormed(d) && i < |d.realizations| && l < d.locations && |d.years| > 0
    requires WellFormed(e) && j < |e.realizations| && l < e.locations && |e.years| > 0
    requires d.values[i] == e.values[j]
    ensures ReducedAt(d, reduction, i, l) == ReducedAt(e, reduction, j, l)
  {
  }

  /** The time-reduced change of every realization of each ensemble, the
      number of realizations whose change reaches the threshold, and the
      locations where the feedback realizations disagree. */
  datatype IcvSummary = IcvSummary(
    changeControl: Field,
    changeFeedback: Field,
    increasedRiskControl: seq<nat>,
    increasedRiskFeedback: seq<nat>,
    uncertainFeedback: seq<bool>)

  /** The feedback ensemble is labelled like the position-matched before
      data: the control's first five labels, then 5..9. */
  predicate LabelledLikeMatched(control: Dataset, feedback: Dataset)
  {
    && |control.realizations| >= 5
    && |feedback.realizations| == 10
    && forall k :: 0 <= k < 10 ==> feedback.realizations[k] == (if k < 5 then control.realizations[k] else k)
  }

  /** `after.reduce(dim="time") - before.reduce(dim="time")` for two
      ensembles with the same realization labels and grid. */
  function ReducedChange(after: Dataset, before: Dataset, reduction: Reduction): (r: Result<Field>)
    requires WellFormed(after) && WellFormed(before)
    ensures r.Ok? <==>
              && |after.years| > 1 && |before.years| > 1
              && after.realizations == before.realizations && after.locations == before.locations
    ensures r.Ok? ==>
              && FieldWellFormed(r.value)
              && r.value.realizations == after.realizations && r.value.locations == after.locations
              && forall i, l :: 0 <= i < |after.realizations| && 0 <= l < after.locations ==>
                   r.value.values[i][l] == ReducedAt(after, reduction, i, l) - ReducedAt(before, reduction, i, l)
  {
    var a :- Reduce(after, reduction);
    var b :- Reduce(before, reduction);
    Subtract(a, b)
  }

  /** The time-reduced change of each control realization against its own
      before data and of each feedback realization against the
      position-matched before data. */
  function IcvChanges(control: Dataset, feedback: Dataset, beforeYears: YearWindow, afterYears: YearWindow,
                      reduction: Reduction): (r: Result<(Field, Field)>)
    requires WellFormed(control) && WellFormed(feedback)
    ensures r.Ok? <==>
              && LabelledLikeMatched(control, feedback)
              && SeveralStepsIn(control, beforeYears) && SeveralStepsIn(control, afterYears)
              && SeveralStepsIn(feedback, afterYears)
              && feedback.locations == control.locations
    ensures r.Ok? ==>
              ChangesFromBefore(control, feedback, SelectYears(control, beforeYears), SelectYears(control, afterYears),
                                SelectYears(feedback, afterYears), reduction, r.value.0, r.value.1)
  {
    var before := SelectYears(control, beforeYears);
    var matched :- MatchedBeforeByPosition(before);
    var controlAfter := SelectYears(control, afterYears);
    var feedbackAfter := SelectYears(feedback, afterYears);
    var changeControl :- ReducedChange(controlAfter, before, reduction);
    MatchedLabels(control, feedback, before, matched);
    var changeFeedback :- ReducedChange(feedbackAfter, matched, reduction);
    MatchedChangeIsFromParents(control, feedback, before, controlAfter, feedbackAfter, matched, reduction,
                               changeControl, changeFeedback);
    Ok((changeControl, changeFeedback))
  }

  function IcvSummaryPlotData(control: Dataset, feedback: Dataset, beforeYears: YearWindow, afterYears: YearWindow,
                              threshold: real, reduction: Reduction): (r: Result<IcvSummary>)
    requires WellFormed(control) && WellFormed(feedback)
    ensures r.Ok? <==> IcvChanges(control, feedback, beforeYears, afterYears, reduction).Ok?
    ensures r.Ok? ==>
              (r.value.changeControl, r.value.changeFeedback) == IcvChanges(control, feedback, beforeYears, afterYears, reduction).value
    ensures r.Ok? ==>
              var s := r.value;
              && |s.increasedRiskControl| == |s.increasedRiskFeedback| == |s.uncertainFeedback| == control.locations
              && (forall l :: 0 <= l < control.locations ==>
                    && s.increasedRiskControl[l] == |AtLeastPositions(AcrossRealizations(s.changeControl, l), threshold)|
                    && s.increasedRiskControl[l] <= |control.realizations|
                    && s.increasedRiskFeedback[l] == |AtLeastPositions(AcrossRealizations(s.changeFeedback, l), threshold)|
                    && s.increasedRiskFeedback[l] <= 10
                    && (s.uncertainFeedback[l] <==> 0 < s.increasedRiskFeedback[l] < 10))
    ensures r.Ok? ==>
              && FieldWellFormed(r.value.changeFeedback) && |r.value.changeFeedback.realizations| == 10
              && r.value.changeFeedback.locations == control.locations
  {
    var changes :- IcvChanges(control, feedback, beforeYears, afterYears, reduction);
    var countsControl := CountsAtLeast(changes.0, threshold);
    var countsFeedback := CountsAtLeast(changes.1, threshold);
    Ok(IcvSummary(
      changes.0,
      changes.1,
      countsControl,
      countsFeedback,
      seq(|countsFeedback|, l requires 0 <= l < |countsFeedback| => 0 < countsFeedback[l] && countsFeedback[l] < 10)))
  }

  /** Each control realization's change is its own after value minus its own
      before value; each of the ten feedback realizations' change is its
      after value minus the before value of its parent, control position
      i % 5. */
  predicate ChangesFromBefore(control: Dataset, feedback: Dataset, before: Dataset, controlAfter: Dataset,
                              feedbackAfter: Dataset, reduction: Reduction, changeControl: Field, changeFeedback: Field)
    requires WellFormed(before) && WellFormed(controlAfter) && WellFormed(feedbackAfter)
  {
    && |before.years| > 0 && |controlAfter.years| > 0 && |feedbackAfter.years| > 0
    && |before.realizations| >= 5
    && controlAfter.realizations == before.realizations == control.realizations
    && feedbackAfter.realizations == feedback.realizations && |feedback.realizations| == 10
    && controlAfter.locations == before.locations == feedbackAfter.locations
    && FieldWellFormed(changeControl) && FieldWellFormed(changeFeedback)
    && changeControl.realizations == control.realizations
    && changeFeedback.realizations == feedback.realizations
    && changeControl.locations == changeFeedback.locations == before.locations
    && (forall i, l :: 0 <= i < |before.realizations| && 0 <= l < before.locations ==>
          changeControl.values[i][l]
            == ReducedAt(controlAfter, reduction, i, l) - ReducedAt(before, reduction, i, l))
    && (forall i, l :: 0 <= i < 10 && 0 <= l < before.locations ==>
          changeFeedback.values[i][l]
            == ReducedAt(feedbackAfter, reduction, i, l) - ReducedAt(before, reduction, i % 5, l))
  }

  /** The feedback labels agree with the matched before data exactly when
      they are the control's first five labels followed by 5..9. */
  lemma MatchedLabels(control: Dataset, feedback: Dataset, before: Dataset, matched: Dataset)
    requires before.realizations == control.realizations
    requires MatchesByPosition(before, matched)
    ensures feedback.realizations == matched.realizations <==> LabelledLikeMatched(control, feedback)
  {
    if LabelledLikeMatched(control, feedback) {
      assert feedback.realizations == matched.realizations;
    }
  }

  lemma MatchedChangeIsFromParents(control: Dataset, feedback: Dataset, before: Dataset, controlAfter: Dataset,
                                   feedbackAfter: Dataset, matched: Dataset, reduction: Reduction,
                                   changeControl: Field, changeFeedback: Field)
    requires WellFormed(control) && WellFormed(feedback)
    requires WellFormed(before) && WellFormed(controlAfter) && WellFormed(feedbackAfter)
    requires before.realizations == controlAfter.realizations == control.realizations
    requires before.locations == controlAfter.locations == control.locations
    requires feedbackAfter.realizations == feedback.realizations && feedbackAfter.locations == feedback.locations
    requires MatchesByPosition(before, matched)
    requires ReducedChange(controlAfter, before, reduction) == Ok(changeControl)
    requires ReducedChange(feedbackAfter, matched, reduction) == Ok(changeFeedback)
    ensures ChangesFromBefore(control, feedback, before, controlAfter, feedbackAfter, reduction, changeControl, changeFeedback)
  {
    forall i, l | 0 <= i < 10 && 0 <= l < before.locations
      ensures ReducedAt(matched, reduction, i, l) == ReducedAt(before, reduction, i % 5, l)
    {
      ReducedAtSameRow(matched, i, before, i % 5, reduction, l);
    }
  }

  /** With the ten feedback realizations, a location is flagged uncertain
      exactly when some realization's change reaches the threshold and some
      other's does not. */
  lemma UncertainMeansDisagreement(control: Dataset, feedback: Dataset, beforeYears: YearWindow, afterYears: YearWindow,
                                   threshold: real, reduction: Reduction, l: nat)
    requires WellFormed(control) && WellFormed(feedback)
    requires IcvSummaryPlotData(control, feedback, beforeYears, afterYears, threshold, reduction).Ok?
    requires l < control.locations
    ensures var s := IcvSummaryPlotData(control, feedback, beforeYears, afterYears, threshold, reduction).value;
            s.uncertainFeedback[l] <==>
              && (exists i :: 0 <= i < 10 && s.changeFeedback.values[i][l] >= threshold)
              && (exists j :: 0 <= j < 10 && s.changeFeedback.values[j][l] < threshold)
  {
    var s := IcvSummaryPlotData(control, feedback, beforeYears, afterYears, threshold, reduction).value;
    MixedCountIsDisagreement(s.changeFeedback, threshold, s.increasedRiskFeedback[l], l);
  }

  /** A count of 10 realizations strictly between 0 and 10 means some reach
      the threshold and some do not. */
  lemma MixedCountIsDisagreement(change: Field, threshold: real, count: nat, l: nat)
    requires FieldWellFormed(change) && |change.realizations| == 10 && l < change.locations
    requires count == |AtLeastPositions(AcrossRealizations(change, l), threshold)|
    ensures 0 < count < 10 <==>
              && (exists i :: 0 <= i < 10 && change.values[i][l] >= threshold)
              && (exists j :: 0 <= j < 10 && change.values[j][l] < threshold)
  {
    var xs := AcrossRealizations(change, l);
    CountAtLeastIsCardinality(xs, threshold);
  }

  // ---------------------------------------------------------------------------
  // Example maps (make_example_plots)

  /** One example map: the member id in its title, whether it shows the
      feedback ensemble, and the change in time mean per grid point. */
  datatype ExamplePanel = ExamplePanel(memberId: string, withIntervention: bool, change: seq<real>)

  /** `after.isel(realization=i).mean(dim="time") - before.isel(realization=j).mean(dim="time")`
      on squeezed data: a single selected time step leaves no time axis. */
  function RealizationChange(after: Dataset, i: nat, before: Dataset, j: nat): (r: Result<seq<real>>)
    requires WellFormed(after) && WellFormed(before)
    ensures r.Ok? <==>
              && i < |after.realizations| && j < |before.realizations|
              && |after.years| > 1 && |before.years| > 1 && after.locations == before.locations
    ensures r.Err? && i >= |after.realizations| ==> r.error == MissingRealization(i)
    ensures r.Ok? ==>
              && |r.value| == after.locations
              && forall l :: 0 <= l < after.locations ==> r.value[l] == TimeMean(after, i, l) - TimeMean(before, j, l)
  {
    if i >= |after.realizations| then Err(MissingRealization(i))
    else if j >= |before.realizations| then Err(MissingRealization(j))
    else if |after.years| == 0 || |before.years| == 0 then Err(EmptySelection)
    else if |after.years| == 1 || |before.years| == 1 then Err(MissingDimension)
    else if after.locations != before.locations then Err(ShapeMismatch)
    else Ok(seq(after.locations, l requires 0 <= l < after.locations => TimeMean(after, i, l) - TimeMean(before, j, l)))
  }

  /** The three maps for one requested realization r: the control change of
      r, the feedback change of r, and the feedback change of r + 5, each
      against the same position's own before mean. Only 0..4 are accepted. */
  function ExamplePanelsFor(before: Dataset, controlAfter: Dataset, feedbackAfter: Dataset, r: int)
    : (p: Result<seq<ExamplePanel>>)
    requires WellFormed(before) && WellFormed(controlAfter) && WellFormed(feedbackAfter)
    ensures !(0 <= r < 5) ==> p == Err(RealizationOutOfRange(r))
    ensures p.Ok? ==>
              && 0 <= r < 5 && r + 5 < |before.realizations|
              && |p.value| == 3
              && p.value[0].memberId == before.memberIds[r] && !p.value[0].withIntervention
              && RealizationChange(controlAfter, r, before, r) == Ok(p.value[0].change)
              && p.value[1].memberId == before.memberIds[r] && p.value[1].withIntervention
              && RealizationChange(feedbackAfter, r, before, r) == Ok(p.value[1].change)
              && p.value[2].memberId == before.memberIds[r + 5] && p.value[2].withIntervention
              && RealizationChange(feedbackAfter, r + 5, before, r + 5) == Ok(p.value[2].change)
    ensures 0 <= r < 5 && r + 5 < |before.realizations| ==>
              (p.Ok? <==>
                 && RealizationChange(controlAfter, r, before, r).Ok?
                 && RealizationChange(feedbackAfter, r, before, r).Ok?
                 && RealizationChange(feedbackAfter, r + 5, before, r + 5).Ok?)
  {
    if !(0 <= r < 5) then Err(RealizationOutOfRange(r))
    else if r >= |before.realizations| then Err(MissingRealization(r))
    else if r + 5 >= |before.realizations| then Err(MissingRealization(r + 5))
    else
      var noIntervention :- RealizationChange(controlAfter, r, before, r);
      var withIntervention :- RealizationChange(feedbackAfter, r, before, r);
      var sibling :- RealizationChange(feedbackAfter, r + 5, before, r + 5);
      Ok([ExamplePanel(before.memberIds[r], false, noIntervention),
          ExamplePanel(before.memberIds[r], true, withIntervention),
          ExamplePanel(before.memberIds[r + 5], true, sibling)])
  }

  /** The panels for a list of requested realizations, in order; the first
      realization that fails stops the whole figure with its error. */
  function ExamplePanels(before: Dataset, controlAfter: Dataset, feedbackAfter: Dataset, realizations: seq<int>)
    : (r: Result<seq<ExamplePanel>>)
    requires WellFormed(before) && WellFormed(controlAfter) && WellFormed(feedbackAfter)
    ensures r.Ok? ==> |r.value| == 3 * |realizations|
  {
    if |realizations| == 0 then Ok([])
    else
      var earlier :- ExamplePanels(before, controlAfter, feedbackAfter, realizations[..|realizations| - 1]);
      var last :- ExamplePanelsFor(before, controlAfter, feedbackAfter, realizations[|realizations| - 1]);
      Ok(earlier + last)
  }

  /** Once a prefix of the requested realizations fails, the figure fails
      with the same error whatever follows. */
  lemma {:induction false} ExampleErrorPersists(before: Dataset, controlAfter: Dataset, feedbackAfter: Dataset,
                                                realizations: seq<int>, n: nat)
    requires WellFormed(before) && WellFormed(controlAfter) && WellFormed(feedbackAfter)
    requires n <= |realizations|
    requires ExamplePanels(before, controlAfter, feedbackAfter, realizations[..n]).Err?
    ensures ExamplePanels(before, controlAfter, feedbackAfter, realizations)
         == ExamplePanels(before, controlAfter, feedbackAfter, realizations[..n])
  {
    if n < |realizations| {
      var m := |realizations| - 1;
      assert realizations[..m][..n] == realizations[..n];
      ExampleErrorPersists(before, controlAfter, feedbackAfter, realizations[..m], n);
      assert realizations[..m] == realizations[..|realizations| - 1];
    } else {
      assert realizations[..n] == realizations;
    }
  }

  /** A finished figure has three maps per requested realization, in the
      order requested, and every request was one of 0..4. */
  lemma {:induction false} ExamplePanelsLayout(before: Dataset, controlAfter: Dataset, feedbackAfter: Dataset,
                                               realizations: seq<int>, k: nat)
    requires WellFormed(before) && WellFormed(controlAfter) && WellFormed(feedbackAfter)
    requires ExamplePanels(before, controlAfter, feedbackAfter, realizations).Ok?
    requires k < |realizations|
    ensures |ExamplePanels(before, controlAfter, feedbackAfter, realizations).value| == 3 * |realizations|
    ensures 0 <= realizations[k] < 5
    ensures ExamplePanelsFor(before, controlAfter, feedbackAfter, realizations[k]).Ok?
    ensures ExamplePanels(before, controlAfter, feedbackAfter, realizations).value[3 * k .. 3 * k + 3]
         == ExamplePanelsFor(before, controlAfter, feedbackAfter, realizations[k]).value
  {
    var n := |realizations| - 1;
    var front := realizations[..n];
    var whole := ExamplePanels(before, controlAfter, feedbackAfter, realizations).value;
    var earlier := ExamplePanels(before, controlAfter, feedbackAfter, front).value;
    var last := ExamplePanelsFor(before, controlAfter, feedbackAfter, realizations[n]).value;
    assert whole == earlier + last;
    if k < n {
      ExamplePanelsLayout(before, controlAfter, feedbackAfter, front, k);
      assert front[k] == realizations[k];
      assert whole[3 * k .. 3 * k + 3] == earlier[3 * k .. 3 * k + 3];
    } else {
      if n > 0 {
        ExamplePanelsLayout(before, controlAfter, feedbackAfter, front, n - 1);
      }
      assert |earlier| == 3 * n;
      assert whole[3 * k .. 3 * k + 3] == last;
    }
  }

  /** The loop of make_example_plots: for each requested realization it
      checks the request, then appends the three maps to the panel list. */
  method MakeExamplePlots(before: Dataset, controlAfter: Dataset, feedbackAfter: Dataset, realizations: seq<int>)
    returns (r: Result<seq<ExamplePanel>>)
    requires WellFormed(before) && WellFormed(controlAfter) && WellFormed(feedbackAfter)
    ensures r == ExamplePanels(before, controlAfter, feedbackAfter, realizations)
  {
    var panels: seq<ExamplePanel> := [];
    var k := 0;
    while k < |realizations|
      invariant 0 <= k <= |realizations|
      invariant ExamplePanels(before, controlAfter, feedbackAfter, realizations[..k]) == Ok(panels)
    {
      var next := ExamplePanelsFor(before, controlAfter, feedbackAfter, realizations[k]);
      assert realizations[..k + 1][..k] == realizations[..k];
      if next.Err? {
        ExampleErrorPersists(before, controlAfter, feedbackAfter, realizations, k + 1);
        return Err(next.error);
      }
      panels := panels + next.value;
      k := k + 1;
    }
    assert realizations[..k] == realizations;
    return Ok(panels);
  }

  /** make_example_plots as a whole: the before window of the control
      ensemble and the after windows of both ensembles, then the loop over
      the requested realizations. */
  method MakeExamplePlotsForWindows(control: Dataset, feedback: Dataset, beforeYears: YearWindow,
                                    afterYears: YearWindow, realizations: seq<int>)
    returns (r: Result<seq<ExamplePanel>>)
    requires WellFormed(control) && WellFormed(feedback)
    ensures r == ExamplePanels(SelectYears(control, beforeYears), SelectYears(control, afterYears),
                               SelectYears(feedback, afterYears), realizations)
  {
    var before := SelectYears(control, beforeYears);
    var controlAfter := SelectYears(control, afterYears);
    var feedbackAfter := SelectYears(feedback, afterYears);
    r := MakeExamplePlots(before, controlAfter, feedbackAfter, realizations);
  }
}
