/** The figure-data builders: each selects the before and after windows from
    the control and feedback ensembles, reduces them and packages the derived
    fields with the inclusive year-range strings of the windows used. Writing
    the result to a file is left out; each builder returns its record. */
module FigureData {
  import opened Results
  import opened Stats
  import opened YearRanges
  import opened Ensembles

  const DefaultBeforeYears := YearWindow(2025, 2035)
  const DefaultAfterYears := YearWindow(2035, 2045)
  const DefaultThresholds: seq<real> := [1.0, 15.0, 30.0]

  /** The attribute strings of the default windows, which every builder
      called without year arguments writes: "2025-2034" and "2035-2044". */
  lemma DefaultYearRangeStrings()
    ensures FormatYearRange(DefaultBeforeYears) == "2025-2034"
    ensures FormatYearRange(DefaultAfterYears) == "2035-2044"
  {
    assert DigitChar(2) == '2' && DigitChar(3) == '3' && DigitChar(4) == '4' && DigitChar(5) == '5';
    FormatOfNonNegative(DefaultBeforeYears);
    NumeralOfYear(2, 5);
    NumeralOfYear(3, 4);
    FormatOfNonNegative(DefaultAfterYears);
    NumeralOfYear(3, 5);
    NumeralOfYear(4, 4);
  }

  /** The numeral of the year 20xy. */
  lemma NumeralOfYear(x: nat, y: nat)
    requires x < 10 && y < 10
    ensures NatToString(2000 + 10 * x + y) == ['2', '0', DigitChar(x), DigitChar(y)]
  {
    var century := 200 + x;
    NumeralOfCentury(x);
    NatToStringAppendDigit(century, y);
    assert 10 * century + y == 2000 + 10 * x + y;
  }

  /** The numeral of 20x. */
  lemma NumeralOfCentury(x: nat)
    requires x < 10
    ensures NatToString(200 + x) == ['2', '0', DigitChar(x)]
  {
    assert DigitChar(0) == '0' && NatToString(2) == ['2'];
    NatToStringAppendDigit(2, 0);
    NatToStringAppendDigit(20, x);
  }

  /** Each control-branch realization r followed by its sibling r + 5. */
  const DefaultExampleRealizations: seq<int> := [0, 5, 1, 6, 2, 7, 3, 8, 4, 9]

  /** The control realizations the ten feedback realizations were branched from. */
  const ParentLabels: seq<int> := [0, 1, 2, 3, 4]
  const SiblingLabels: seq<int> := [5, 6, 7, 8, 9]

  /** The labels are 0, 1, ..., n - 1 in that order. */
  predicate IsRangeLabels(labels: seq<int>, n: nat)
  {
    |labels| == n && forall k :: 0 <= k < n ==> labels[k] == k
  }

  /** The labels 0..n-1 are exactly the integers below n, and only one
      sequence is labelled that way. */
  lemma RangeLabelsMembers(labels: seq<int>, other: seq<int>, n: nat)
    requires IsRangeLabels(labels, n)
    ensures forall x :: x in labels <==> 0 <= x < n
    ensures IsRangeLabels(other, n) <==> other == labels
  {
    forall x | 0 <= x < n ensures x in labels {
      assert labels[x] == x;
    }
  }

  /** `matched` holds ten realizations labelled 0..9 on the time axis and
      grid of `before`, and realization k of it is the realization of
      `before` labelled k % 5. */
  predicate MatchesParents(before: Dataset, matched: Dataset)
    requires WellFormed(before)
  {
    && (forall k :: 0 <= k < 5 ==> k in before.realizations)
    && WellFormed(matched)
    && IsRangeLabels(matched.realizations, 10)
    && matched.years == before.years && matched.locations == before.locations
    && forall k :: 0 <= k < 10 ==>
         && matched.values[k] == before.values[IndexOf(before.realizations, k % 5)]
         && matched.memberIds[k] == before.memberIds[IndexOf(before.realizations, k % 5)]
  }

  /** The control "before" data lined up with the feedback ensemble:
      realizations 0..4 of the input, then the same five relabelled 5..9, so
      that feedback realization k finds the data of its parent k % 5 under
      its own label. */
  function FeedbackMatchedBefore(before: Dataset): (r: Result<Dataset>)
    requires WellFormed(before)
    ensures r.Ok? <==> forall k :: 0 <= k < 5 ==> k in before.realizations
    ensures r.Err? ==> r.error.MissingRealization? && 0 <= r.error.which < 5
    ensures r.Ok? ==> MatchesParents(before, r.value)
  {
    LabelConstants();
    LabelsPresent(ParentLabels, before.realizations);
    var parents :- SelectRealizations(before, ParentLabels);
    var matched := ConcatRealizations(parents, Relabel(parents, SiblingLabels));
    MatchedLayout(before, ParentLabels, SiblingLabels, parents, matched);
    Ok(matched)
  }

  /** Realizations k and k + 5 of the matched data are the same control
      realization. */
  lemma MatchedSiblingsAgree(before: Dataset, k: nat)
    requires WellFormed(before) && FeedbackMatchedBefore(before).Ok? && k < 5
    ensures FeedbackMatchedBefore(before).value.values[k + 5] == FeedbackMatchedBefore(before).value.values[k]
    ensures FeedbackMatchedBefore(before).value.memberIds[k + 5] == FeedbackMatchedBefore(before).value.memberIds[k]
  {
    assert (k + 5) % 5 == k % 5;
  }

  lemma LabelConstants()
    ensures IsRangeLabels(ParentLabels, 5)
    ensures |SiblingLabels| == 5 && forall j :: 0 <= j < 5 ==> SiblingLabels[j] == j + 5
  {
  }

  lemma LabelsPresent(parents: seq<int>, labels: seq<int>)
    requires IsRangeLabels(parents, 5)
    ensures (forall k :: 0 <= k < |parents| ==> parents[k] in labels)
            <==> (forall k :: 0 <= k < 5 ==> k in labels)
  {
    if forall k :: 0 <= k < 5 ==> k in labels {
      forall k | 0 <= k < |parents| ensures parents[k] in labels {
        assert parents[k] == k;
      }
    }
    if forall k :: 0 <= k < |parents| ==> parents[k] in labels {
      forall k | 0 <= k < 5 ensures k in labels {
        assert parents[k] == k;
      }
    }
  }

  lemma MatchedLayout(before: Dataset, parentLabels: seq<int>, siblingLabels: seq<int>, parents: Dataset, matched: Dataset)
    requires WellFormed(before)
    requires IsRangeLabels(parentLabels, 5)
    requires |siblingLabels| == 5 && forall j :: 0 <= j < 5 ==> siblingLabels[j] == j + 5
    requires SelectRealizations(before, parentLabels) == Ok(parents)
    requires matched == ConcatRealizations(parents, Relabel(parents, siblingLabels))
    ensures MatchesParents(before, matched)
  {
    LabelsPresent(parentLabels, before.realizations);
    forall k | 0 <= k < 10
      ensures matched.realizations[k] == k
      ensures matched.values[k] == before.values[IndexOf(before.realizations, k % 5)]
      ensures matched.memberIds[k] == before.memberIds[IndexOf(before.realizations, k % 5)]
    {
      MatchedEntry(before, parentLabels, siblingLabels, parents, matched, k);
    }
  }

  lemma MatchedEntry(before: Dataset, parentLabels: seq<int>, siblingLabels: seq<int>, parents: Dataset, matched: Dataset, k: nat)
    requires WellFormed(before) && WellFormed(parents)
    requires IsRangeLabels(parentLabels, 5) && parents.realizations == parentLabels
    requires |siblingLabels| == 5 && forall j :: 0 <= j < 5 ==> siblingLabels[j] == j + 5
    requires forall j :: 0 <= j < 5 ==> j in before.realizations
    requires forall j :: 0 <= j < 5 ==>
               && parents.values[j] == before.values[IndexOf(before.realizations, parentLabels[j])]
               && parents.memberIds[j] == before.memberIds[IndexOf(before.realizations, parentLabels[j])]
    requires parents.years == before.years && parents.locations == before.locations
    requires matched == ConcatRealizations(parents, Relabel(parents, siblingLabels))
    requires k < 10
    ensures matched.realizations[k] == k
    ensures matched.values[k] == before.values[IndexOf(before.realizations, k % 5)]
    ensures matched.memberIds[k] == before.memberIds[IndexOf(before.realizations, k % 5)]
  {
    var j := if k < 5 then k else k - 5;
    assert parentLabels[j] == k % 5;
    assert matched.values[k] == parents.values[j];
    assert matched.memberIds[k] == parents.memberIds[j];
  }

  // ---------------------------------------------------------------------------
  // Mean maps (figure 1)

  datatype MeanSummary = MeanSummary(
    before: seq<real>,
    withoutInterventionMinusBefore: seq<real>,
    withInterventionMinusBefore: seq<real>,
    withMinusWithoutIntervention: seq<real>,
    beforeYearRange: string,
    afterYearRange: string)

  /** The before mean of the control ensemble, the control and feedback after
      means, and their three pairwise changes, per grid point. Every mean is
      over time and realizations together, after a `squeeze()`: each
      ensemble needs at least two realizations and each window at least two
      time steps. */
  function MeanPlotData(control: Dataset, feedback: Dataset, beforeYears: YearWindow, afterYears: YearWindow)
    : (r: Result<MeanSummary>)
    requires WellFormed(control) && WellFormed(feedback)
    ensures r.Ok? <==>
              && |control.realizations| > 1 && |feedback.realizations| > 1
              && SeveralStepsIn(control, beforeYears) && SeveralStepsIn(control, afterYears)
              && SeveralStepsIn(feedback, afterYears)
              && control.locations == feedback.locations
    ensures r.Ok? ==>
              var before := MeanOverTimeAndRealizations(SelectYears(control, beforeYears));
              var controlAfter := MeanOverTimeAndRealizations(SelectYears(control, afterYears));
              var feedbackAfter := MeanOverTimeAndRealizations(SelectYears(feedback, afterYears));
              && before.Ok? && controlAfter.Ok? && feedbackAfter.Ok?
              && MeanMaps(before.value, controlAfter.value, feedbackAfter.value, control.locations, r.value)
    ensures r.Ok? ==>
              && r.value.beforeYearRange == FormatYearRange(beforeYears)
              && r.value.afterYearRange == FormatYearRange(afterYears)
  {
    var before :- MeanOverTimeAndRealizations(SelectYears(control, beforeYears));
    var controlAfter :- MeanOverTimeAndRealizations(SelectYears(control, afterYears));
    var feedbackAfter :- MeanOverTimeAndRealizations(SelectYears(feedback, afterYears));
    if |feedbackAfter| != |before| then Err(ShapeMismatch)
    else
      Ok(MeanSummaryOf(before, controlAfter, feedbackAfter, FormatYearRange(beforeYears), FormatYearRange(afterYears)))
  }

  /** The four maps of `m` over `n` grid points: the before mean, and the
      after means minus the before mean and minus each other. The
      with-minus-without change is the difference of the two changes from
      before. */
  predicate MeanMaps(before: seq<real>, controlAfter: seq<real>, feedbackAfter: seq<real>, n: nat, m: MeanSummary)
  {
    && |before| == |controlAfter| == |feedbackAfter| == n
    && m.before == before
    && |m.withoutInterventionMinusBefore| == |m.withInterventionMinusBefore| == |m.withMinusWithoutIntervention| == n
    && forall l :: 0 <= l < n ==>
         && m.withoutInterventionMinusBefore[l] == controlAfter[l] - before[l]
         && m.withInterventionMinusBefore[l] == feedbackAfter[l] - before[l]
         && m.withMinusWithoutIntervention[l] == feedbackAfter[l] - controlAfter[l]
         && m.withMinusWithoutIntervention[l] == m.withInterventionMinusBefore[l] - m.withoutInterventionMinusBefore[l]
  }

  function MeanSummaryOf(before: seq<real>, controlAfter: seq<real>, feedbackAfter: seq<real>,
                         beforeYearRange: string, afterYearRange: string): (m: MeanSummary)
    requires |before| == |controlAfter| == |feedbackAfter|
    ensures MeanMaps(before, controlAfter, feedbackAfter, |before|, m)
    ensures m.beforeYearRange == beforeYearRange && m.afterYearRange == afterYearRange
  {
    MeanSummary(
      before,
      Difference(controlAfter, before),
      Difference(feedbackAfter, before),
      Difference(feedbackAfter, controlAfter),
      beforeYearRange,
      afterYearRange)
  }

  /** The `before` map has no realization or time axis left: at each grid
      point it is the mean, over control realizations, of each realization's
      mean over the before window. */
  lemma MeanPlotBeforeIsEnsembleMean(control: Dataset, feedback: Dataset, beforeYears: YearWindow, afterYears: YearWindow, l: nat)
    requires WellFormed(control) && WellFormed(feedback)
    requires MeanPlotData(control, feedback, beforeYears, afterYears).Ok?
    requires l < control.locations
    ensures var b := SelectYears(control, beforeYears);
            && MeanOverTime(b).Ok?
            && MeanPlotData(control, feedback, beforeYears, afterYears).value.before[l]
               == Mean(seq(|b.values|, i requires 0 <= i < |b.values| => MeanOverTime(b).value.values[i][l]))
  {
    var b := SelectYears(control, beforeYears);
    PooledMeanIsMeanOfTimeMeans(b, l);
  }

  /** Every value of `d` at a time step in the window is `x`. */
  predicate ConstantIn(d: Dataset, w: YearWindow, x: real)
    requires WellFormed(d)
  {
    forall i, t, l :: 0 <= i < |d.values| && 0 <= t < |d.years| && w.Contains(d.years[t]) && 0 <= l < d.locations ==>
      d.values[i][t][l] == x
  }

  /** With constant ensembles (control b before and c after, feedback f
      after) the four maps are b, c - b, f - b and f - c everywhere. */
  lemma MeanPlotDataOfConstants(control: Dataset, feedback: Dataset, beforeYears: YearWindow, afterYears: YearWindow,
                                b: real, c: real, f: real, l: nat)
    requires WellFormed(control) && WellFormed(feedback)
    requires MeanPlotData(control, feedback, beforeYears, afterYears).Ok?
    requires ConstantIn(control, beforeYears, b) && ConstantIn(control, afterYears, c) && ConstantIn(feedback, afterYears, f)
    requires l < control.locations
    ensures var m := MeanPlotData(control, feedback, beforeYears, afterYears).value;
            && m.before[l] == b
            && m.withoutInterventionMinusBefore[l] == c - b
            && m.withInterventionMinusBefore[l] == f - b
            && m.withMinusWithoutIntervention[l] == f - c
  {
    SelectedConstant(control, beforeYears, b, l);
    SelectedConstant(control, afterYears, c, l);
    SelectedConstant(feedback, afterYears, f, l);
  }

  lemma SelectedConstant(d: Dataset, w: YearWindow, x: real, l: nat)
    requires WellFormed(d) && ConstantIn(d, w, x) && l < d.locations
    requires |SelectYears(d, w).years| > 1 && |d.realizations| > 1
    ensures MeanOverTimeAndRealizations(SelectYears(d, w)).value[l] == x
  {
    var s := SelectYears(d, w);
    var idx := TimesIn(d.years, w);
    forall i, t | 0 <= i < |s.values| && 0 <= t < |s.years|
      ensures s.values[i][t][l] == x
    {
      assert s.values[i][t] == d.values[i][idx[t]];
    }
    PooledMeanOfConstant(s, l, x);
  }

  /** A worked instance: a before mean of 10 with a control after
      mean of 12 and a feedback after mean of 15 gives changes of 2 without
      and 5 with the intervention, 3 between them. */
  lemma MeanPlotDataExample(control: Dataset, feedback: Dataset, beforeYears: YearWindow, afterYears: YearWindow, l: nat)
    requires WellFormed(control) && WellFormed(feedback)
    requires MeanPlotData(control, feedback, beforeYears, afterYears).Ok?
    requires ConstantIn(control, beforeYears, 10.0) && ConstantIn(control, afterYears, 12.0)
    requires ConstantIn(feedback, afterYears, 15.0)
    requires l < control.locations
    ensures var m := MeanPlotData(control, feedback, beforeYears, afterYears).value;
            m.before[l] == 10.0 && m.withoutInterventionMinusBefore[l] == 2.0
            && m.withInterventionMinusBefore[l] == 5.0 && m.withMinusWithoutIntervention[l] == 3.0
  {
    MeanPlotDataOfConstants(control, feedback, beforeYears, afterYears, 10.0, 12.0, 15.0, l);
  }

  // ---------------------------------------------------------------------------
  // Per-realization change maps (figure 2)

  datatype ChangeExample = ChangeExample(meanChange: Field, beforeYearRange: string, afterYearRange: string)

  /** The requested realizations, or the default sibling ordering, which
      shows all ten feedback realizations. */
  function ExampleRealizations(realizations: Option<seq<int>>): (rs: seq<int>)
    ensures realizations.Some? ==> rs == realizations.value
    ensures realizations.None? ==> |rs| == 10 && forall x :: 0 <= x < 10 ==> x in rs
  {
    DefaultExampleRealizationsPairSiblings();
    match realizations
    case Some(rs) => rs
    case None => DefaultExampleRealizations
  }

  /** For each requested feedback realization, its after-window mean minus the
      before-window mean of the control realization it was branched from. */
  function ChangeExamplePlotData(control: Dataset, feedback: Dataset, beforeYears: YearWindow, afterYears: YearWindow,
                                 realizations: Option<seq<int>>)
    : (r: Result<ChangeExample>)
    requires WellFormed(control) && WellFormed(feedback)
    ensures r.Ok? ==>
              && ChangeFromParents(control, feedback, beforeYears, afterYears, ExampleRealizations(realizations)) == Ok(r.value.meanChange)
              && r.value.beforeYearRange == FormatYearRange(beforeYears)
              && r.value.afterYearRange == FormatYearRange(afterYears)
    ensures r.Err? <==> ChangeFromParents(control, feedback, beforeYears, afterYears, ExampleRealizations(realizations)).Err?
  {
    var change :- ChangeFromParents(control, feedback, beforeYears, afterYears, ExampleRealizations(realizations));
    Ok(ChangeExample(change, FormatYearRange(beforeYears), FormatYearRange(afterYears)))
  }

  /** The change map of the labels `rs`, realization by realization. Labels
      outside 0..9 have no matched before data. */
  function ChangeFromParents(control: Dataset, feedback: Dataset, beforeYears: YearWindow, afterYears: YearWindow,
                             rs: seq<int>)
    : (r: Result<Field>)
    requires WellFormed(control) && WellFormed(feedback)
    ensures r.Ok? <==>
              && (forall k :: 0 <= k < 5 ==> k in control.realizations)
              && (forall k :: 0 <= k < |rs| ==> 0 <= rs[k] < 10 && rs[k] in feedback.realizations)
              && SeveralStepsIn(control, beforeYears) && SeveralStepsIn(feedback, afterYears)
              && feedback.locations == control.locations
    ensures r.Ok? ==> ComparedWithParents(control, feedback, beforeYears, afterYears, rs, r.value)
  {
    var selected :- ChangeSelections(control, feedback, beforeYears, afterYears, rs);
    var (matched, beforeSelected, afterSelected) := selected;
    var afterMean :- MeanOverTime(afterSelected);
    var beforeMean :- MeanOverTime(beforeSelected);
    MeansComparedWithParent(control, feedback, beforeYears, afterYears, rs, matched, beforeSelected, afterSelected,
                            afterMean, beforeMean);
    Subtract(afterMean, beforeMean)
  }

  /** `change` holds, for each label of `rs` (all in 0..9, present in the
      feedback run and with their parent present in the control run), the
      after time mean of that feedback realization minus the before time mean
      of its parent. */
  predicate ComparedWithParents(control: Dataset, feedback: Dataset, beforeYears: YearWindow, afterYears: YearWindow,
                                rs: seq<int>, change: Field)
    requires WellFormed(control) && WellFormed(feedback)
  {
    && FieldWellFormed(change)
    && change.realizations == rs
    && change.locations == feedback.locations == control.locations
    && SeveralStepsIn(control, beforeYears) && SeveralStepsIn(feedback, afterYears)
    && (forall k :: 0 <= k < |rs| ==> 0 <= rs[k] < 10 && rs[k] in feedback.realizations && rs[k] % 5 in control.realizations)
    && var b := SelectYears(control, beforeYears);
       var a := SelectYears(feedback, afterYears);
       && |b.years| > 1 && |a.years| > 1
       && forall k, l :: 0 <= k < |rs| && 0 <= l < feedback.locations ==>
            change.values[k][l] == TimeMean(a, IndexOf(a.realizations, rs[k]), l) - TimeMean(b, IndexOf(b.realizations, rs[k] % 5), l)
  }

  /** The matched before data and the labels `rs` picked from it and from
      the after window: the selections `ChangeFromParents` averages. */
  function ChangeSelections(control: Dataset, feedback: Dataset, beforeYears: YearWindow, afterYears: YearWindow,
                            rs: seq<int>)
    : (r: Result<(Dataset, Dataset, Dataset)>)
    requires WellFormed(control) && WellFormed(feedback)
    ensures r.Ok? <==>
              && (forall k :: 0 <= k < 5 ==> k in control.realizations)
              && (forall k :: 0 <= k < |rs| ==> 0 <= rs[k] < 10 && rs[k] in feedback.realizations)
    ensures r.Ok? ==>
              && MatchesParents(SelectYears(control, beforeYears), r.value.0)
              && SelectRealizations(r.value.0, rs) == Ok(r.value.1)
              && SelectRealizations(SelectYears(feedback, afterYears), rs) == Ok(r.value.2)
  {
    var matched :- FeedbackMatchedBefore(SelectYears(control, beforeYears));
    RangeLabelsMembers(matched.realizations, [], 10);
    var beforeSelected :- SelectRealizations(matched, rs);
    var afterSelected :- SelectRealizations(SelectYears(feedback, afterYears), rs);
    Ok((matched, beforeSelected, afterSelected))
  }

  lemma MeansComparedWithParent(control: Dataset, feedback: Dataset, beforeYears: YearWindow, afterYears: YearWindow,
                                rs: seq<int>, matched: Dataset, beforeSelected: Dataset, afterSelected: Dataset,
                                afterMean: Field, beforeMean: Field)
    requires WellFormed(control) && WellFormed(feedback)
    requires MatchesParents(SelectYears(control, beforeYears), matched)
    requires SelectRealizations(matched, rs) == Ok(beforeSelected)
    requires SelectRealizations(SelectYears(feedback, afterYears), rs) == Ok(afterSelected)
    requires MeanOverTime(afterSelected) == Ok(afterMean) && MeanOverTime(beforeSelected) == Ok(beforeMean)
    ensures Subtract(afterMean, beforeMean).Ok? ==>
              ComparedWithParents(control, feedback, beforeYears, afterYears, rs, Subtract(afterMean, beforeMean).value)
  {
    var b := SelectYears(control, beforeYears);
    var a := SelectYears(feedback, afterYears);
    RequestedLabelsPresent(control, feedback, beforeYears, afterYears, rs, matched, beforeSelected, afterSelected);
    forall k, l | 0 <= k < |rs| && 0 <= l < feedback.locations && l < control.locations
      ensures afterMean.values[k][l] == TimeMean(a, IndexOf(a.realizations, rs[k]), l)
      ensures beforeMean.values[k][l] == TimeMean(b, IndexOf(b.realizations, rs[k] % 5), l)
    {
      MeanEntryComparedWithParent(control, feedback, beforeYears, afterYears, rs, matched, beforeSelected, afterSelected,
                                  afterMean, beforeMean, k, l);
    }
  }

  lemma RequestedLabelsPresent(control: Dataset, feedback: Dataset, beforeYears: YearWindow, afterYears: YearWindow,
                               rs: seq<int>, matched: Dataset, beforeSelected: Dataset, afterSelected: Dataset)
    requires WellFormed(control) && WellFormed(feedback)
    requires MatchesParents(SelectYears(control, beforeYears), matched)
    requires SelectRealizations(matched, rs) == Ok(beforeSelected)
    requires SelectRealizations(SelectYears(feedback, afterYears), rs) == Ok(afterSelected)
    ensures forall k :: 0 <= k < |rs| ==> 0 <= rs[k] < 10 && rs[k] in feedback.realizations && rs[k] % 5 in control.realizations
  {
    forall k | 0 <= k < |rs|
      ensures 0 <= rs[k] < 10 && rs[k] in feedback.realizations && rs[k] % 5 in control.realizations
    {
      assert rs[k] in matched.realizations;
    }
  }

  lemma MeanEntryComparedWithParent(control: Dataset, feedback: Dataset, beforeYears: YearWindow, afterYears: YearWindow,
                                    rs: seq<int>, matched: Dataset, beforeSelected: Dataset, afterSelected: Dataset,
                                    afterMean: Field, beforeMean: Field, k: nat, l: nat)
    requires WellFormed(control) && WellFormed(feedback)
    requires MatchesParents(SelectYears(control, beforeYears), matched)
    requires SelectRealizations(matched, rs) == Ok(beforeSelected)
    requires SelectRealizations(SelectYears(feedback, afterYears), rs) == Ok(afterSelected)
    requires MeanOverTime(afterSelected) == Ok(afterMean) && MeanOverTime(beforeSelected) == Ok(beforeMean)
    requires k < |rs| && l < feedback.locations && l < control.locations
    requires 0 <= rs[k] < 10 && rs[k] in feedback.realizations && rs[k] % 5 in control.realizations
    ensures var a := SelectYears(feedback, afterYears);
            |a.years| > 0 && afterMean.values[k][l] == TimeMean(a, IndexOf(a.realizations, rs[k]), l)
    ensures var b := SelectYears(control, beforeYears);
            |b.years| > 0 && beforeMean.values[k][l] == TimeMean(b, IndexOf(b.realizations, rs[k] % 5), l)
  {
    var b := SelectYears(control, beforeYears);
    var a := SelectYears(feedback, afterYears);
    var x := rs[k];
    IndexOfRangeLabels(matched.realizations, 10, x);
    assert beforeSelected.values[k] == matched.values[x] == b.values[IndexOf(b.realizations, x % 5)];
    assert afterSelected.values[k] == a.values[IndexOf(a.realizations, x)];
  }

  lemma IndexOfRangeLabels(labels: seq<int>, n: nat, x: int)
    requires IsRangeLabels(labels, n) && 0 <= x < n
    ensures IndexOf(labels, x) == x
  {
    assert labels[x] == x;
  }

  /** The default ordering puts each control-branch realization next to its
      sibling: both entries of a pair share one parent. */
  lemma DefaultExampleRealizationsPairSiblings()
    ensures |DefaultExampleRealizations| == 10
    ensures forall j :: 0 <= j < 5 ==>
              && DefaultExampleRealizations[2 * j] == j
              && DefaultExampleRealizations[2 * j + 1] == j + 5
              && DefaultExampleRealizations[2 * j] % 5 == DefaultExampleRealizations[2 * j + 1] % 5
    ensures forall x :: 0 <= x < 10 ==> x in DefaultExampleRealizations
  {
    forall x | 0 <= x < 10 ensures x in DefaultExampleRealizations {
      var j := if x < 5 then 2 * x else 2 * (x - 5) + 1;
      assert DefaultExampleRealizations[j] == x;
    }
  }

  // ---------------------------------------------------------------------------
  // Threshold summaries (figure S5)

  datatype ChangeSummary = ChangeSummary(
    percentRealizationsIncreasing: seq<seq<real>>,
    thresholds: seq<real>,
    beforeYearRange: string,
    afterYearRange: string)

  /** The requested thresholds, or the default 1, 15 and 30, which are
      increasing. */
  function SummaryThresholds(thresholds: Option<seq<real>>): (ts: seq<real>)
    ensures thresholds.Some? ==> ts == thresholds.value
    ensures thresholds.None? ==> |ts| == 3 && 0.0 < ts[0] < ts[1] < ts[2]
  {
    match thresholds
    case Some(ts) => ts
    case None => DefaultThresholds
  }

  /** The feedback-minus-matched-before change of every feedback realization,
      then, per grid point and threshold, the percentage of realizations whose
      change is at least the threshold. */
  function ChangeSummaryPlotData(control: Dataset, feedback: Dataset, beforeYears: YearWindow, afterYears: YearWindow,
                                 thresholds: Option<seq<real>>)
    : (r: Result<ChangeSummary>)
    requires WellFormed(control) && WellFormed(feedback)
    ensures r.Ok? <==> FeedbackChange(control, feedback, beforeYears, afterYears).Ok?
    ensures r.Ok? ==> IsRangeLabels(feedback.realizations, 10)
    ensures r.Ok? ==>
              && FeedbackChange(control, feedback, beforeYears, afterYears).Ok?
              && PercentAtLeastPerThreshold(FeedbackChange(control, feedback, beforeYears, afterYears).value, SummaryThresholds(thresholds))
                 == Ok(r.value.percentRealizationsIncreasing)
              && r.value.thresholds == SummaryThresholds(thresholds)
              && r.value.beforeYearRange == FormatYearRange(beforeYears)
              && r.value.afterYearRange == FormatYearRange(afterYears)
  {
    var ts := SummaryThresholds(thresholds);
    var change :- FeedbackChange(control, feedback, beforeYears, afterYears);
    var pct := PercentAtLeastPerThreshold(change, ts).value;
    Ok(ChangeSummary(pct, ts, FormatYearRange(beforeYears), FormatYearRange(afterYears)))
  }

  /** Feedback after-window mean minus matched before-window mean, per
      feedback realization: entry (k, l) is feedback realization k's time
      mean after minus the time mean before of its parent, control
      realization k % 5. The subtraction lines the operands up by label, so
      the feedback labels must be those of the matched data, 0..9. */
  function FeedbackChange(control: Dataset, feedback: Dataset, beforeYears: YearWindow, afterYears: YearWindow)
    : (r: Result<Field>)
    requires WellFormed(control) && WellFormed(feedback)
    ensures r.Ok? <==>
              && (forall k :: 0 <= k < 5 ==> k in control.realizations)
              && IsRangeLabels(feedback.realizations, 10)
              && SeveralStepsIn(control, beforeYears) && SeveralStepsIn(feedback, afterYears)
              && feedback.locations == control.locations
    ensures r.Ok? ==> FieldWellFormed(r.value) && r.value.realizations == feedback.realizations && IsRangeLabels(feedback.realizations, 10)
    ensures r.Ok? ==> r.value.locations == feedback.locations
    ensures r.Ok? ==>
              var b := SelectYears(control, beforeYears);
              var a := SelectYears(feedback, afterYears);
              && |b.years| > 1 && |a.years| > 1
              && forall k, l :: 0 <= k < 10 && 0 <= l < feedback.locations ==>
                   r.value.values[k][l] == TimeMean(a, k, l) - TimeMean(b, IndexOf(b.realizations, k % 5), l)
  {
    var matched :- FeedbackMatchedBefore(SelectYears(control, beforeYears));
    var afterMean :- MeanOverTime(SelectYears(feedback, afterYears));
    var beforeMean :- MeanOverTime(matched);
    RangeLabelsMembers(matched.realizations, feedback.realizations, 10);
    MatchedMeansAreParents(SelectYears(control, beforeYears), matched, beforeMean);
    Subtract(afterMean, beforeMean)
  }

  /** The time mean of matched realization k is that of its parent. */
  lemma MatchedMeansAreParents(before: Dataset, matched: Dataset, beforeMean: Field)
    requires WellFormed(before) && MatchesParents(before, matched)
    requires MeanOverTime(matched) == Ok(beforeMean)
    ensures forall k, l :: 0 <= k < 10 && 0 <= l < before.locations ==>
              beforeMean.values[k][l] == TimeMean(before, IndexOf(before.realizations, k % 5), l)
  {
    forall k, l | 0 <= k < 10 && 0 <= l < before.locations
      ensures beforeMean.values[k][l] == TimeMean(before, IndexOf(before.realizations, k % 5), l)
    {
      assert beforeMean.values[k][l] == TimeMean(matched, k, l);
    }
  }

  /** With thresholds in increasing order the percentages do not increase. */
  lemma ChangeSummaryAntitone(control: Dataset, feedback: Dataset, beforeYears: YearWindow, afterYears: YearWindow,
                              thresholds: Option<seq<real>>, l: nat, i: nat, j: nat)
    requires WellFormed(control) && WellFormed(feedback)
    requires ChangeSummaryPlotData(control, feedback, beforeYears, afterYears, thresholds).Ok?
    requires l < feedback.locations
    requires i < j < |SummaryThresholds(thresholds)|
    requires SummaryThresholds(thresholds)[i] <= SummaryThresholds(thresholds)[j]
    ensures var p := ChangeSummaryPlotData(control, feedback, beforeYears, afterYears, thresholds).value.percentRealizationsIncreasing;
            p[l][j] <= p[l][i]
  {
    var change := FeedbackChange(control, feedback, beforeYears, afterYears).value;
    PercentAtLeastPerThresholdAntitone(change, SummaryThresholds(thresholds), l, i, j);
  }

  // ---------------------------------------------------------------------------
  // Trend changes (figures S4 and S5)

  datatype TrendExample = TrendExample(trendChange: Field, afterYearRange: string)

  /** The fitted trend of each requested feedback realization over the after
      window, last time step minus first. `fit` stands for the per-realization
      degree-1 fit of the climepi ensemble statistics, which is not modelled. */
  function TrendExamplePlotData(feedback: Dataset, afterYears: YearWindow, realizations: Option<seq<int>>,
                                fit: Dataset -> Dataset)
    : (r: Result<TrendExample>)
    requires WellFormed(feedback)
    ensures (exists k :: 0 <= k < |ExampleRealizations(realizations)| && ExampleRealizations(realizations)[k] !in feedback.realizations)
            ==> r.Err?
    ensures r.Ok? <==>
              var selected := SelectRealizations(SelectYears(feedback, afterYears), ExampleRealizations(realizations));
              selected.Ok? && WellFormed(fit(selected.value)) && |fit(selected.value).years| > 0
    ensures r.Ok? ==>
              var selected := SelectRealizations(SelectYears(feedback, afterYears), ExampleRealizations(realizations));
              && selected.Ok?
              && WellFormed(fit(selected.value))
              && EndpointChange(fit(selected.value)) == Ok(r.value.trendChange)
              && r.value.afterYearRange == FormatYearRange(afterYears)
  {
    var selected :- SelectRealizations(SelectYears(feedback, afterYears), ExampleRealizations(realizations));
    var trend := fit(selected);
    if !WellFormed(trend) then Err(ShapeMismatch)
    else
      var change :- EndpointChange(trend);
      Ok(TrendExample(change, FormatYearRange(afterYears)))
  }

  datatype TrendSummary = TrendSummary(percentRealizationsIncreasing: seq<seq<real>>, thresholds: seq<real>, afterYearRange: string)

  /** The trend change of every feedback realization, then, per grid point and
      threshold, the percentage of realizations whose trend change is at least
      the threshold. */
  function TrendSummaryPlotData(feedback: Dataset, afterYears: YearWindow, thresholds: Option<seq<real>>,
                                fit: Dataset -> Dataset)
    : (r: Result<TrendSummary>)
    requires WellFormed(feedback)
    ensures r.Ok? <==>
              var trend := fit(SelectYears(feedback, afterYears));
              WellFormed(trend) && |trend.years| > 0 && |trend.realizations| > 0
    ensures r.Ok? ==>
              var trend := fit(SelectYears(feedback, afterYears));
              && WellFormed(trend)
              && EndpointChange(trend).Ok?
              && PercentAtLeastPerThreshold(EndpointChange(trend).value, SummaryThresholds(thresholds))
                 == Ok(r.value.percentRealizationsIncreasing)
              && r.value.thresholds == SummaryThresholds(thresholds)
              && r.value.afterYearRange == FormatYearRange(afterYears)
  {
    var ts := SummaryThresholds(thresholds);
    var trend := fit(SelectYears(feedback, afterYears));
    if !WellFormed(trend) then Err(ShapeMismatch)
    else
      var change :- EndpointChange(trend);
      var pct :- PercentAtLeastPerThreshold(change, ts);
      Ok(TrendSummary(pct, ts, FormatYearRange(afterYears)))
  }

  // ---------------------------------------------------------------------------
  // Location time series (figures 2 and S3)

  datatype LocationExample = LocationExample(before: Dataset, beforeTrend: Dataset, after: Dataset, afterTrend: Dataset)

  /** The before series of control realizations 0..4 and the after series of
      the feedback ensemble at the named locations, with their fitted trends.
      `selectLocations` stands for the climepi geocoding selection and `fit`
      for the degree-1 trend fit; neither is modelled. Missing locations are a
      ValueError raised before anything else is done. A window with a single
      time step loses its time axis to `squeeze(drop=True)`, so the following
      `assign(time=...)` fails; a feedback ensemble of one realization loses
      its realization axis the same way, so the `rename` before the trend fit
      fails. */
  function LocationExamplePlotData(control: Dataset, feedback: Dataset, locations: Option<seq<string>>,
                                   beforeYears: YearWindow, afterYears: YearWindow,
                                   selectLocations: (Dataset, seq<string>) -> Dataset, fit: Dataset -> Dataset)
    : (r: Result<LocationExample>)
    requires WellFormed(control) && WellFormed(feedback)
    ensures locations.None? ==> r == Err(MissingLocations)
    ensures locations.Some? ==>
              (r.Ok? <==>
                 && (forall k :: 0 <= k < 5 ==> k in control.realizations)
                 && |SelectYears(control, beforeYears).years| != 1
                 && |SelectYears(feedback, afterYears).years| != 1
                 && |feedback.realizations| != 1)
    ensures locations.Some? && (forall k :: 0 <= k < 5 ==> k in control.realizations) && r.Err? ==>
              r == Err(MissingDimension)
    ensures r.Ok? ==>
              && r.value.before == selectLocations(SelectRealizations(SelectYears(control, beforeYears), ParentLabels).value, locations.value)
              && r.value.after == selectLocations(SelectYears(feedback, afterYears), locations.value)
              && r.value.beforeTrend == fit(r.value.before)
              && r.value.afterTrend == fit(r.value.after)
  {
    if locations.None? then Err(MissingLocations)
    else
      LabelConstants();
      LabelsPresent(ParentLabels, control.realizations);
      var parents :- SelectRealizations(SelectYears(control, beforeYears), ParentLabels);
      if |parents.years| == 1 || |SelectYears(feedback, afterYears).years| == 1 || |feedback.realizations| == 1 then
        Err(MissingDimension)
      else
        var before := selectLocations(parents, locations.value);
        var after := selectLocations(SelectYears(feedback, afterYears), locations.value);
        Ok(LocationExample(before, fit(before), after, fit(after)))
  }
}
