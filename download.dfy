/** The download script: it looks up a dataset's download arguments, overrides
    the years and realizations of that dataset's shared `subset` table in
    place, hands the arguments to the data client, and then writes one
    confirmation file per requested realization. The data client and the
    file system are outside the model: the method returns the `subset`
    argument the client would receive and the confirmation file names. */
module Download {
  import opened Results
  import opened YearRanges

  /** A snapshot of a `subset` table. */
  datatype SubsetContents = SubsetContents(years: seq<int>, scenarios: seq<string>, realizations: seq<int>)

  /** The `subset` dictionary inside one entry of the dataset table. It is
      shared: an override made for one download stays in the table. */
  class Subset {
    var years: seq<int>
    var scenarios: seq<string>
    var realizations: seq<int>

    constructor (years: seq<int>, scenarios: seq<string>, realizations: seq<int>)
      ensures Contents() == SubsetContents(years, scenarios, realizations)
    {
      this.years := years;
      this.scenarios := scenarios;
      this.realizations := realizations;
    }

    function Contents(): SubsetContents
      reads this
    {
      SubsetContents(years, scenarios, realizations)
    }
  }

  /** The subset after the command-line overrides: a year range
      "start-end" replaces the years by start..end inclusive, a realization
      list replaces the realizations, and the scenarios are never touched. A
      year range that is not two integers around one '-' is refused before
      anything is changed. */
  function Overridden(c: SubsetContents, yearRange: Option<string>, realizations: Option<seq<int>>)
    : (r: Result<SubsetContents>)
    ensures r.Err? <==> yearRange.Some? && ParseYearRange(yearRange.value).Err?
    ensures r.Err? ==> r.error == MalformedYearRange
    ensures r.Ok? ==> r.value.scenarios == c.scenarios
    ensures r.Ok? && yearRange.None? ==> r.value.years == c.years
    ensures r.Ok? && yearRange.Some? ==> Ok(r.value.years) == ParseYearRange(yearRange.value)
    ensures r.Ok? ==> r.value.realizations == if realizations.Some? then realizations.value else c.realizations
  {
    var years :- if yearRange.Some? then ParseYearRange(yearRange.value) else Ok(c.years);
    Ok(SubsetContents(years, c.scenarios, if realizations.Some? then realizations.value else c.realizations))
  }

  /** Overriding with the attribute string of a year window selects exactly
      the years of that window. */
  lemma OverriddenWithFormattedRange(c: SubsetContents, w: YearWindow, realizations: Option<seq<int>>)
    requires 0 <= w.start && 1 <= w.stop
    ensures Overridden(c, Some(FormatYearRange(w)), realizations).Ok?
    ensures Overridden(c, Some(FormatYearRange(w)), realizations).value.years == Years(w)
    ensures |Overridden(c, Some(FormatYearRange(w)), realizations).value.years|
         == if w.start < w.stop then w.stop - w.start else 0
  {
    var s := FormatYearRange(w);
    FormatParseRoundTrip(w);
    assert ParseYearRange(s) == Ok(Years(w));
    var r := Overridden(c, Some(s), realizations);
    assert r.Ok? && Ok(r.value.years) == ParseYearRange(s);
  }

  /** Applying the same overrides twice changes nothing the second time. */
  lemma OverriddenIdempotent(c: SubsetContents, yearRange: Option<string>, realizations: Option<seq<int>>)
    requires Overridden(c, yearRange, realizations).Ok?
    ensures Overridden(Overridden(c, yearRange, realizations).value, yearRange, realizations)
         == Overridden(c, yearRange, realizations)
  {
  }

  /** `_get_data`: look the dataset up, apply the overrides to its shared
      subset and return the subset the data client is called with. */
  method GetData(datasets: map<string, Subset>, dataset: string, yearRange: Option<string>,
                 realizations: Option<seq<int>>)
    returns (r: Result<SubsetContents>)
    modifies if dataset in datasets then {datasets[dataset]} else {}
    ensures dataset !in datasets ==> r == Err(UnknownDataset)
    ensures dataset in datasets ==>
              && r == Overridden(old(datasets[dataset].Contents()), yearRange, realizations)
              && datasets[dataset].Contents() == (if r.Ok? then r.value else old(datasets[dataset].Contents()))
  {
    if dataset !in datasets {
      return Err(UnknownDataset);
    }
    var subset := datasets[dataset];
    ghost var initial := subset.Contents();
    if yearRange.Some? {
      var years := ParseYearRange(yearRange.value);
      if years.Err? {
        return Err(years.error);
      }
      subset.years := years.value;
    }
    ghost var chosen := if yearRange.Some? then ParseYearRange(yearRange.value).value else initial.years;
    assert subset.Contents() == initial.(years := chosen);
    if realizations.Some? {
      subset.realizations := realizations.value;
    }
    assert Overridden(initial, yearRange, realizations) == Ok(subset.Contents());
    return Ok(subset.Contents());
  }

  // ---------------------------------------------------------------------------
  // Confirmation files

  /** `f"{dataset}_{realization}_{year_range or 'all'}.txt"`: the dataset
      name, '_', the realization, '_', the year range or "all", and ".txt". */
  function ConfirmationName(dataset: string, realization: string, yearRange: Option<string>): string
  {
    dataset + "_" + realization + "_" + YearRangeLabel(yearRange) + ".txt"
  }

  /** A confirmation name is the dataset name and '_', then the realization,
      then '_', the year-range label and ".txt". */
  lemma ConfirmationNameLayout(dataset: string, realization: string, yearRange: Option<string>)
    ensures var name := ConfirmationName(dataset, realization, yearRange);
            && |name| == |dataset| + |realization| + |YearRangeLabel(yearRange)| + 6
            && name[..|dataset| + 1] == dataset + "_"
            && name[|dataset| + 1..|dataset| + 1 + |realization|] == realization
            && name[|dataset| + 1 + |realization|] == '_'
            && name[|name| - 4..] == ".txt"
  {
  }

  function YearRangeLabel(yearRange: Option<string>): string
  {
    if yearRange.None? || |yearRange.value| == 0 then "all" else yearRange.value
  }

  /** `np.atleast_1d(realizations or "all")`, each entry as `str` renders it. */
  function RealizationLabels(realizations: Option<seq<int>>): (labels: seq<string>)
    ensures realizations.None? || |realizations.value| == 0 ==> labels == ["all"]
    ensures realizations.Some? && |realizations.value| > 0 ==>
              && |labels| == |realizations.value|
              && forall k :: 0 <= k < |labels| ==> labels[k] == IntToString(realizations.value[k])
  {
    if realizations.None? || |realizations.value| == 0 then ["all"]
    else seq(|realizations.value|, k requires 0 <= k < |realizations.value| => IntToString(realizations.value[k]))
  }

  /** One confirmation file per requested realization, or a single "all" file
      when no realization was requested. */
  function ConfirmationNames(dataset: string, realizations: Option<seq<int>>, yearRange: Option<string>)
    : (names: seq<string>)
    ensures realizations.None? || |realizations.value| == 0 ==> names == [ConfirmationName(dataset, "all", yearRange)]
    ensures realizations.Some? && |realizations.value| > 0 ==>
              && |names| == |realizations.value|
              && forall k :: 0 <= k < |names| ==>
                   names[k] == ConfirmationName(dataset, IntToString(realizations.value[k]), yearRange)
  {
    var labels := RealizationLabels(realizations);
    seq(|labels|, k requires 0 <= k < |labels| => ConfirmationName(dataset, labels[k], yearRange))
  }

  /** Different realizations get different files, so no confirmation of one
      realization overwrites another's. */
  lemma ConfirmationNamesDistinct(dataset: string, rs: seq<int>, yearRange: Option<string>, j: int, k: int)
    requires 0 <= j < |rs| && 0 <= k < |rs| && rs[j] != rs[k]
    ensures ConfirmationNames(dataset, Some(rs), yearRange)[j] != ConfirmationNames(dataset, Some(rs), yearRange)[k]
  {
    var names := ConfirmationNames(dataset, Some(rs), yearRange);
    if names[j] == names[k] {
      ConfirmationNameInjective(dataset, IntToString(rs[j]), IntToString(rs[k]), yearRange);
      IntToStringInjective(rs[j], rs[k]);
    }
  }

  /** The loop of the script's main block, collecting the file names it
      writes: one per requested realization, in order, each naming the
      dataset, the realization and the year range. */
  method WriteConfirmations(dataset: string, realizations: Option<seq<int>>, yearRange: Option<string>)
    returns (names: seq<string>)
    ensures names == ConfirmationNames(dataset, realizations, yearRange)
  {
    var labels := RealizationLabels(realizations);
    ghost var expected := ConfirmationNames(dataset, realizations, yearRange);
    names := [];
    var k := 0;
    while k < |labels|
      invariant 0 <= k <= |labels| == |expected|
      invariant names == expected[..k]
    {
      var name := ConfirmationName(dataset, labels[k], yearRange);
      ExtendPrefix(expected, names, k, name);
      names := names + [name];
      k := k + 1;
    }
    assert expected[..k] == expected;
  }

  /** Appending the next element of `whole` to a prefix of it gives the next prefix. */
  lemma ExtendPrefix(whole: seq<string>, prefix: seq<string>, k: nat, x: string)
    requires k < |whole| && prefix == whole[..k] && whole[k] == x
    ensures prefix + [x] == whole[..k + 1]
  {
  }

  lemma ConfirmationNameInjective(dataset: string, a: string, b: string, yearRange: Option<string>)
    requires ConfirmationName(dataset, a, yearRange) == ConfirmationName(dataset, b, yearRange)
    ensures a == b
  {
    var name := ConfirmationName(dataset, a, yearRange);
    ConfirmationNameLayout(dataset, a, yearRange);
    ConfirmationNameLayout(dataset, b, yearRange);
    assert |a| == |b|;
    assert a == name[|dataset| + 1..|dataset| + 1 + |a|];
  }

  /** `str` on integers is injective. */
  lemma IntToStringInjective(a: int, b: int)
    requires IntToString(a) == IntToString(b)
    ensures a == b
  {
    IntToStringValue(a);
    IntToStringValue(b);
    if a < 0 && b < 0 {
      assert IntToString(a)[1..] == IntToString(b)[1..];
    }
  }
}
