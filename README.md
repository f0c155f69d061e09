# Ensemble post-processing of climate-intervention suitability data

This project is a Dafny model of the post-processing core of
`climate-intervention-vbd`. The core compares a control climate ensemble with
a feedback ensemble that has stratospheric aerosol intervention. Each
ensemble holds one suitability variable (`portion_suitable`) indexed by
realization, time and grid point. The model covers:

- **Realization matching.** Feedback realizations 5..9 were started from
  control realizations 0..4, so the control "before" data is duplicated so
  that feedback realization k sees the before data of its parent k % 5. The
  figure-data module matches by label (`sel`); the plotting module matches
  by position (`isel`).
- **Figure data.**
  - means over time and realizations, and their pairwise changes;
  - per-realization mean changes against the matched parent;
  - the percentage of realizations whose change reaches each threshold
    (inclusive comparison);
  - trend changes (last fitted value minus first);
  - the location time series;
  - the inclusive `"start-end"` year-range attribute strings.
- **Plotting computations.**
  - the four mean maps, where the two "minus before" maps share one
    symmetric colour range;
  - the threshold-count maps after a time mean or a time maximum, with the
    "uncertain" flag (some but not all ten feedback realizations cross);
  - the per-realization example maps, built by a loop that appends three
    panels per requested realization.
- **The download script.**
  - the year-range and realization overrides that `_get_data` writes into
    a dataset's shared `subset` table in place;
  - the names of the confirmation files.

Modules, in dependency order:

- `Results`: the error kinds, and `Result`/`Option`.
- `Stats`: sums, means, maxima, threshold counts and percentages.
- `YearRanges`: year windows, `str(int)`, `str.split`, `int()` and the
  year-range format and parse.
- `Ensembles`: the `Dataset`/`Field` data model and the labelled-array
  operations.
- `FigureData`: `src/figure_data_functions.py`.
- `Plotting`: `src/plotting_functions.py`.
- `Download`: `scripts/download_data.py`.

Values are exact reals and integers are unbounded.

Errors are explicit `Result` values, one for each place where the Python
code raises or produces a meaningless result:

- a year window that selects no time step, or an empty array under
  `max()`: `EmptySelection`;
- a missing realization label or position: `MissingRealization`;
- an example realization outside 0..4: `RealizationOutOfRange`;
- operands that xarray would align away: `ShapeMismatch`;
- a reduction over an axis of length one, which the preceding `squeeze()`
  has dropped so that xarray raises: `MissingDimension`;
- no locations given: `MissingLocations`;
- a year range that is not `"<int>-<int>"`: `MalformedYearRange`;
- a dataset name absent from the table: `UnknownDataset`.

## Model

| member | source | states |
|---|---|---|
| Stats.Max | src/plotting_functions.py:191-196 | the maximum bounds every element and is one of them |
| Stats.MaxAbs | src/plotting_functions.py:43-56 | `np.abs(x).max()` bounds the magnitude of every entry and is the magnitude of some entry |
| Stats.CountAtLeast | src/plotting_functions.py:125-130 | the count of entries `>=` t is at most the length; it is 0 iff every entry is below t, and the full length iff every entry reaches t |
| Stats.CountAtLeastIsCardinality | src/plotting_functions.py:125-130 | the count equals the size of the set of positions whose value reaches the threshold |
| Stats.CountAtLeastAntitone | src/figure_data_functions.py:120-125 | raising the threshold never raises the count |
| Stats.PercentAtLeast | src/figure_data_functions.py:120-125 | the percentage lies in 0..100; it is 0 iff no entry reaches the threshold and 100 iff all do |
| Stats.PercentAtLeastAntitone | src/figure_data_functions.py:120-125 | raising the threshold never raises the percentage |
| Stats.PercentAtLeastExample | src/figure_data_functions.py:120-125 | changes [0,5,10,15,20,-5,0,5,10,15] at threshold 5 give exactly 70 percent |
| Stats.MeanOfMeans | src/figure_data_functions.py:30 | for equal-length rows, the mean of row means is the pooled mean over both axes |
| YearRanges.IntToString | scripts/download_data.py:46 | `str(n)` is non-empty, starts with '-' iff n < 0, and the rest is the decimal numeral of abs(n) |
| YearRanges.IntToStringValue | scripts/download_data.py:46 | the digits of `str(n)` after the optional sign have the value abs(n) |
| YearRanges.FormatYearRangeLayout | src/figure_data_functions.py:60-61 | the string is `str(start)`, '-', `str(stop - 1)` |
| YearRanges.ParseInt | scripts/download_data.py:14 | `int()` succeeds only on a string containing a digit, rejects a blank string, and a negative result needs a '-' in the input |
| YearRanges.Range | scripts/download_data.py:15 | `range(lo, hi)` has `hi - lo` elements (none when hi <= lo), and element i is lo + i |
| YearRanges.YearsAreWindow | src/figure_data_functions.py:27-29 | a year is in the window's year list iff start <= year < stop, which is `isin(range(...))` |
| YearRanges.Split | scripts/download_data.py:14 | `str.split` yields one more part than separators, and no part contains the separator |
| YearRanges.SplitJoin | scripts/download_data.py:14 | joining the parts of `str.split` with the separator gives back the string |
| YearRanges.SplitPair | scripts/download_data.py:14 | two separator-free strings joined by the separator split back into exactly those two |
| YearRanges.ParseYearRange | scripts/download_data.py:14-15 | anything but one '-' is rejected; success means two integer parts a and b, and the result is a, a+1, ..., b (length b-a+1, empty when b < a) |
| YearRanges.ParseIntOfNatToString | scripts/download_data.py:14 | `int(str(n)) == n` for every natural n |
| YearRanges.ParseIntOfIntToString | scripts/download_data.py:14 | `int(str(n)) == n` for every integer n, negative ones included |
| YearRanges.ParseIntOfPlusSign | scripts/download_data.py:14 | a leading '+' is accepted: `int("+" + str(n)) == n` |
| YearRanges.ParseDigitsAccepts | scripts/download_data.py:14 | the digit text `int()` accepts after the sign holds only digits and underscores, and starts and ends with a digit |
| YearRanges.ParseDigitsOfDigits | scripts/download_data.py:14 | a run of plain digits is read as its decimal value |
| YearRanges.ParseIntIgnoresUnderscore | scripts/download_data.py:14 | an underscore between two runs of digits is ignored: `int(x + "_" + y) == int(x + y)` |
| YearRanges.ParseIntIgnoresSurroundingSpace | scripts/download_data.py:14 | whitespace around the text changes neither whether `int()` succeeds nor its value |
| YearRanges.FormatParseRoundTrip | src/figure_data_functions.py:60-61 | parsing the `"{start}-{stop-1}"` attribute string of a window with non-negative endpoints gives back exactly the window's years |
| YearRanges.ParseTwoParts | scripts/download_data.py:14-15 | a string with two integer parts x and y parses to x..y inclusive |
| YearRanges.NegativeEndpointRejected | scripts/download_data.py:14 | the attribute string of a window with a negative endpoint has a third '-' and is rejected |
| Ensembles.TimesIn | src/figure_data_functions.py:27-29 | the selected time positions are increasing, all lie in the window, and none in the window is missed |
| Ensembles.NoTimesIn | src/figure_data_functions.py:27-29 | the selection is empty iff no time step lies in the window |
| Ensembles.SelectYears | src/figure_data_functions.py:27-29 | `sel(time=year.isin(w))` keeps realizations, ids and grid and keeps exactly the in-window time steps, in order: step k of the result is the source's step idx[k], with its year and data |
| Ensembles.IndexOf | src/figure_data_functions.py:10 | the first position carrying a label, or the length when the label is absent |
| Ensembles.FirstMissing | src/figure_data_functions.py:10 | reports a wanted label that is absent, or nothing when all are present |
| Ensembles.SelectRealizations | src/figure_data_functions.py:10 | `sel(realization=labels)` succeeds iff every label exists, and then entry k is the data and member id of labels[k] |
| Ensembles.FirstOutOfRange | src/plotting_functions.py:106 | reports a position past the end, or nothing when all are in range |
| Ensembles.SelectPositions | src/plotting_functions.py:106 | `isel(realization=positions)` succeeds iff every position is in range, then entry k is position k's label, ids and data |
| Ensembles.Relabel | src/figure_data_functions.py:11-13 | `assign_coords` changes the labels only |
| Ensembles.ConcatRealizations | src/figure_data_functions.py:8-16 | concatenation puts a's realizations first, then b's, with their data and ids |
| Ensembles.TimeMax | src/plotting_functions.py:191-196 | the time maximum bounds every time step and is attained |
| Ensembles.MeanOverTime | src/figure_data_functions.py:87-89 | `squeeze().mean(dim="time")` fails iff at most one time step is left: none gives `EmptySelection`, one (dropped by `squeeze`) gives `MissingDimension`; otherwise keeps labels and grid with entry (i, l) the time mean |
| Ensembles.MaxOverTime | src/plotting_functions.py:191-196 | `squeeze().max(dim="time")` fails iff at most one time step (`EmptySelection` for none, `MissingDimension` for one); otherwise entry (i, l) is the time maximum |
| Ensembles.MeanOverTimeAndRealizations | src/figure_data_functions.py:30 | the pooled mean after `squeeze()` fails iff at most one time step or at most one realization is left (`MissingDimension` when one axis has length one, else `EmptySelection`); otherwise it has one value per grid point |
| Ensembles.PooledMeanIsMeanOfTimeMeans | src/figure_data_functions.py:30 | the mean over time and realization together is the mean over realizations of the time means |
| Ensembles.PooledMeanOfConstant | src/figure_data_functions.py:30 | the pooled mean of data that is x everywhere at a grid point is x there |
| Ensembles.SeveralStepsInIff | src/figure_data_functions.py:27-29 | a window keeps at least two time steps iff two distinct time steps of the data lie in it |
| Ensembles.Subtract | src/figure_data_functions.py:87-89 | fails iff labels or grid differ, otherwise is the entrywise difference |
| Ensembles.SubtractAntisymmetric | src/figure_data_functions.py:87-89 | b - a succeeds iff a - b does and is its negation |
| Ensembles.Difference | src/figure_data_functions.py:45-56 | the pointwise difference of two per-grid-point maps |
| Ensembles.DifferenceOfChanges | src/figure_data_functions.py:45-56 | (with - before) - (without - before) equals with - without |
| Ensembles.DifferenceAntisymmetric | src/figure_data_functions.py:45-56 | swapping the operands negates every entry |
| Ensembles.EndpointChange | src/figure_data_functions.py:150 | fails iff there is no time step, otherwise entry (i, l) is the last value minus the first |
| Ensembles.EndpointChangeOfLinearSeries | src/figure_data_functions.py:150 | for a linear fit a + b t over n steps the trend change is b (n - 1) |
| Ensembles.CountsAtLeast | src/plotting_functions.py:125-130 | per grid point, the number of realizations reaching the threshold; at most the number of realizations |
| Ensembles.PercentAtLeastPerThreshold | src/figure_data_functions.py:120-125 | fails iff there is no realization; otherwise `[location][threshold]` is 100 times the fraction of realizations reaching the threshold, within 0..100 |
| Ensembles.PercentAtLeastPerThresholdAntitone | src/figure_data_functions.py:120-125 | a larger threshold never has a larger percentage |
| FigureData.FeedbackMatchedBefore | src/figure_data_functions.py:5-17 | succeeds iff labels 0..4 exist (else names a missing one of them); the result is labelled 0..9 on the same years and grid, and realization k holds parent k % 5's data and member id |
| FigureData.MatchedSiblingsAgree | src/figure_data_functions.py:5-17 | matched realizations k and k + 5 are identical |
| FigureData.MeanPlotData | src/figure_data_functions.py:20-64 | succeeds iff both ensembles have more than one realization, all three windows keep more than one time step and the grids agree; `before` is the pooled mean of the control's before window, the two "minus before" maps are the pooled means of the control and feedback after windows minus it, with-minus-without is feedback after minus control after, and the year-range strings are the windows' |
| FigureData.MeanPlotDataOfConstants | src/figure_data_functions.py:20-57 | with control before data b, control after data c and feedback after data f everywhere, the four maps are b, c - b, f - b and f - c |
| FigureData.MeanPlotDataExample | src/figure_data_functions.py:20-57 | constants 10, 12 and 15 give the maps 10, 2, 5 and 3 |
| FigureData.MeanPlotBeforeIsEnsembleMean | src/figure_data_functions.py:30 | the before map is the mean over control realizations of each one's time mean |
| FigureData.ChangeExamplePlotData | src/figure_data_functions.py:67-97 | the mean change is the change of the requested realizations against their parents, and the attribute strings are the windows' |
| FigureData.ChangeFromParents | src/figure_data_functions.py:78-89 | succeeds iff control labels 0..4 exist, every requested label is in 0..9 and in the feedback run, both windows keep more than one time step and the grids agree; entry (k, l) is then the after time mean of feedback realization rs[k] minus the before time mean of control realization rs[k] % 5 |
| FigureData.DefaultYearRangeStrings | src/figure_data_functions.py:23-24 | the default windows `range(2025, 2035)` and `range(2035, 2045)` are written as "2025-2034" and "2035-2044" |
| FigureData.ExampleRealizations | src/figure_data_functions.py:75-76 | a given list is used as is; the default lists each realization 0..9 once |
| FigureData.IndexOfRangeLabels | src/figure_data_functions.py:5-17 | in labels 0..n-1, label x sits at position x |
| FigureData.DefaultExampleRealizationsPairSiblings | src/figure_data_functions.py:75-76 | the default order [0,5,1,6,2,7,3,8,4,9] lists every realization 0..9 once, each parent j next to its sibling j + 5 |
| FigureData.ChangeSummaryPlotData | src/figure_data_functions.py:100-133 | succeeds exactly when the feedback change against the parents does; the percentages are those of that change, for the given or default thresholds [1, 15, 30] |
| FigureData.SummaryThresholds | src/figure_data_functions.py:108-109 | given thresholds are used as is; the default is three increasing positive thresholds |
| FigureData.FeedbackChange | src/figure_data_functions.py:110-119 | succeeds iff control labels 0..4 exist, the feedback labels are 0..9, both windows keep more than one time step and the grids agree; entry (k, l) is the after time mean of feedback realization k minus the before time mean of the control realization labelled k % 5 |
| FigureData.MatchedMeansAreParents | src/figure_data_functions.py:113-119 | the time mean of matched before realization k is the time mean of the control realization labelled k % 5 |
| FigureData.ChangeSummaryAntitone | src/figure_data_functions.py:120-125 | with thresholds in increasing order the percentages do not increase |
| FigureData.TrendExamplePlotData | src/figure_data_functions.py:136-155 | succeeds iff every requested realization exists and the fit returns a well-formed trend with at least one time step; the trend change is then the endpoint change of the fitted trend of the selected realizations |
| FigureData.TrendSummaryPlotData | src/figure_data_functions.py:158-186 | succeeds iff the fit returns a well-formed trend with at least one time step and one realization; the percentages are those of the fitted trend changes over the thresholds, with the after-range string |
| FigureData.LocationExamplePlotData | src/figure_data_functions.py:189-241 | no locations is an error raised first; otherwise it succeeds iff control labels 0..4 exist, neither window keeps exactly one time step (`squeeze(drop=True)` then removes the time axis that `assign(time=...)` needs), and the feedback ensemble does not have exactly one realization (`squeeze(drop=True)` then removes the realization axis that `rename(realization=...)` needs); both failures are `MissingDimension`. On success, before = control 0..4 at the locations, after = feedback at the locations, and the trends their fits |
| Plotting.SharedColourLimit | src/plotting_functions.py:43-56 | fails iff either map is empty; otherwise bounds every value of both maps and is attained by one of them |
| Plotting.SharedColourLimitIsLeast | src/plotting_functions.py:43-56 | the shared limit is below every common bound and does not depend on the order of the maps |
| Plotting.MakeMeanPlots | src/plotting_functions.py:18-87 | the four maps are the mean summary's; the two "minus before" maps share the colour range (-m, m) containing both, and the other two have none |
| Plotting.MeanPlotsLimitAttained | src/plotting_functions.py:64 | some grid point of one of the two change maps sits on the edge of the shared range |
| Plotting.MatchedBeforeByPosition | src/plotting_functions.py:103-112 | succeeds iff there are at least five realizations; then realization k holds position k % 5's data and id, labelled as the input for k < 5 and k otherwise |
| Plotting.MatchersAgree | src/plotting_functions.py:103-112 | when the first five control labels are 0..4, matching by position equals matching by label |
| Plotting.Reduce | src/plotting_functions.py:191-196 | the chosen reduction over time after `squeeze()`, failing iff at most one time step (`EmptySelection` for none, `MissingDimension` for one) |
| Plotting.ReducedChange | src/plotting_functions.py:119-124 | after minus before of the reduced fields, entry by entry; succeeds iff both keep more than one time step and labels and grid agree |
| Plotting.IcvChanges | src/plotting_functions.py:119-124 | succeeds iff the feedback labels are the control's first five then 5..9, every window keeps more than one time step and the grids agree; control changes are against each realization's own before data, feedback change i against control position i % 5 |
| Plotting.IcvSummaryPlotData | src/plotting_functions.py:125-133 | the counts are the numbers of realizations whose change reaches the threshold (at most the ensemble size, at most 10 for feedback), and a location is uncertain iff 0 < count < 10 |
| Plotting.UncertainMeansDisagreement | src/plotting_functions.py:131-133 | a location is uncertain iff one feedback realization reaches the threshold and another does not |
| Plotting.RealizationChange | src/plotting_functions.py:273-316 | the time-mean change of one realization position against another; succeeds iff both positions exist and both windows keep more than one time step |
| Plotting.ExamplePanelsFor | src/plotting_functions.py:261-316 | a request outside 0..4 is rejected; otherwise three maps with the member ids of r, r and r + 5: control r, feedback r and feedback r + 5, each against the same position's before mean (so feedback r + 5 is compared with control r + 5's own before mean, not with its parent r; that is what the code at src/plotting_functions.py:303-310 does) |
| Plotting.ExamplePanels | src/plotting_functions.py:259-317 | the panel specification of the whole figure: on success three panels per request |
| Plotting.ExampleErrorPersists | src/plotting_functions.py:259-317 | once one request fails, the whole figure fails with that error |
| Plotting.ExamplePanelsLayout | src/plotting_functions.py:259-317 | a finished figure has three maps per request, in request order, and every request was in 0..4 |
| Plotting.MakeExamplePlots | src/plotting_functions.py:259-317 | the loop's result is exactly the panel specification: the panels of every request, or the first request's error |
| Plotting.MakeExamplePlotsForWindows | src/plotting_functions.py:250-317 | the whole function: the control before window and both after windows are selected by year, and the result is the panel specification of those selections |
| Download.Subset.constructor | scripts/inputs.py:15-19 | a subset table starts with the given years, scenarios and realizations |
| Download.Overridden | scripts/download_data.py:13-17 | a year range replaces the years by its parse (a malformed one is rejected), a realization list replaces the realizations, scenarios never change, and absent overrides leave their entry alone |
| Download.OverriddenWithFormattedRange | scripts/download_data.py:14-15 | overriding with a window's attribute string selects exactly the window's years |
| Download.OverriddenIdempotent | scripts/download_data.py:13-17 | applying the same overrides again changes nothing |
| Download.GetData | scripts/download_data.py:11-18 | an unknown dataset is an error; otherwise the returned subset is the overridden one, the shared table is updated to it in place, and a rejected year range changes nothing |
| Download.RealizationLabels | scripts/download_data.py:43 | `np.atleast_1d(realizations or "all")` rendered as strings |
| Download.WriteConfirmations | scripts/download_data.py:43-51 | one confirmation name per requested realization, in order, or a single "all" name |
| Download.ConfirmationNameLayout | scripts/download_data.py:44-48 | the name is `"{dataset}_{realization}_{range}.txt"`: dataset, '_', the realization label, '_', the range label ("all" when absent), ".txt" |
| Download.ConfirmationNames | scripts/download_data.py:43-48 | a single "all" name when no realization is given, otherwise name k is the confirmation name of `str(rs[k])` |
| Download.ConfirmationNamesDistinct | scripts/download_data.py:43-48 | different requested realizations get different confirmation files |
| Download.IntToStringInjective | scripts/download_data.py:46 | `str` on integers is injective |

## Left out

- NetCDF writing (`to_netcdf`), figure rendering, titles, colour maps, layouts and SVG export: these are I/O and presentation.
- The data client `climdata.get_climate_data` and writing the confirmation files: foreign calls and I/O, so `GetData` returns the `subset` argument the client would receive (the data source, frequency and save directory pass through unchanged and are not modelled) and `WriteConfirmations` the file names.
- The climepi degree-1 trend fit (`ensemble_stats(deg=1)`) and `sel_geo`: foreign calls, so they are function parameters.
- `make_trend_plots` (src/plotting_functions.py:324-380): it only overlays time series with those same fitted trends and computes nothing else.
- Floating point: values are exact reals, so rounding, NaN and overflow are not modelled.
- NaN results: where xarray would yield NaN for a window that selects no time step or for a mean over zero realizations, or numpy raises on `max()` of an empty array, the model returns `EmptySelection`.
- Label alignment: xarray aligns the operands of arithmetic by an inner join on labels; the model requires identical labels and grids and otherwise returns `ShapeMismatch`.
- `squeeze()` is modelled only where a reduction follows it: a time or realization axis of length one is dropped, so the reduction over it fails with `MissingDimension`; in `make_location_example_plot_data` the time assignment after it fails the same way, and so does the `rename` of the realization axis of a one-member feedback ensemble. A single requested realization in `make_change_example_plot_data` and `make_trend_example_plot_data` keeps its axis in the model, and the trend builders' own `squeeze()` is part of the `fit` parameter.
- `drop_vars("member_id")`: it does not change a value of the modelled variable.
- Only the one variable `portion_suitable` is modelled; the grid is a flat list of points.
- Python `int()` is modelled for ASCII whitespace, an optional sign, ASCII digits and single underscores; Unicode digits and whitespace are left out.
- Negative `isel` positions are left out, since `make_example_plots` rejects every request outside 0..4 before indexing.
- The dataset table constants (`DATASETS`) are only initial values of `Subset` objects.
- The argparse front end is left out; `Option` parameters stand for arguments not given.
- Default arguments: the year windows of every builder, the `threshold=1` of `make_icv_summary_plots` and `make_icv_summary_max_plots` (src/plotting_functions.py:95,167) and the `realizations=range(5)` of `make_example_plots` (src/plotting_functions.py:239) are explicit parameters. Only the `None` defaults that the code replaces inside the function (thresholds, example realizations) are `Option` parameters.
- FigureData.ChangeSummaryPlotData: it succeeds only when the feedback labels are exactly 0..9. The source aligns the operands by an inner join on labels, so with other labels it averages over the labels the two operands share; the model refuses that input instead.
