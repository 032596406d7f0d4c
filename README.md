# Graphing calculator core in Dafny

This project models the deterministic core of a PyQt/sympy graphing calculator and proves properties of that model:

- **The function-analysis report.** `AnalysisModule.analyze_function` builds a text report for an expression `f(x)`. It has a heading, the function line, and ten sections: domain, intercepts, symmetry, limits at ±∞, limits at discontinuities, f′, f″, indefinite integral, definite integral, and extrema on [−10, 10]. `find_discontinuities` collects the candidate points. The legacy version of the module first cuts the input at `=`, derives domain restrictions from the immediate arguments of the expression, has no limits-at-discontinuities section, and has no inner guard around the classification of extrema.
- **The plot widget.**
  - Splitting a sampled curve into runs without NaN. The project's test file carries a copy of the splitter, with four example cases.
  - The y-range clipping that runs before the split.
  - The colour and style lookups.
  - The widget's two parallel lists: the plotted functions and the displayed list lines.
- **The function file.** This covers the validity check for a function text, the line filter used when loading, the layout written when saving, and the extension fix-up used when exporting a plot.
- **The history dialog.** It shows each history row as `"<timestamp> - <text>"` and recovers the text from the selected item.

## How the model is built

**The symbolic engine.** Sympy is never modelled. `SymbolicOracle.Cas<E>` is a record of total oracles: `sympify`, `solve`, `limit`, `diff`, `integrate`, `continuous_domain` and the other calls the two analysis modules make. Each oracle returns `Result<T>`, where `Err` stands for a raised exception. The expression type `E` is a type parameter. `Break(cas, o)` replaces a single oracle by one that always fails. The lemmas use it to state failure isolation: breaking one oracle changes only the sections that consult it.

**The report.** A report is a sequence of `Part(tag, body)`, where `body` is a sequence of tagged messages (`Report.Msg`) instead of the Russian strings.

**Functions and methods.** Each section body is specified by a function (`DomainBody`, `ExtremaBody`, ...). The source builds the report by appending, section by section and point by point. That accumulation is modelled by methods with loops (`AnalyzeFunction`, `DomainSection`, `LimitsAtPoints`, `CollectExtrema`, `FindDiscontinuities`, ...). Each method is proved equal to its specification function.

**The plot widget.** `MplWidget` is a class. Its `currentFunctions` and `functionList` fields are reassigned by its methods. `Valid()` states that the two lists have the same length and are paired index by index.

**Other representations.**

| Source value | Model |
|---|---|
| NaN | `None` in a `seq<Option<real>>` |
| the y values being clipped | an `array` |
| file contents | a `FileRead` value: a missing file, a read error, or the text |
| the numeric evaluation of an expression | a `plottable` predicate, passed as a parameter |

## Model

| member | source | states |
|---|---|---|
| FunctionAnalysis.Analysis | src/analysis_module.py:9-16 | the report is produced exactly when the text parses; a parse failure is the only error and carries the parser's message; the report's tags are the fixed section order |
| FunctionAnalysis.AnalyzeFunction | src/analysis_module.py:9-163 | the section-by-section accumulation yields exactly the specified report |
| FunctionAnalysis.SectionsInOrder | src/analysis_module.py:15-161 | section i of the report is tagged with the i-th section of the fixed order and holds that section's body |
| FunctionAnalysis.DomainBody | src/analysis_module.py:18-36 | one or two lines; the fallback line with the error's message when the domain computation raises; the single "all real x" line exactly when the domain is all reals; otherwise the last line shows the domain, preceded by an "undefined at" line when there are two |
| FunctionAnalysis.InterceptsBody | src/analysis_module.py:38-60 | always two lines; the y line is the fallback exactly when substituting 0 raises and is "undefined at x=0" exactly when the value is not finite, and is the point (0, value) when the value is finite; the x line is the fallback exactly when solving raises, and otherwise is the x-intercepts line whose roots XInterceptsAreRealRoots characterises |
| FunctionAnalysis.SymmetryBody | src/analysis_module.py:62-74 | one line, which is even, odd, general or the fallback; even whenever the even test holds; the fallback exactly when the even test raises, or it fails and the odd test raises |
| FunctionAnalysis.InfinityLimitsBody | src/analysis_module.py:76-84 | the fallback line exactly when either limit raises; otherwise the limit at +∞ followed by the limit at −∞ |
| FunctionAnalysis.DiscontinuityLimitsBody | src/analysis_module.py:86-99 | every line is a point's one-sided limits or a point's fallback line |
| FunctionAnalysis.DiscontinuityLinesNamed | src/analysis_module.py:89-97 | one line per discontinuity, and the k-th line is about the k-th discontinuity |
| FunctionAnalysis.DomainSection | src/analysis_module.py:18-36 | the domain section built by the method equals its specification, including the fallback line when the domain computation fails |
| FunctionAnalysis.AllRealsIgnoresDiscontinuities | src/analysis_module.py:24-25 | when the continuous domain is all reals, the section is the single "defined for all real x" line, whatever the discontinuity oracles answer |
| FunctionAnalysis.DomainListsDiscontinuities | src/analysis_module.py:26-34 | otherwise the section ends with the domain text and has an "undefined at" line exactly when discontinuities were found, listing them |
| FunctionAnalysis.XInterceptsAreRealRoots | src/analysis_module.py:52-58 | the x-intercept line lists exactly the real roots; "no real roots" appears exactly when no root is real |
| FunctionAnalysis.SymmetryDecision | src/analysis_module.py:62-74 | even iff the even test succeeds; odd iff it fails and the odd test succeeds; general iff both fail; the fallback line iff a test raises; once even holds, the odd test is never consulted |
| FunctionAnalysis.PointLimitsOf | src/analysis_module.py:89-98 | one line per discontinuity point, in order |
| FunctionAnalysis.PointLimitsAt | src/analysis_module.py:89-98 | the k-th line is the limits line of the k-th point, independent of the other points |
| FunctionAnalysis.PointLimitsLine | src/analysis_module.py:90-97 | a point's line names that point; it is the fallback line exactly when parsing the point or either one-sided limit fails, and otherwise shows both one-sided limits |
| FunctionAnalysis.PointLinesNamed | src/analysis_module.py:90-97 | the k-th line is about the k-th point: it shows that point's one-sided limits or that point's fallback line |
| FunctionAnalysis.DerivativeBody | src/analysis_module.py:101-107 | the fallback line exactly when differentiating raises; otherwise the single line showing f' |
| FunctionAnalysis.SecondDerivativeBody | src/analysis_module.py:109-115 | the fallback line exactly when the second derivative raises; otherwise the single line showing f'' |
| FunctionAnalysis.IntegralBody | src/analysis_module.py:117-123 | the fallback line exactly when integrating raises; otherwise the single line showing the antiderivative |
| FunctionAnalysis.DefiniteIntegralBody | src/analysis_module.py:125-131 | the fallback line exactly when the integral over [-5, 5] raises; otherwise the single line showing its value |
| FunctionAnalysis.DiscontinuityLimitsSection | src/analysis_module.py:86-99 | the method computes the discontinuities, then the per-point lines, and equals the section specification |
| FunctionAnalysis.LimitsAtPoints | src/analysis_module.py:89-97 | the loop over the points yields exactly one limits line per point, in order |
| FunctionAnalysis.Kept | src/analysis_module.py:139-140 | the kept critical points are exactly the real points of the solver output whose value lies in [-10, 10] |
| FunctionAnalysis.KeptAppend | src/analysis_module.py:139-140 | filtering distributes over concatenation, so the kept points stay in solver order |
| FunctionAnalysis.ClassifyBySign | src/analysis_module.py:143-152 | minimum iff f'' > 0 at the point, maximum iff f'' < 0, inflection iff neither, "type undetermined" iff computing f'' or the comparison raises |
| FunctionAnalysis.Classify | src/analysis_module.py:143-152 | "type undetermined" exactly when computing f'' or its sign at the point raises; otherwise the kind given by that sign |
| FunctionAnalysis.ExtremaOf | src/analysis_module.py:139-153 | the extrema list fails exactly when evaluating some kept point fails; otherwise it has one entry per kept point, in order, with its kind and value |
| FunctionAnalysis.ExtremaFailAt | src/analysis_module.py:139-153 | a single failing kept point fails the whole list |
| FunctionAnalysis.ExtremaInWindow | src/analysis_module.py:139-153 | every extremum listed has its x in [-10, 10] |
| FunctionAnalysis.ExtremaBody | src/analysis_module.py:133-161 | never empty; the fallback line whenever the derivative or the critical points cannot be computed |
| FunctionAnalysis.ExtremaSection | src/analysis_module.py:133-161 | the section is the fallback line exactly when some kept point cannot be evaluated; it is the "not found" line exactly when no point is kept; otherwise one line per kept point, classified by the sign of f'', each with x in [-10, 10] |
| FunctionAnalysis.ExtremaSectionOf | src/analysis_module.py:133-161 | the method equals the extrema section specification |
| FunctionAnalysis.CollectExtrema | src/analysis_module.py:139-153 | the loop over critical points succeeds exactly when the specification does, and then yields the same lines |
| FunctionAnalysis.DiscontinuitiesUnbroken | src/analysis_module.py:165-220 | breaking an oracle that the discontinuity search does not use leaves the discontinuities unchanged |
| FunctionAnalysis.BrokenOracleIsLocal | src/analysis_module.py:18-161 | breaking an oracle that a section does not use leaves that section's body unchanged |
| FunctionAnalysis.DiscontinuitySectionsUnbroken | src/analysis_module.py:18-36 | as BrokenOracleIsLocal for the domain and discontinuity-limits sections |
| FunctionAnalysis.EarlySectionsUnbroken | src/analysis_module.py:38-84 | as BrokenOracleIsLocal for the intercepts, symmetry and limits-at-infinity sections |
| FunctionAnalysis.CalculusSectionsUnbroken | src/analysis_module.py:101-131 | as BrokenOracleIsLocal for the derivative and integral sections |
| FunctionAnalysis.ExtremaUnbroken | src/analysis_module.py:133-161 | as BrokenOracleIsLocal for the extrema section |
| FunctionAnalysis.BrokenOracleLeavesOtherSections | src/analysis_module.py:15-161 | a failing oracle other than the parser still yields a report, and every section that does not use that oracle is unchanged |
| FunctionAnalysis.BrokenDomainFallsBack | src/analysis_module.py:35-36 | a failing domain computation gives the domain section its fallback line |
| FunctionAnalysis.BrokenInterceptFallsBack | src/analysis_module.py:42-60 | a failing y-intercept or x-intercept computation replaces only its own line; the other line is still computed |
| FunctionAnalysis.BrokenSymmetryFallsBack | src/analysis_module.py:73-74 | a failing even test gives the symmetry fallback line |
| FunctionAnalysis.BrokenLimitsFallBack | src/analysis_module.py:76-84 | failing limits give the limits-at-infinity fallback line |
| FunctionAnalysis.BrokenDerivativeFallsBack | src/analysis_module.py:101-107 | a failing derivative gives the f' fallback line and also fails the extrema section |
| FunctionAnalysis.BrokenIntegralsFallBack | src/analysis_module.py:109-131 | failing f'', integral or definite integral each give their own fallback line |
| FunctionAnalysis.BrokenLimitKeepsOneLinePerPoint | src/analysis_module.py:89-98 | with a failing limit oracle, every discontinuity still gets its own fallback line and later points are processed |
| FunctionAnalysis.BrokenLimitFailsEveryPoint | src/analysis_module.py:90-97 | with a failing limit oracle, the line for every point is that point's fallback line |
| FunctionAnalysis.BrokenSecondDerivativeLeavesTypesUndetermined | src/analysis_module.py:143-152 | with a failing f'', every extremum listed is of undetermined type |
| Report.Tags | src/analysis_module.py:15-161 | one tag per report part, in order |
| Report.Layout | src/analysis_module.py:15-161 | pairing an order with bodies yields parts tagged in that order, each with its body |
| Report.AppendedInOrder | src/analysis_module.py:15-161 | appending the twelve parts one after another yields the report laid out in the fixed order |
| Report.AppendedInLegacyOrder | analysis_module.py:18-159 | appending the eleven legacy parts one after another yields the legacy layout |
| Report.LayoutsAlign | analysis_module.py:18-159 | legacy section i corresponds to section i (before the discontinuity limits) or i+1 (after them) of the current report |
| DiscontinuityChecks.RealTexts | src/analysis_module.py:175-177 | exactly the real roots' texts are kept; none when no root is real |
| DiscontinuityChecks.AppendRealRoots | src/analysis_module.py:175-177 | the loop appends exactly the real roots' texts |
| DiscontinuityChecks.DenominatorPoints | src/analysis_module.py:170-179 | a point is contributed by the denominator check exactly when the expression is a rational function whose denominator is computed and solved and the point is a real root of it; nothing otherwise |
| DiscontinuityChecks.CheckDenominator | src/analysis_module.py:170-179 | the denominator check appends exactly the denominator points |
| DiscontinuityChecks.LogPointsOf | src/analysis_module.py:182-198 | a point is contributed by the logarithm check iff it is a real solution of "argument <= 0" for some logarithm argument whose solve succeeds |
| DiscontinuityChecks.LogPoints | src/analysis_module.py:182-198 | nothing when the logarithm arguments cannot be collected; otherwise a point is contributed exactly when it is a real solution of "argument <= 0" for some argument whose solve succeeds |
| DiscontinuityChecks.CheckLogarithms | src/analysis_module.py:182-198 | the logarithm check appends exactly the logarithm points, or none when collecting the arguments fails |
| DiscontinuityChecks.CheckLogArguments | src/analysis_module.py:184-196 | the loop over logarithm arguments appends exactly their real non-positivity points |
| DiscontinuityChecks.RootPointsOf | src/analysis_module.py:201-219 | a point is contributed by the even-root check iff it is a real solution of "base < 0" for a power whose exponent p/q is non-integer with q even and p odd |
| DiscontinuityChecks.RootPoints | src/analysis_module.py:201-219 | nothing when the powers cannot be collected; otherwise a point is contributed exactly when it is a real solution of "base < 0" for some even root whose solve succeeds |
| DiscontinuityChecks.CheckEvenRoots | src/analysis_module.py:201-219 | the even-root check appends exactly the even-root points |
| DiscontinuityChecks.CheckPowers | src/analysis_module.py:203-217 | the loop over powers appends exactly their points |
| DiscontinuityChecks.Dedup | src/analysis_module.py:220 | removing duplicates keeps the same set of points and leaves none repeated |
| DiscontinuityChecks.Discontinuities | src/analysis_module.py:165-220 | the result has no duplicates and is the union of the denominator, logarithm and even-root points |
| DiscontinuityChecks.FindDiscontinuities | src/analysis_module.py:165-220 | the three appending checks followed by duplicate removal equal the specification |
| DiscontinuityChecks.LogPointsOfAllFail | src/analysis_module.py:196-198 | if every solve fails, the logarithm check contributes nothing |
| DiscontinuityChecks.RootPointsOfAllFail | src/analysis_module.py:216-219 | if every solve fails, the even-root check contributes nothing |
| DiscontinuityChecks.BrokenCheckLosesOnlyItsPoints | src/analysis_module.py:165-220 | a failing oracle in one check loses only that check's points; the other two checks are unchanged |
| LegacyFunctionAnalysis.ExpressionText | analysis_module.py:10-12 | text without '=' is parsed unchanged; otherwise the stripped text before the first '=' is parsed |
| LegacyFunctionAnalysis.ExpressionTextIdempotent | analysis_module.py:10-12 | cutting at '=' twice is the same as cutting once |
| LegacyFunctionAnalysis.LegacyAnalysis | analysis_module.py:7-161 | the report is produced exactly when the cut text parses; the parser's message is the only error; the tags are the legacy order, which has no discontinuity-limits section |
| LegacyFunctionAnalysis.LegacyAnalyzeFunction | analysis_module.py:7-161 | the section-by-section accumulation yields exactly the specified legacy report |
| LegacyFunctionAnalysis.PowerIssuesOf | analysis_module.py:27-33 | collecting the power restrictions fails iff the base of some negative power cannot be solved, with the first such failure's message; otherwise "x != r" for exactly the roots r of the bases of negative powers |
| LegacyFunctionAnalysis.NotEquals | analysis_module.py:31-33 | one "x != r" restriction per root, in order |
| LegacyFunctionAnalysis.LogIssuesOf | analysis_module.py:36-45 | exactly one restriction per logarithm argument: its positivity set, or the fallback text when that cannot be computed |
| LegacyFunctionAnalysis.LegacyDomainBody | analysis_module.py:21-52 | one line: the fallback with the solver's message exactly when a base of a negative power cannot be solved; "all real x" exactly when there are no power or logarithm restrictions; otherwise the set of exactly those restrictions |
| LegacyFunctionAnalysis.LegacyDomainRestrictions | analysis_module.py:21-50 | the domain section is one line; its restrictions are exactly the negative-power and logarithm restrictions of the immediate arguments, as a set; it says "all real x" exactly when there are none |
| LegacyFunctionAnalysis.UnsolvableBaseFailsDomain | analysis_module.py:27-52 | an unsolvable base of a negative power replaces the domain section by its fallback line |
| LegacyFunctionAnalysis.LegacyDomainSection | analysis_module.py:21-52 | the method equals the legacy domain specification |
| LegacyFunctionAnalysis.CollectPowerIssues | analysis_module.py:27-33 | the loop over the arguments yields the power restrictions, or the first solver failure |
| LegacyFunctionAnalysis.CollectLogIssues | analysis_module.py:36-45 | the loop over the arguments appends exactly the logarithm restrictions |
| LegacyFunctionAnalysis.ExtremaOfAgree | analysis_module.py:140-151 | two classifications that agree on the kept points give the same extrema |
| LegacyFunctionAnalysis.StrictKinds | analysis_module.py:144-150 | classifying a point raises exactly when the current analysis would print "type undetermined"; otherwise it gives the same kind |
| LegacyFunctionAnalysis.LegacyExtremaBody | analysis_module.py:134-159 | never empty; the fallback line whenever the derivative or the critical points cannot be computed |
| LegacyFunctionAnalysis.LegacyExtremaAgreeWhenClassified | analysis_module.py:134-159 | when every kept point can be classified, the legacy extrema section equals the current one |
| LegacyFunctionAnalysis.LegacyClassificationFailureFailsSection | analysis_module.py:144-159 | without the inner guard, one kept point whose classification raises replaces the whole extrema section by its fallback line |
| LegacyFunctionAnalysis.LegacyExtremaSection | analysis_module.py:134-159 | the method equals the legacy extrema specification |
| LegacyFunctionAnalysis.CollectLegacyExtrema | analysis_module.py:140-151 | the loop succeeds exactly when the unguarded specification does, and then yields the same lines |
| LegacyFunctionAnalysis.LegacyBodies | analysis_module.py:18-159 | one body per legacy section |
| LegacyFunctionAnalysis.LegacySharesSectionsOf | analysis_module.py:18-132 | the heading, function, intercepts, symmetry, limits, derivative and integral parts of the legacy report equal the matching parts of the current one |
| LegacyFunctionAnalysis.SharesEarlySections | analysis_module.py:18-101 | the heading, function, intercepts, symmetry and limits-at-infinity parts of the two reports are equal |
| LegacyFunctionAnalysis.SharesLateSections | analysis_module.py:103-132 | the derivative, second-derivative and both integral parts of the legacy report equal the current report's parts one position later |
| LegacyFunctionAnalysis.LegacyParsesTheSameText | analysis_module.py:10-16 | without '=', both versions parse the same text and succeed or fail together |
| Segments.DefinedValues | src/mpl_widget.py:392-411 | at most one value per position, and exactly one when no position is NaN |
| Segments.Runs | src/mpl_widget.py:398-411 | the last run ends at the end of the prefix exactly when the last sample is defined |
| Segments.RunBounds | src/mpl_widget.py:398-411 | every run is non-empty and lies within the prefix |
| Segments.RunsBounded | src/mpl_widget.py:398-411 | as RunBounds, for all runs at once |
| Segments.Pieces | src/mpl_widget.py:398-411 | one segment per run |
| Segments.SplitPrefix | src/mpl_widget.py:392-411 | one segment per run of the prefix; each segment is non-empty with as many y values as x values |
| Segments.Split | src/mpl_widget.py:392-411 | no samples give no segments; every segment is non-empty with as many y values as x values |
| Segments.PiecesAppend | src/mpl_widget.py:407-409 | a new run adds exactly its segment at the end |
| Segments.PiecesWiden | src/mpl_widget.py:402-403 | widening the last run widens only the last segment |
| Segments.PieceGrows | src/mpl_widget.py:402-403 | widening a run by a defined sample appends that sample's x and y together |
| Segments.RunsSkip | src/mpl_widget.py:404-406 | a NaN sample starts no run |
| Segments.RunsOpen | src/mpl_widget.py:401-403 | a defined sample after NaN, or at the start, opens a new run |
| Segments.RunsWiden | src/mpl_widget.py:401-403 | a defined sample after a defined one extends the last run |
| Segments.SplitWidens | src/mpl_widget.py:401-403 | the splitter extends the current segment with a defined sample that follows a defined one |
| Segments.SplitOpens | src/mpl_widget.py:401-406 | the splitter starts a new one-point segment after a NaN |
| Segments.SplitStep | src/mpl_widget.py:399-406 | one loop iteration: skip on NaN, extend after a defined sample, otherwise start a segment |
| Segments.SplitIntoSegments | src/mpl_widget.py:392-411 | the loop yields exactly the specified segments |
| Segments.SplitPrefixAt | src/mpl_widget.py:392-411 | the k-th segment holds exactly the samples of the k-th run |
| Segments.RunInside | src/mpl_widget.py:399-406 | every sample of a run is defined, and the run starts at 0 or after a NaN |
| Segments.RunSeparated | src/mpl_widget.py:404-406 | a run ends at the end or before a NaN, and consecutive runs are separated |
| Segments.RunsAreMaximal | src/mpl_widget.py:398-411 | every run is a maximal NaN-free stretch, and runs are ordered and disjoint |
| Segments.RunContaining | src/mpl_widget.py:399-406 | every defined sample lies in some run |
| Segments.RunsCounted | src/mpl_widget.py:398-411 | the number of runs equals the number of defined samples that follow a NaN or the start |
| Segments.OfAppended | src/mpl_widget.py:407-409 | flattening after appending a segment appends its x and y lists |
| Segments.OfWidened | src/mpl_widget.py:402-403 | flattening after widening the last segment appends the new x and y |
| Segments.SplitPrefixFlattens | src/mpl_widget.py:392-411 | on every prefix, the concatenated x lists and y lists are exactly the defined samples, in order |
| Segments.SplitFlattens | src/mpl_widget.py:392-411 | concatenating all segments' x lists, and likewise the y lists, gives exactly the non-NaN samples, in order and index-aligned |
| Segments.SplitSegmentsAreRuns | src/mpl_widget.py:392-411 | one segment per maximal run; each is non-empty with x and y of equal length, and its x list is the input slice of the run |
| Segments.SplitCount | src/mpl_widget.py:392-411 | the number of segments is the number of run starts, and there are none exactly when every sample is NaN |
| Segments.SameSegment | src/mpl_widget.py:399-406 | two samples share a segment exactly when no NaN lies between them |
| Segments.SplitContinuous | tests/test_segments.py:29-38 | an input without NaN gives one segment equal to the input |
| Segments.SplitWithGap | tests/test_segments.py:41-53 | one interior NaN gives the two segments ([0,1],[0,1]) and ([3,4],[9,16]) |
| Segments.SplitMultipleGaps | tests/test_segments.py:55-63 | two separated NaNs give three segments |
| Segments.SplitAllMissing | tests/test_segments.py:65-73 | an all-NaN input gives no segments |
| PlotWidget.InitialTextStripped | src/mpl_widget.py:206-208 | the initial expression is non-empty and already stripped, so plotting it at start-up takes the non-blank path |
| PlotWidget.ColorName | src/mpl_widget.py:288-298 | an unknown colour value passes through unchanged; a known one maps to a colour name that selects that same value again |
| PlotWidget.ColorValue | src/mpl_widget.py:214-223 | an unknown colour name maps to "blue"; the result is always a known colour value |
| PlotWidget.LineStyle | src/mpl_widget.py:369-376 | an unknown style maps to a solid line; the result is always one of the four matplotlib styles |
| PlotWidget.ColorTablesInverse | src/mpl_widget.py:288-298 | the colour-name lookup and the colour-value map are mutual inverses on the six named colours |
| PlotWidget.Clip | src/mpl_widget.py:379-381 | a sample becomes NaN exactly when it is NaN or outside [yMin, yMax]; otherwise it is kept unchanged |
| PlotWidget.ClipIdempotent | src/mpl_widget.py:379-381 | clipping twice is the same as clipping once |
| PlotWidget.ClipAll | src/mpl_widget.py:379-381 | clipping keeps the number of samples |
| PlotWidget.ClipToRange | src/mpl_widget.py:379-381 | the masked copy is a fresh array whose contents are the clipped samples |
| PlotWidget.Drawn | src/mpl_widget.py:386-390 | exactly the segments with more than one point are drawn |
| PlotWidget.PlotSingleFunction | src/mpl_widget.py:367-390 | the style is looked up, and the drawn segments are the multi-point segments of the clipped samples |
| PlotWidget.DefinedValuesInRange | src/mpl_widget.py:379-384 | if every defined sample lies in range, so does every collected value |
| PlotWidget.DrawnWithinRange | src/mpl_widget.py:379-390 | every drawn segment has at least two points, all with y in [yMin, yMax] |
| PlotWidget.Describe | src/mpl_widget.py:273-277 | the list line shows the entry's expression and style, and the colour name that maps back to its colour (an unknown colour is shown as is) |
| PlotWidget.FirstFailure | src/mpl_widget.py:319-340 | none iff every entry evaluates; otherwise the first entry that does not |
| PlotWidget.DropAt | src/mpl_widget.py:337-339 | popping index i removes exactly that entry and shifts the later ones |
| PlotWidget.Redrawn | src/mpl_widget.py:300-352 | with an empty x range or every entry plottable, the list is unchanged; otherwise exactly the first failing entry is removed |
| PlotWidget.RedrawnSingle | src/mpl_widget.py:319-340 | redrawing a one-entry list keeps it iff that entry is plottable |
| PlotWidget.Restyled | src/mpl_widget.py:450-456 | restyling keeps the length and every expression, overwrites colour, style and alpha of the selected entries, and leaves other entries untouched |
| PlotWidget.Without | src/mpl_widget.py:474-478 | removing positions never lengthens the list |
| PlotWidget.WithoutNothing | src/mpl_widget.py:474-478 | removing nothing leaves the list unchanged |
| PlotWidget.WithoutAgrees | src/mpl_widget.py:474-478 | only the in-range removed positions matter |
| PlotWidget.DropAtAppend | src/mpl_widget.py:474-478 | popping inside a prefix leaves the suffix untouched |
| PlotWidget.WithoutLast | src/mpl_widget.py:474-478 | removal is decided position by position, the last position included |
| PlotWidget.RemoveRow | src/mpl_widget.py:474-478 | popping at the current index of an original row removes exactly that row |
| PlotWidget.DropKeepsDescribed | src/mpl_widget.py:337-339 | popping the same index from both lists keeps each list line describing its entry |
| PlotWidget.MplWidget.constructor | src/mpl_widget.py:38-208 | the initial colour, style, alpha and x range; the list holds the initial function iff it can be plotted; both lists are paired |
| PlotWidget.MplWidget.RedrawAll | src/mpl_widget.py:300-352 | the entries become the redrawn list and both lists stay paired |
| PlotWidget.MplWidget.OnXMinChanged | src/mpl_widget.py:114-196 | the x minimum becomes the spin box value and the functions are redrawn over the new range; an empty range keeps every function (Redrawn) |
| PlotWidget.MplWidget.OnXMaxChanged | src/mpl_widget.py:121-196 | the x maximum becomes the spin box value and the functions are redrawn over the new range |
| PlotWidget.MplWidget.OnPlot | src/mpl_widget.py:259-286 | blank text changes nothing; otherwise exactly one entry with the stripped text and the current colour, style and alpha is appended, followed by a redraw, and the input is cleared |
| PlotWidget.MplWidget.PlotExpression | src/mpl_widget.py:270-286 | appends one entry with the current style and redraws, keeping both lists paired |
| PlotWidget.MplWidget.OnColorChanged | src/mpl_widget.py:214-223 | the current colour becomes the value of the chosen name, and is always a known colour |
| PlotWidget.MplWidget.UpdateSelectedFunctionStyle | src/mpl_widget.py:443-464 | no selection changes nothing; otherwise the selected entries are restyled and the list is redrawn |
| PlotWidget.MplWidget.RemoveSelectedFunction | src/mpl_widget.py:466-481 | no selection changes nothing; otherwise exactly the selected rows are removed from both lists, followed by a redraw |
| PlotWidget.MplWidget.RemoveItem | src/mpl_widget.py:474-478 | removing one selected row pops it from both lists at the same index, keeping the lists paired |
| PlotWidget.MplWidget.ClearAllFunctions | src/mpl_widget.py:483-487 | both lists become empty |
| PlotWidget.PlotAppendsOne | src/mpl_widget.py:270-286 | if every entry and the new one can be plotted, plotting appends exactly the new entry |
| PlotWidget.RedrawDropsAtMostOne | src/mpl_widget.py:319-340 | a redraw removes at most one entry and adds none |
| FunctionFile.FindDangerousKeyword | src/file_module.py:70-73 | the keyword scan reports true exactly when one of the forbidden keywords occurs in the text |
| FunctionFile.ValidFunction | src/file_module.py:56-75 | a valid text is non-empty and contains 'x'; a text with a forbidden keyword is never valid |
| FunctionFile.IsValidFunction | src/file_module.py:56-75 | empty or whitespace-only text is invalid, text without 'x' is invalid, text with a forbidden keyword is invalid, and any other text is valid |
| FunctionFile.ContainsChar | src/file_module.py:66-67 | the substring test for a one-character string is membership of that character |
| FunctionFile.Loaded | src/file_module.py:22-35 | loading never yields more functions than there are lines |
| FunctionFile.LineEntry | src/file_module.py:25-35 | each line contributes at most one function |
| FunctionFile.LoadResult | src/file_module.py:6-53 | a missing or unreadable file loads nothing |
| FunctionFile.LoadFunctions | src/file_module.py:6-53 | the loop over the lines yields exactly the specified functions |
| FunctionFile.LoadedStep | src/file_module.py:25-35 | one iteration appends the stripped line exactly when it is kept |
| FunctionFile.Kept | src/file_module.py:28-34 | a kept line is non-empty, does not start with '#', contains 'x' and has no forbidden keyword |
| FunctionFile.CollectedAppend | src/file_module.py:22-35 | collecting per-line entries, under any per-line rule, distributes over concatenated line lists |
| FunctionFile.LoadedCollects | src/file_module.py:22-35 | loading collects the entry of every line, in line order |
| FunctionFile.LoadedAppend | src/file_module.py:22-35 | loading distributes over concatenated line lists, so file order is kept |
| FunctionFile.StrippedLines | src/file_module.py:25 | one stripped line per input line |
| FunctionFile.StrippedLine | src/file_module.py:25 | the i-th stripped line is the strip of the i-th line |
| FunctionFile.LoadedMembers | src/file_module.py:24-35 | a function is loaded exactly when it is the stripped form of some line that is non-empty, is not a comment and is valid |
| FunctionFile.LoadedStripped | src/file_module.py:25-35 | every loaded function is kept by the filter and already stripped |
| FunctionFile.JoinFourLines | src/file_module.py:91-94 | the header block is written as four newline-terminated lines |
| FunctionFile.NoNewlineJoined | src/file_module.py:91-94 | joining two line fragments without newlines gives one line |
| FunctionFile.HeaderLine | src/file_module.py:91-93 | each header line is a comment without a newline |
| FunctionFile.HeaderLines | src/file_module.py:91-93 | every header line is a comment without a newline |
| FunctionFile.SavedLines | src/file_module.py:91-102 | three comment lines, a blank line, then the functions in order |
| FunctionFile.SaveFunctions | src/file_module.py:78-107 | an empty list or path writes nothing; otherwise exactly the saved layout, one line per entry |
| FunctionFile.CommentSkipped | src/file_module.py:28-29 | a written comment line is skipped on loading |
| FunctionFile.NothingLoaded | src/file_module.py:28-35 | lines that are all rejected load nothing |
| FunctionFile.StrippedLineReread | src/file_module.py:25 | a stripped function written with its newline reads back as itself |
| FunctionFile.FunctionsReloaded | src/file_module.py:22-35 | stripped valid functions, written one per line, load back as the same list |
| FunctionFile.HeaderSkipped | src/file_module.py:91-94 | the header and the blank line load nothing |
| FunctionFile.LoadAfterSave | src/file_module.py:22-102 | loading what was saved gives the list back, whenever every function is stripped, has no newline, is not a comment and is valid |
| FunctionFile.TerminatedAppend | src/file_module.py:96-102 | writing two lists of lines one after the other writes their concatenation |
| FunctionFile.Suffixed | src/file_module.py:118-131 | the path either stays or gains the extension; it then ends with the extension, case-insensitively, and is unchanged if it already did |
| FunctionFile.FixExtension | src/file_module.py:118-131 | only a suffix is ever appended; the PNG, JPEG (.jpg or .jpeg), PDF and SVG filters are tried in that order, each making the path end in its extension and leaving it alone if it already does; an unrecognised filter leaves the path unchanged |
| FunctionFile.ExportTarget | src/file_module.py:110-138 | nothing is exported for an empty path; otherwise the target extends the chosen path |
| FunctionFile.FixExtensionIdempotent | src/file_module.py:118-131 | fixing the extension twice is the same as fixing it once |
| HistoryDialogs.ItemText | dialogs.py:38 | the item is the timestamp, the separator, then the function text |
| HistoryDialogs.Items | dialogs.py:35-38 | an absent history shows no items; otherwise there is one item per row, in history order |
| HistoryDialogs.ItemFunction | dialogs.py:58 | there is no text exactly when the item has no separator; otherwise the text is a suffix of the item that follows a separator |
| HistoryDialogs.ItemRoundTrip | dialogs.py:38-58 | the function text is recovered exactly when the separator does not occur in the timestamp followed by a space, whatever the function text contains |
| HistoryDialogs.SeparatorInserted | dialogs.py:38 | the separator sits right after the timestamp |
| HistoryDialogs.EarlierSeparator | dialogs.py:38-58 | a separator starting inside the timestamp part is found first |
| HistoryDialogs.NoEarlierSeparator | dialogs.py:38-58 | without such a separator, the first separator is the inserted one |
| HistoryDialogs.TimestampRoundTrip | dialogs.py:38-58 | a timestamp that neither contains the separator nor ends in " -" lets the text round-trip |
| HistoryDialogs.NotBeforeSpace | dialogs.py:38-58 | under those conditions, no separator starts inside the timestamp |
| HistoryDialogs.DashEndedTimestamp | dialogs.py:38-58 | a timestamp ending in " -" breaks the round trip, even though it contains no separator |
| HistoryDialogs.HistoryDialog.constructor | dialogs.py:27-52 | the list shows the formatted rows; nothing is selected, accepted or warned |
| HistoryDialogs.HistoryDialog.LoadSelected | dialogs.py:54-62 | with no selection, a warning and nothing else; with a selected item, its text after the first separator is stored and the dialog accepted |
| HistoryDialogs.LoadsRowText | dialogs.py:36-58 | loading row i of a history recovers that row's function text |
| Text.Strip | src/file_module.py:25 | the result has no whitespace at either end, is no longer than the input, and is empty exactly when the input is all whitespace; its exact value is stated by StripPadded and StripSplits |
| Text.StripPadded | src/file_module.py:25 | a text with no whitespace at either end, padded with whitespace on both sides, strips back to exactly itself |
| Text.StripSplits | src/file_module.py:25 | every text is whitespace, then what `strip()` returns, then whitespace; with StripPadded this fixes the value of `strip()` on every input |
| Text.SplitOnce | dialogs.py:58 | no split exactly when the separator does not occur; otherwise the text is the part before, the separator and the part after, and the separator does not occur earlier |
| Text.SplitLines | src/file_module.py:23-24 | an empty text has no lines and any other text has some; every line is non-empty and every line but the last ends with a newline; that the lines make up the text is stated by SplitLinesConcat |
| Text.SplitLinesAtNewlines | src/file_module.py:23-24 | no line holds a newline except at its end |
| Text.SplitLinesConcat | src/file_module.py:23-24 | the lines laid end to end are the text: reading line by line loses and adds nothing |

## Left out

- **Qt and matplotlib.** Widgets, layouts, message boxes, status-bar texts, drawing calls and `canvas.draw()` are not modelled. Neither are the analysis dialog, the colour dialog (`on_color_dialog`), `on_style_changed`, `on_alpha_changed`, `on_function_selected` and the analyse button. The model keeps only the state they update.
- **Message texts.** Report lines are tagged constants instead of Russian strings, and the float formatting (`:.2f`) of extrema is kept abstract. The warning texts of the file loader (with their line numbers) and of the dialogs are not modelled.
- **Numeric evaluation.** The expression is evaluated with Python `eval` and numpy over floating point (src/mpl_widget.py:354-365). It becomes a `plottable` predicate passed as a parameter, and the sampled y values are given as input. The y-range spin boxes are the `yMin`/`yMax` parameters.
- **Symbolic algebra.** Sympy is replaced by the oracles of `SymbolicOracle.Cas`. The model proves nothing about what sympy returns.
- **Discontinuity order.** The source removes duplicates through a hash set, so its order is not fixed. The model removes later duplicates. Only the set of points and the absence of duplicates are promised.
- **File and database I/O.** The contents of a file are given as a `FileRead` value: a missing file, a read error, or the text. The save/export result is the text that would be written. The sqlite history store (`src/database_module.py`) is not part of this model. Neither are universal-newline translation or Unicode case folding: `Lower` folds ASCII letters only.
- **IsValidFunction: non-string input.** The function's check for non-string input has no counterpart, because the model's argument is always a string.
- **SaveFunctions: dict entries.** The dead branch for entries carrying an `expression` attribute is not modelled. Every entry is a string.
- **HistoryDialog.LoadSelected: missing separator.** An item without `" - "` makes the source raise `IndexError`. The model treats it as leaving the dialog unchanged.
- **MplWidget.constructor: initial plot.** The constructor plots its initial function through `PlotExpression`, whose stripped-text path `InitialTextStripped` justifies. Widget construction itself is left out.
- **InWindow and ExtremaOf: float conversion.** `float(point)` (src/analysis_module.py:140 and :153, and the same conversions in the legacy extrema loop) can raise, for example `OverflowError`, which would fail the whole extrema section. A root's numeric value is a total real in the model, so such conversion failures are not modelled; only a failing evaluation of f at the point is.
- **CollectExtrema and CollectLegacyExtrema: failure message.** Both return `None` instead of the exception message when a point cannot be evaluated. Only the section's fixed fallback line is shown then, so the message is never used.
- **The entry points in main_window.py.** The calls into the widget there (including `on_plot_silent`, which does not exist in src/mpl_widget.py) are not part of this model.
