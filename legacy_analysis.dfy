/** The older `AnalysisModule.analyze_function`: an equation is cut at its first
    `=`, the domain is read off the immediate arguments of the expression, there
    is no limits-at-discontinuities section, and a failing classification of an
    extremum abandons the whole extrema section. The other sections are the
    same as in the current analysis. */
module LegacyFunctionAnalysis {
  import opened Wrappers
  import opened Text
  import opened SymbolicOracle
  import opened Report
  import opened FunctionAnalysis

  // ---------------------------------------------------------- the equation

  /** The text that is parsed: for an equation, the stripped text before its
      first `=`; any other text unchanged (and not stripped). */
  function ExpressionText(text: string): (r: string)
    ensures '=' !in text ==> r == text
    ensures '=' in text ==>
      '=' !in r && exists before, after :: text == before + "=" + after && '=' !in before && r == Strip(before)
  {
    match FindChar(text, '=')
    case None => text
    case Some(i) =>
      var before, after := text[..i], text[i + 1..];
      assert text == before + "=" + after;
      StripSubset(before);
      Strip(before)
  }

  /** Cutting twice cuts nothing more. */
  lemma ExpressionTextIdempotent(text: string)
    ensures ExpressionText(ExpressionText(text)) == ExpressionText(text)
  {
  }

  // ---------------------------------------------------------------- domain

  /** An argument that is a power with a negative exponent whose base sympy
      cannot solve. */
  predicate Unsolvable<E>(solve: E -> Result<seq<Root>>, t: Term<E>) {
    t.PowerTerm? && t.negativeExponent && solve(t.base).Err?
  }

  /** The restriction "x ≠ root" for every root of every base of a power with a
      negative exponent among the arguments; the first base that cannot be
      solved makes the whole domain section fail with its message. */
  function PowerIssuesOf<E>(solve: E -> Result<seq<Root>>, terms: seq<Term<E>>): (r: Result<seq<Restriction>>)
    ensures r.Err? <==> exists k :: 0 <= k < |terms| && Unsolvable(solve, terms[k])
    ensures r.Err? ==>
      exists k :: (0 <= k < |terms| && Unsolvable(solve, terms[k])
                   && r.message == solve(terms[k].base).message
                   && forall j :: 0 <= j < k ==> !Unsolvable(solve, terms[j]))
    ensures r.Ok? ==> forall x :: x in r.value <==>
      exists k, root :: 0 <= k < |terms| && terms[k].PowerTerm? && terms[k].negativeExponent
        && solve(terms[k].base).Ok? && root in solve(terms[k].base).value && x == NotEqual(root.text)
    decreases |terms|
  {
    if terms == [] then Ok([])
    else
      var init, last := terms[..|terms| - 1], terms[|terms| - 1];
      assert forall k :: 0 <= k < |init| ==> init[k] == terms[k];
      match PowerIssuesOf(solve, init)
      case Err(m) => Err(m)
      case Ok(issues) =>
        if !(last.PowerTerm? && last.negativeExponent) then Ok(issues)
        else
          match solve(last.base)
          case Err(m) => Err(m)
          case Ok(roots) =>
            assert forall x :: x in NotEquals(roots) <==> exists root :: root in roots && x == NotEqual(root.text);
            Ok(issues + NotEquals(roots))
  }

  /** "x ≠ root" for every root, real or not. */
  function NotEquals(roots: seq<Root>): (r: seq<Restriction>)
    ensures |r| == |roots|
    ensures forall k :: 0 <= k < |roots| ==> r[k] == NotEqual(roots[k].text)
  {
    seq(|roots|, k requires 0 <= k < |roots| => NotEqual(roots[k].text))
  }

  /** The restriction for one `log` argument: its positivity set, or the fixed
      reminder that it must be positive when that set cannot be computed. */
  function LogRestriction<E>(positiveSet: E -> Result<string>, argument: E): Restriction {
    match positiveSet(argument)
    case Ok(s) => LogSolution(s)
    case Err(_) => LogArgumentPositive
  }

  /** One restriction per `log` among the arguments; this part never fails. */
  function LogIssuesOf<E>(positiveSet: E -> Result<string>, terms: seq<Term<E>>): (r: seq<Restriction>)
    ensures forall x :: x in r <==>
      exists k :: 0 <= k < |terms| && terms[k].LogTerm? && x == LogRestriction(positiveSet, terms[k].argument)
    decreases |terms|
  {
    if terms == [] then []
    else
      var init, last := terms[..|terms| - 1], terms[|terms| - 1];
      assert forall k :: 0 <= k < |init| ==> init[k] == terms[k];
      LogIssuesOf(positiveSet, init)
      + (if last.LogTerm? then [LogRestriction(positiveSet, last.argument)] else [])
  }

  function PowerIssues<E>(cas: Cas<E>, e: E): Result<seq<Restriction>> {
    if cas.hasPower(e) then PowerIssuesOf(cas.solve, cas.arguments(e)) else Ok([])
  }

  function LogIssues<E>(cas: Cas<E>, e: E): seq<Restriction> {
    if cas.hasLog(e) then LogIssuesOf(cas.positiveSet, cas.arguments(e)) else []
  }

  /** The restrictions without repetitions, or "defined for all real x" when
      there are none. */
  function LegacyDomainBody<E>(cas: Cas<E>, e: E): (body: seq<Msg>)
    ensures |body| == 1
    ensures body[0].DomainFailed? <==> PowerIssues(cas, e).Err?
    ensures PowerIssues(cas, e).Err? ==> body[0] == DomainFailed(PowerIssues(cas, e).message)
    ensures body[0] == DefinedForAllReals <==> PowerIssues(cas, e).Ok? && PowerIssues(cas, e).value + LogIssues(cas, e) == []
    ensures body[0].Restrictions? ==>
      PowerIssues(cas, e).Ok?
      && forall x :: x in body[0].items <==> x in PowerIssues(cas, e).value || x in LogIssues(cas, e)
  {
    match PowerIssues(cas, e)
    case Err(m) => [DomainFailed(m)]
    case Ok(powers) =>
      var issues := powers + LogIssues(cas, e);
      if issues == [] then [DefinedForAllReals] else [Restrictions(set x | x in issues)]
  }

  /** What the older domain section reports: the restrictions of the immediate
      arguments, and nothing else; the continuous domain and the discontinuity
      checks of the current analysis are not consulted. */
  lemma LegacyDomainRestrictions<E>(cas: Cas<E>, e: E)
    requires PowerIssues(cas, e).Ok?
    ensures var body := LegacyDomainBody(cas, e);
      var terms := cas.arguments(e);
      && |body| == 1
      && (body[0] == DefinedForAllReals || body[0].Restrictions?)
      && (body[0].Restrictions? ==> forall x :: x in body[0].items <==>
           (cas.hasPower(e)
            && (exists k, root :: 0 <= k < |terms| && terms[k].PowerTerm? && terms[k].negativeExponent
                  && cas.solve(terms[k].base).Ok? && root in cas.solve(terms[k].base).value
                  && x == NotEqual(root.text)))
           || (cas.hasLog(e)
               && (exists k :: 0 <= k < |terms| && terms[k].LogTerm?
                     && x == LogRestriction(cas.positiveSet, terms[k].argument))))
      && (body[0] == DefinedForAllReals <==>
           (!cas.hasPower(e) || PowerIssues(cas, e).value == [])
           && (!cas.hasLog(e) || forall k :: 0 <= k < |terms| ==> !terms[k].LogTerm?))
  {
    var terms := cas.arguments(e);
    if cas.hasLog(e) && exists k :: 0 <= k < |terms| && terms[k].LogTerm? {
      var k :| 0 <= k < |terms| && terms[k].LogTerm?;
      assert LogRestriction(cas.positiveSet, terms[k].argument) in LogIssues(cas, e);
    }
    if LogIssues(cas, e) != [] {
      assert LogIssues(cas, e)[0] in LogIssues(cas, e);
    }
  }

  /** A base that cannot be solved loses the whole section, restrictions from
      `log` included. */
  lemma UnsolvableBaseFailsDomain<E>(cas: Cas<E>, e: E, k: nat)
    requires cas.hasPower(e) && k < |cas.arguments(e)| && Unsolvable(cas.solve, cas.arguments(e)[k])
    ensures |LegacyDomainBody(cas, e)| == 1 && LegacyDomainBody(cas, e)[0].DomainFailed?
  {
  }

  // --------------------------------------------------------------- extrema

  /** The classification of the older analysis: an exception while computing or
      comparing f'' is not caught at the point. */
  function StrictKinds<E>(diff2: E -> Result<E>, signAt: (E, Root) -> Result<Sign>, e: E): (kinds: Root -> Result<Kind>)
    ensures forall p :: kinds(p).Err? <==> Classify(diff2, signAt, e, p) == Undetermined
    ensures forall p :: kinds(p).Ok? ==> kinds(p).value == Classify(diff2, signAt, e, p)
  {
    p =>
      match diff2(e)
      case Err(m) => Err(m)
      case Ok(d2) =>
        match signAt(d2, p)
        case Err(m) => Err(m)
        case Ok(sign) => Ok(KindOf(sign))
  }

  /** The older extrema section: "could not be determined" when the critical
      points cannot be found or anything about a kept point raises. */
  function LegacyExtremaBody<E>(cas: Cas<E>, e: E): (body: seq<Msg>)
    ensures body != []
    ensures CriticalPoints(cas.diff, cas.solve, e).Err? ==> body == [ExtremaFailed]
  {
    match CriticalPoints(cas.diff, cas.solve, e)
    case Err(_) => [ExtremaFailed]
    case Ok(points) => ExtremaLines(ExtremaOf(StrictKinds(cas.diff2, cas.signAt, e), Values(cas.valueAt, e), points))
  }

  /** Two classifications that agree, and succeed, on every kept point give the
      same extrema. */
  lemma {:induction false} ExtremaOfAgree(kinds: Root -> Result<Kind>, others: Root -> Result<Kind>, values: Root -> Result<real>, points: seq<Root>)
    requires forall k :: 0 <= k < |points| && InWindow(points[k]) ==> kinds(points[k]) == others(points[k])
    ensures ExtremaOf(kinds, values, points) == ExtremaOf(others, values, points)
    decreases |points|
  {
    if points != [] {
      var init := points[..|points| - 1];
      assert forall k :: 0 <= k < |init| ==> init[k] == points[k];
      ExtremaOfAgree(kinds, others, values, init);
    }
  }

  /** When f'' can be computed and compared at every kept point, the older
      extrema section says exactly what the current one says. */
  lemma LegacyExtremaAgreeWhenClassified<E>(cas: Cas<E>, e: E)
    requires cas.diff2(e).Ok?
    requires CriticalPoints(cas.diff, cas.solve, e).Ok?
    requires var points := CriticalPoints(cas.diff, cas.solve, e).value;
      forall k :: 0 <= k < |points| && InWindow(points[k]) ==> cas.signAt(cas.diff2(e).value, points[k]).Ok?
    ensures LegacyExtremaBody(cas, e) == ExtremaBody(cas, e)
  {
    var points := CriticalPoints(cas.diff, cas.solve, e).value;
    var strict, guarded := StrictKinds(cas.diff2, cas.signAt, e), GuardedKinds(cas.diff2, cas.signAt, e);
    forall k | 0 <= k < |points| && InWindow(points[k])
      ensures strict(points[k]) == guarded(points[k])
    {
    }
    ExtremaOfAgree(strict, guarded, Values(cas.valueAt, e), points);
  }

  /** Where the current analysis would print "type undetermined", the older one
      loses the whole extrema section. */
  lemma LegacyClassificationFailureFailsSection<E>(cas: Cas<E>, e: E, k: nat)
    requires CriticalPoints(cas.diff, cas.solve, e).Ok?
    requires var points := CriticalPoints(cas.diff, cas.solve, e).value;
      k < |points| && InWindow(points[k]) && Classify(cas.diff2, cas.signAt, e, points[k]) == Undetermined
    ensures LegacyExtremaBody(cas, e) == [ExtremaFailed]
  {
    var points := CriticalPoints(cas.diff, cas.solve, e).value;
    assert StrictKinds(cas.diff2, cas.signAt, e)(points[k]).Err?;
  }

  // ---------------------------------------------------------------- report

  /** The lines of every section of the older report, in header order. */
  function LegacyBodies<E>(cas: Cas<E>, e: E): (b: seq<seq<Msg>>)
    ensures |b| == |LegacySectionOrder|
  {
    [Body(Heading, cas, e), Body(Function, cas, e), LegacyDomainBody(cas, e),
     Body(Intercepts, cas, e), Body(Symmetry, cas, e), Body(LimitsAtInfinity, cas, e),
     Body(Derivative, cas, e), Body(SecondDerivative, cas, e), Body(Integral, cas, e),
     Body(DefiniteIntegral, cas, e), LegacyExtremaBody(cas, e)]
  }

  /** The older `analyze_function(text)`: a report of a heading, the function
      line and nine sections, or the `ValueError` raised when the (possibly
      cut) text does not parse. */
  function LegacyAnalysis<E>(cas: Cas<E>, text: string): (r: Result<seq<Part>>)
    ensures r.Err? <==> cas.sympify(ExpressionText(text)).Err?
    ensures r.Err? ==> r.message == cas.sympify(ExpressionText(text)).message
    ensures r.Ok? ==> Tags(r.value) == LegacySectionOrder
  {
    match cas.sympify(ExpressionText(text))
    case Err(m) => Err(m)
    case Ok(e) => Ok(Layout(LegacySectionOrder, LegacyBodies(cas, e)))
  }

  /** For the same expression, the two reports agree on every section except
      the domain and the extrema; the current one has an extra section. */
  lemma LegacySharesSectionsOf<E>(cas: Cas<E>, e: E)
    ensures var older, newer := Layout(LegacySectionOrder, LegacyBodies(cas, e)), Layout(SectionOrder, Bodies(cas, e));
      && older[0] == newer[0] && older[1] == newer[1] && older[3] == newer[3]
      && older[4] == newer[4] && older[5] == newer[5]
      && older[6] == newer[7] && older[7] == newer[8] && older[8] == newer[9] && older[9] == newer[10]
  {
    SharesEarlySections(cas, e);
    SharesLateSections(cas, e);
  }

  /** The shared sections before the extra one. */
  lemma SharesEarlySections<E>(cas: Cas<E>, e: E)
    ensures var older, newer := Layout(LegacySectionOrder, LegacyBodies(cas, e)), Layout(SectionOrder, Bodies(cas, e));
      && older[0] == newer[0] && older[1] == newer[1] && older[3] == newer[3]
      && older[4] == newer[4] && older[5] == newer[5]
  {
    var ob, nb := LegacyBodies(cas, e), Bodies(cas, e);
    LayoutsAlign(ob, nb, 0);
    LayoutsAlign(ob, nb, 1);
    LayoutsAlign(ob, nb, 3);
    LayoutsAlign(ob, nb, 4);
    LayoutsAlign(ob, nb, 5);
  }

  /** The shared sections after the extra one, each one position later. */
  lemma SharesLateSections<E>(cas: Cas<E>, e: E)
    ensures var older, newer := Layout(LegacySectionOrder, LegacyBodies(cas, e)), Layout(SectionOrder, Bodies(cas, e));
      && older[6] == newer[7] && older[7] == newer[8] && older[8] == newer[9] && older[9] == newer[10]
  {
    var ob, nb := LegacyBodies(cas, e), Bodies(cas, e);
    LayoutsAlign(ob, nb, 6);
    LayoutsAlign(ob, nb, 7);
    LayoutsAlign(ob, nb, 8);
    LayoutsAlign(ob, nb, 9);
  }

  /** For a text without `=`, both analyses parse the same text. */
  lemma LegacyParsesTheSameText<E>(cas: Cas<E>, text: string)
    requires '=' !in text
    ensures LegacyAnalysis(cas, text).Ok? <==> Analysis(cas, text).Ok?
    ensures LegacyAnalysis(cas, text).Ok? ==>
      LegacyAnalysis(cas, text).value == Layout(LegacySectionOrder, LegacyBodies(cas, cas.sympify(text).value))
      && Analysis(cas, text).value == Layout(SectionOrder, Bodies(cas, cas.sympify(text).value))
  {
  }

  // ---------------------------------------------------------- the procedure

  /** The domain section: the arguments are scanned for powers, then for logs. */
  method LegacyDomainSection<E>(cas: Cas<E>, e: E) returns (body: seq<Msg>)
    ensures body == LegacyDomainBody(cas, e)
  {
    var issues: seq<Restriction> := [];
    var terms := cas.arguments(e);
    if cas.hasPower(e) {
      var powers := CollectPowerIssues(cas.solve, terms);
      if powers.Err? {
        return [DomainFailed(powers.message)];
      }
      issues := powers.value;
    }
    if cas.hasLog(e) {
      issues := CollectLogIssues(cas.positiveSet, terms, issues);
    } else {
      assert issues == issues + [];
    }
    if issues != [] {
      body := [Restrictions(set x | x in issues)];
    } else {
      body := [DefinedForAllReals];
    }
  }

  /** The loop over the arguments for powers: a base that cannot be solved
      ends it with the solver's exception. */
  method CollectPowerIssues<E>(solve: E -> Result<seq<Root>>, terms: seq<Term<E>>) returns (r: Result<seq<Restriction>>)
    ensures r == PowerIssuesOf(solve, terms)
  {
    var issues: seq<Restriction> := [];
    for i := 0 to |terms|
      invariant PowerIssuesOf(solve, terms[..i]) == Ok(issues)
    {
      assert terms[..i + 1][..i] == terms[..i];
      var term := terms[i];
      if term.PowerTerm? && term.negativeExponent {
        var roots := solve(term.base);
        if roots.Err? {
          assert Unsolvable(solve, terms[i]);
          assert forall j :: 0 <= j < i ==> !Unsolvable(solve, terms[j]) by {
            assert forall j :: 0 <= j < i ==> terms[..i][j] == terms[j];
          }
          return Err(roots.message);
        }
        issues := issues + NotEquals(roots.value);
      }
    }
    assert terms[..|terms|] == terms;
    r := Ok(issues);
  }

  /** The loop over the arguments for logarithms, appending to the
      restrictions found so far. */
  method CollectLogIssues<E>(positiveSet: E -> Result<string>, terms: seq<Term<E>>, found: seq<Restriction>) returns (issues: seq<Restriction>)
    ensures issues == found + LogIssuesOf(positiveSet, terms)
  {
    issues := found;
    for i := 0 to |terms|
      invariant issues == found + LogIssuesOf(positiveSet, terms[..i])
    {
      assert terms[..i + 1][..i] == terms[..i];
      var term := terms[i];
      if term.LogTerm? {
        var solution := positiveSet(term.argument);
        if solution.Ok? {
          issues := issues + [LogSolution(solution.value)];
        } else {
          issues := issues + [LogArgumentPositive];
        }
      }
    }
    assert terms[..|terms|] == terms;
  }

  /** The extrema section of the older analysis: the critical points, then the
      loop over them; an exception anywhere abandons the section. */
  method LegacyExtremaSection<E>(cas: Cas<E>, e: E) returns (body: seq<Msg>)
    ensures body == LegacyExtremaBody(cas, e)
  {
    var derivative := cas.diff(e);
    if derivative.Err? {
      return [ExtremaFailed];
    }
    var critical := cas.solve(derivative.value);
    if critical.Err? {
      return [ExtremaFailed];
    }
    var extremums := CollectLegacyExtrema(cas, e, critical.value);
    if extremums.None? {
      return [ExtremaFailed];
    }
    if extremums.value != [] {
      body := extremums.value;
    } else {
      body := [NoExtremaFound];
    }
  }

  /** The older loop over the critical points: no guard around the
      classification, so f'' or its sign raising ends the loop as a value
      raising does, with nothing. */
  method CollectLegacyExtrema<E>(cas: Cas<E>, e: E, points: seq<Root>) returns (r: Option<seq<Msg>>)
    ensures var spec := ExtremaOf(StrictKinds(cas.diff2, cas.signAt, e), Values(cas.valueAt, e), points);
      (r.Some? <==> spec.Ok?) && (r.Some? ==> r.value == spec.value)
  {
    ghost var kinds, values := StrictKinds(cas.diff2, cas.signAt, e), Values(cas.valueAt, e);
    var extremums: seq<Msg> := [];
    for i := 0 to |points|
      invariant ExtremaOf(kinds, values, points[..i]) == Ok(extremums)
    {
      assert points[..i + 1][..i] == points[..i];
      var point := points[i];
      if point.isReal && -10.0 <= point.approx <= 10.0 {
        var y := cas.valueAt(e, point);
        var second := cas.diff2(e);
        if second.Err? {
          ExtremaFailAt(kinds, values, points, i);
          return None;
        }
        var sign := cas.signAt(second.value, point);
        if sign.Err? || y.Err? {
          ExtremaFailAt(kinds, values, points, i);
          return None;
        }
        extremums := extremums + [ExtremumAt(KindOf(sign.value), point.approx, y.value)];
      }
    }
    assert points[..|points|] == points;
    r := Some(extremums);
  }

  /** The older `analyze_function`: cut, parse, then append the sections. */
  method LegacyAnalyzeFunction<E>(cas: Cas<E>, text: string) returns (r: Result<seq<Part>>)
    ensures r == LegacyAnalysis(cas, text)
  {
    var source := text;
    var cut := FindChar(source, '=');
    if cut.Some? {
      source := Strip(source[..cut.value]);
    }
    var parsed := cas.sympify(source);
    if parsed.Err? {
      return Err(parsed.message);
    }
    var e := parsed.value;
    var report := [Part(Heading, [])];
    report := report + [Part(Function, [FunctionIs(cas.show(e))])];
    var domain := LegacyDomainSection(cas, e);
    report := report + [Part(Domain, domain)];
    report := report + [Part(Intercepts, Body(Intercepts, cas, e))];
    report := report + [Part(Symmetry, Body(Symmetry, cas, e))];
    report := report + [Part(LimitsAtInfinity, Body(LimitsAtInfinity, cas, e))];
    report := report + [Part(Derivative, Body(Derivative, cas, e))];
    report := report + [Part(SecondDerivative, Body(SecondDerivative, cas, e))];
    report := report + [Part(Integral, Body(Integral, cas, e))];
    report := report + [Part(DefiniteIntegral, Body(DefiniteIntegral, cas, e))];
    var extrema := LegacyExtremaSection(cas, e);
    report := report + [Part(Extrema, extrema)];
    ghost var bodies := LegacyBodies(cas, e);
    AppendedInLegacyOrder(bodies);
    r := Ok(report);
  }
}
