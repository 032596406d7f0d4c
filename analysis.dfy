/** `AnalysisModule.analyze_function` of the current analysis: a report of a
    heading, the function line and ten sections in a fixed order, where each
    sympy call that raises is caught inside its own section and replaced there
    by a fallback line. */
module FunctionAnalysis {
  import opened Wrappers
  import opened SymbolicOracle
  import opened Report
  import opened DiscontinuityChecks

  // ---------------------------------------------------------------- domain

  /** All reals; or the discontinuities (when there are any) and the domain; or
      the fallback line carrying the message `continuous_domain` raised. */
  function DomainBody<E>(cas: Cas<E>, e: E): (body: seq<Msg>)
    ensures 1 <= |body| <= 2
    ensures cas.continuousDomain(e).Err? ==> body == [DomainFailed(cas.continuousDomain(e).message)]
    ensures body == [DefinedForAllReals] <==>
      cas.continuousDomain(e).Ok? && cas.continuousDomain(e).value.isAllReals
    ensures cas.continuousDomain(e).Ok? && !cas.continuousDomain(e).value.isAllReals ==>
      body[|body| - 1] == DomainIs(cas.continuousDomain(e).value.text) && (|body| == 2 ==> body[0].UndefinedAt?)
  {
    match cas.continuousDomain(e)
    case Err(m) => [DomainFailed(m)]
    case Ok(d) =>
      if d.isAllReals then [DefinedForAllReals]
      else
        var points := Discontinuities(cas, e);
        if points != [] then [UndefinedAt(points), DomainIs(d.text)] else [DomainIs(d.text)]
  }

  /** When `continuous_domain` answers "all reals", the discontinuity checks are
      not consulted: any two oracle sets that agree on the domain print the
      same section. */
  lemma AllRealsIgnoresDiscontinuities<E>(cas: Cas<E>, other: Cas<E>, e: E)
    requires cas.continuousDomain(e).Ok? && cas.continuousDomain(e).value.isAllReals
    requires other.continuousDomain(e) == cas.continuousDomain(e)
    ensures DomainBody(cas, e) == DomainBody(other, e) == [DefinedForAllReals]
  {
  }

  /** Otherwise the domain line is always printed, preceded by the list of
      discontinuities exactly when that list is not empty. */
  lemma DomainListsDiscontinuities<E>(cas: Cas<E>, e: E)
    requires cas.continuousDomain(e).Ok? && !cas.continuousDomain(e).value.isAllReals
    ensures var body := DomainBody(cas, e);
      && body[|body| - 1] == DomainIs(cas.continuousDomain(e).value.text)
      && (|body| == 2 <==> Discontinuities(cas, e) != [])
      && (|body| == 2 ==> body[0] == UndefinedAt(Discontinuities(cas, e)))
  {
  }

  // ------------------------------------------------------------ intercepts

  function YInterceptLine<E>(atZero: E -> Result<Value>, e: E): Msg {
    match atZero(e)
    case Err(_) => YInterceptFailed
    case Ok(v) => if v.isFinite then YIntercept(v.text) else YUndefinedAtZero
  }

  function XInterceptsLine<E>(solve: E -> Result<seq<Root>>, e: E): Msg {
    match solve(e)
    case Err(_) => XInterceptsFailed
    case Ok(roots) =>
      var realRoots := RealTexts(roots);
      if realRoots != [] then XIntercepts(realRoots) else NoRealRoots
  }

  /** The y-intercept line, then the x-intercepts line; each has its own guard. */
  function InterceptsBody<E>(cas: Cas<E>, e: E): (body: seq<Msg>)
    ensures |body| == 2
    ensures body[0] == YInterceptFailed <==> cas.atZero(e).Err?
    ensures body[0] == YUndefinedAtZero <==> cas.atZero(e).Ok? && !cas.atZero(e).value.isFinite
    ensures cas.atZero(e).Ok? && cas.atZero(e).value.isFinite ==> body[0] == YIntercept(cas.atZero(e).value.text)
    ensures body[1] == XInterceptsFailed <==> cas.solve(e).Err?
    ensures body[1] == XInterceptsLine(cas.solve, e)
  {
    [YInterceptLine(cas.atZero, e), XInterceptsLine(cas.solve, e)]
  }

  /** The x-intercepts are exactly the roots sympy calls real. */
  lemma XInterceptsAreRealRoots<E>(solve: E -> Result<seq<Root>>, e: E)
    requires solve(e).Ok?
    ensures XInterceptsLine(solve, e) == NoRealRoots <==> forall root :: root in solve(e).value ==> !root.isReal
    ensures XInterceptsLine(solve, e).XIntercepts? ==>
      forall t :: t in XInterceptsLine(solve, e).roots <==>
        exists root :: root in solve(e).value && root.isReal && root.text == t
  {
    var roots := solve(e).value;
    if exists root :: root in roots && root.isReal {
      var root :| root in roots && root.isReal;
      assert root.text in RealTexts(roots);
    }
  }

  // -------------------------------------------------------------- symmetry

  /** Even is tested first, odd only when the function is not even. */
  function SymmetryBody<E>(cas: Cas<E>, e: E): (body: seq<Msg>)
    ensures |body| == 1 && body[0] in {Even, Odd, General, SymmetryFailed}
    ensures cas.isEven(e) == Ok(true) ==> body == [Even]
    ensures body == [SymmetryFailed] <==>
      cas.isEven(e).Err? || (cas.isEven(e) == Ok(false) && cas.isOdd(e).Err?)
  {
    match cas.isEven(e)
    case Err(_) => [SymmetryFailed]
    case Ok(even) =>
      if even then [Even]
      else
        match cas.isOdd(e)
        case Err(_) => [SymmetryFailed]
        case Ok(odd) => if odd then [Odd] else [General]
  }

  /** The symmetry decision, outcome by outcome. A function that is both even
      and odd (f = 0) is reported even, and the odd test is then never made. */
  lemma SymmetryDecision<E>(cas: Cas<E>, e: E)
    ensures SymmetryBody(cas, e) == [Even] <==> cas.isEven(e) == Ok(true)
    ensures SymmetryBody(cas, e) == [Odd] <==> cas.isEven(e) == Ok(false) && cas.isOdd(e) == Ok(true)
    ensures SymmetryBody(cas, e) == [General] <==> cas.isEven(e) == Ok(false) && cas.isOdd(e) == Ok(false)
    ensures SymmetryBody(cas, e) == [SymmetryFailed] <==>
      cas.isEven(e).Err? || (cas.isEven(e) == Ok(false) && cas.isOdd(e).Err?)
    ensures cas.isEven(e) == Ok(true) ==> SymmetryBody(cas, e) == SymmetryBody(Break(cas, IsOdd), e)
  {
  }

  // ---------------------------------------------------------------- limits

  /** Both limits are taken before anything is printed, so a failure of either
      prints only the fallback line. */
  function InfinityLimitsBody<E>(cas: Cas<E>, e: E): (body: seq<Msg>)
    ensures body == [InfinityLimitsFailed] <==>
      cas.limit(e, PlusInfinity).Err? || cas.limit(e, MinusInfinity).Err?
    ensures body != [InfinityLimitsFailed] ==>
      body == [LimitAtPlusInfinity(cas.limit(e, PlusInfinity).value),
               LimitAtMinusInfinity(cas.limit(e, MinusInfinity).value)]
  {
    match cas.limit(e, PlusInfinity)
    case Err(_) => [InfinityLimitsFailed]
    case Ok(plus) =>
      match cas.limit(e, MinusInfinity)
      case Err(_) => [InfinityLimitsFailed]
      case Ok(minus) => [LimitAtPlusInfinity(plus), LimitAtMinusInfinity(minus)]
  }

  /** The line for one discontinuity: the point is parsed back, then the left and
      the right limit are taken inside one guard. */
  function PointLimits<E>(sympify: string -> Result<E>, limit: (E, Approach<E>) -> Result<string>, e: E, point: string): Msg {
    match sympify(point)
    case Err(_) => PointLimitsFailed(point)
    case Ok(v) =>
      match limit(e, FromLeft(v))
      case Err(_) => PointLimitsFailed(point)
      case Ok(left) =>
        match limit(e, FromRight(v))
        case Err(_) => PointLimitsFailed(point)
        case Ok(right) => OneSidedLimits(point, left, right)
  }

  /** One line per point, in order. */
  function PointLimitsOf<E>(sympify: string -> Result<E>, limit: (E, Approach<E>) -> Result<string>, e: E, points: seq<string>): (r: seq<Msg>)
    ensures |r| == |points|
    decreases |points|
  {
    if points == [] then []
    else PointLimitsOf(sympify, limit, e, points[..|points| - 1]) + [PointLimits(sympify, limit, e, points[|points| - 1])]
  }

  /** Each line depends on its own point only, so a failing point costs its own
      line and no other. */
  lemma {:induction false} PointLimitsAt<E>(sympify: string -> Result<E>, limit: (E, Approach<E>) -> Result<string>, e: E, points: seq<string>, k: nat)
    requires k < |points|
    ensures PointLimitsOf(sympify, limit, e, points)[k] == PointLimits(sympify, limit, e, points[k])
    decreases |points|
  {
    var n := |points| - 1;
    if k < n {
      PointLimitsAt(sympify, limit, e, points[..n], k);
    }
  }

  /** `find_discontinuities` never raises, so the section's outer fallback line
      cannot be printed and is not modelled. */
  function DiscontinuityLimitsBody<E>(cas: Cas<E>, e: E): (body: seq<Msg>)
    ensures forall k :: 0 <= k < |body| ==> body[k].OneSidedLimits? || body[k].PointLimitsFailed?
  {
    PointLinesNamed(cas.sympify, cas.limit, e, Discontinuities(cas, e));
    PointLimitsOf(cas.sympify, cas.limit, e, Discontinuities(cas, e))
  }

  /** The section has one line per discontinuity, and the k-th line is about
      the k-th discontinuity. */
  lemma DiscontinuityLinesNamed<E>(cas: Cas<E>, e: E)
    ensures var body, points := DiscontinuityLimitsBody(cas, e), Discontinuities(cas, e);
      && |body| == |points|
      && forall k :: 0 <= k < |points| ==> (body[k].OneSidedLimits? || body[k].PointLimitsFailed?) && body[k].point == points[k]
  {
    PointLinesNamed(cas.sympify, cas.limit, e, Discontinuities(cas, e));
  }

  /** The k-th line is about the k-th point: its limits, or its fallback line. */
  lemma PointLinesNamed<E>(sympify: string -> Result<E>, limit: (E, Approach<E>) -> Result<string>, e: E, points: seq<string>)
    ensures forall k :: 0 <= k < |points| ==>
      var line := PointLimitsOf(sympify, limit, e, points)[k];
      (line.OneSidedLimits? || line.PointLimitsFailed?) && line.point == points[k]
  {
    forall k | 0 <= k < |points|
      ensures var line := PointLimitsOf(sympify, limit, e, points)[k];
        (line.OneSidedLimits? || line.PointLimitsFailed?) && line.point == points[k]
    {
      PointLimitsAt(sympify, limit, e, points, k);
    }
  }

  /** Every line names its point; it carries both limits or is the point's
      fallback line, and is the latter exactly when re-parsing the point or one
      of the two limits raises. */
  lemma PointLimitsLine<E>(sympify: string -> Result<E>, limit: (E, Approach<E>) -> Result<string>, e: E, point: string)
    ensures PointLimits(sympify, limit, e, point).point == point
    ensures PointLimits(sympify, limit, e, point).PointLimitsFailed? <==>
      sympify(point).Err? || limit(e, FromLeft(sympify(point).value)).Err?
      || limit(e, FromRight(sympify(point).value)).Err?
    ensures PointLimits(sympify, limit, e, point).OneSidedLimits? ==>
      var v := sympify(point).value;
      PointLimits(sympify, limit, e, point) == OneSidedLimits(point, limit(e, FromLeft(v)).value, limit(e, FromRight(v)).value)
  {
  }

  // -------------------------------------------------- derivatives, integrals

  function DerivativeBody<E>(cas: Cas<E>, e: E): (body: seq<Msg>)
    ensures body == [DerivativeFailed] <==> cas.diff(e).Err?
    ensures cas.diff(e).Ok? ==> body == [FirstDerivativeIs(cas.show(cas.diff(e).value))]
  {
    match cas.diff(e)
    case Err(_) => [DerivativeFailed]
    case Ok(d) => [FirstDerivativeIs(cas.show(d))]
  }

  function SecondDerivativeBody<E>(cas: Cas<E>, e: E): (body: seq<Msg>)
    ensures body == [SecondDerivativeFailed] <==> cas.diff2(e).Err?
    ensures cas.diff2(e).Ok? ==> body == [SecondDerivativeIs(cas.show(cas.diff2(e).value))]
  {
    match cas.diff2(e)
    case Err(_) => [SecondDerivativeFailed]
    case Ok(d) => [SecondDerivativeIs(cas.show(d))]
  }

  function IntegralBody<E>(cas: Cas<E>, e: E): (body: seq<Msg>)
    ensures body == [IntegralFailed] <==> cas.integrate(e).Err?
    ensures cas.integrate(e).Ok? ==> body == [AntiderivativeIs(cas.show(cas.integrate(e).value))]
  {
    match cas.integrate(e)
    case Err(_) => [IntegralFailed]
    case Ok(i) => [AntiderivativeIs(cas.show(i))]
  }

  function DefiniteIntegralBody<E>(cas: Cas<E>, e: E): (body: seq<Msg>)
    ensures body == [DefiniteIntegralFailed] <==> cas.integrateOver(e).Err?
    ensures cas.integrateOver(e).Ok? ==> body == [DefiniteIntegralIs(cas.integrateOver(e).value)]
  {
    match cas.integrateOver(e)
    case Err(_) => [DefiniteIntegralFailed]
    case Ok(v) => [DefiniteIntegralIs(v)]
  }

  // --------------------------------------------------------------- extrema

  /** A critical point is kept when it is real and its value lies in [-10, 10]. */
  predicate InWindow(p: Root) {
    p.isReal && -10.0 <= p.approx <= 10.0
  }

  /** The kept critical points, in solver order. */
  function Kept(points: seq<Root>): (r: seq<Root>)
    ensures |r| <= |points|
    ensures forall p :: p in r <==> p in points && InWindow(p)
    decreases |points|
  {
    if points == [] then []
    else
      var init, last := points[..|points| - 1], points[|points| - 1];
      assert points == init + [last];
      Kept(init) + (if InWindow(last) then [last] else [])
  }

  /** Filtering commutes with concatenation: the kept points keep their order. */
  lemma {:induction false} KeptAppend(a: seq<Root>, b: seq<Root>)
    ensures Kept(a + b) == Kept(a) + Kept(b)
    decreases |b|
  {
    if b == [] {
      assert a + b == a;
    } else {
      var init, last := b[..|b| - 1], b[|b| - 1];
      var tail := if InWindow(last) then [last] else [];
      assert (a + b)[..|a + b| - 1] == a + init;
      assert (a + b)[|a + b| - 1] == last;
      assert Kept(a + b) == Kept(a + init) + tail;
      assert Kept(b) == Kept(init) + tail;
      KeptAppend(a, init);
    }
  }

  /** f'' > 0 is a minimum, f'' < 0 a maximum, anything else an inflection point. */
  function KindOf(sign: Sign): Kind {
    match sign
    case Positive => Minimum
    case Negative => Maximum
    case Neither => Inflection
  }

  /** The extremum type from the sign of f'' at the point; a computation or a
      comparison that raises gives "type undetermined". */
  function Classify<E>(diff2: E -> Result<E>, signAt: (E, Root) -> Result<Sign>, e: E, p: Root): (kind: Kind)
    ensures kind == Undetermined <==> diff2(e).Err? || signAt(diff2(e).value, p).Err?
    ensures kind != Undetermined ==> kind == KindOf(signAt(diff2(e).value, p).value)
  {
    match diff2(e)
    case Err(_) => Undetermined
    case Ok(d2) =>
      match signAt(d2, p)
      case Err(_) => Undetermined
      case Ok(sign) => KindOf(sign)
  }

  lemma ClassifyBySign<E>(diff2: E -> Result<E>, signAt: (E, Root) -> Result<Sign>, e: E, p: Root)
    ensures Classify(diff2, signAt, e, p) == Minimum <==> diff2(e).Ok? && signAt(diff2(e).value, p) == Ok(Positive)
    ensures Classify(diff2, signAt, e, p) == Maximum <==> diff2(e).Ok? && signAt(diff2(e).value, p) == Ok(Negative)
    ensures Classify(diff2, signAt, e, p) == Inflection <==> diff2(e).Ok? && signAt(diff2(e).value, p) == Ok(Neither)
    ensures Classify(diff2, signAt, e, p) == Undetermined <==> diff2(e).Err? || signAt(diff2(e).value, p).Err?
  {
  }

  /** The classification of the current analysis, which never raises. */
  function GuardedKinds<E>(diff2: E -> Result<E>, signAt: (E, Root) -> Result<Sign>, e: E): Root -> Result<Kind> {
    p => Ok(Classify(diff2, signAt, e, p))
  }

  /** `float(f(point))`, which may raise. */
  function Values<E>(valueAt: (E, Root) -> Result<real>, e: E): Root -> Result<real> {
    p => valueAt(e, p)
  }

  /** The extrema loop over the critical points: for each kept point, its type
      and its value; an exception for a kept point ends the whole loop. Points
      outside the window are never classified nor evaluated. */
  function ExtremaOf(kindOf: Root -> Result<Kind>, valueOf: Root -> Result<real>, points: seq<Root>): (r: Result<seq<Msg>>)
    ensures r.Err? <==> exists k :: 0 <= k < |points| && InWindow(points[k]) && (kindOf(points[k]).Err? || valueOf(points[k]).Err?)
    ensures r.Ok? ==> |r.value| == |Kept(points)|
    ensures r.Ok? ==> forall k :: 0 <= k < |r.value| ==>
      var q := Kept(points)[k];
      kindOf(q).Ok? && valueOf(q).Ok? && r.value[k] == ExtremumAt(kindOf(q).value, q.approx, valueOf(q).value)
    decreases |points|
  {
    if points == [] then Ok([])
    else
      var init, last := points[..|points| - 1], points[|points| - 1];
      assert forall k :: 0 <= k < |init| ==> init[k] == points[k];
      match ExtremaOf(kindOf, valueOf, init)
      case Err(m) => Err(m)
      case Ok(ms) =>
        if !InWindow(last) then Ok(ms)
        else
          match kindOf(last)
          case Err(m) => Err(m)
          case Ok(kind) =>
            match valueOf(last)
            case Err(m) => Err(m)
            case Ok(y) => Ok(ms + [ExtremumAt(kind, last.approx, y)])
  }

  /** A kept point whose type or value raises makes the whole loop raise. */
  lemma ExtremaFailAt(kindOf: Root -> Result<Kind>, valueOf: Root -> Result<real>, points: seq<Root>, i: nat)
    requires i < |points| && InWindow(points[i])
    requires kindOf(points[i]).Err? || valueOf(points[i]).Err?
    ensures ExtremaOf(kindOf, valueOf, points).Err?
  {
  }

  /** `diff` then `solve`: the critical points. */
  function CriticalPoints<E>(diff: E -> Result<E>, solve: E -> Result<seq<Root>>, e: E): Result<seq<Root>> {
    match diff(e)
    case Err(m) => Err(m)
    case Ok(d) => solve(d)
  }

  /** The lines of the extrema section for the outcome of the loop. */
  function ExtremaLines(r: Result<seq<Msg>>): seq<Msg> {
    match r
    case Err(_) => [ExtremaFailed]
    case Ok(ms) => if ms == [] then [NoExtremaFound] else ms
  }

  function ExtremaBody<E>(cas: Cas<E>, e: E): (body: seq<Msg>)
    ensures body != []
    ensures CriticalPoints(cas.diff, cas.solve, e).Err? ==> body == [ExtremaFailed]
  {
    match CriticalPoints(cas.diff, cas.solve, e)
    case Err(_) => [ExtremaFailed]
    case Ok(points) => ExtremaLines(ExtremaOf(GuardedKinds(cas.diff2, cas.signAt, e), Values(cas.valueAt, e), points))
  }

  /** Every extremum listed lies in the window [-10, 10]. */
  lemma ExtremaInWindow(kindOf: Root -> Result<Kind>, valueOf: Root -> Result<real>, points: seq<Root>)
    ensures var r := ExtremaOf(kindOf, valueOf, points);
      r.Ok? ==> forall k :: 0 <= k < |r.value| ==> r.value[k].ExtremumAt? && -10.0 <= r.value[k].x <= 10.0
  {
    var r := ExtremaOf(kindOf, valueOf, points);
    if r.Ok? {
      forall k | 0 <= k < |r.value|
        ensures r.value[k].ExtremumAt? && -10.0 <= r.value[k].x <= 10.0
      {
        assert Kept(points)[k] in Kept(points);
      }
    }
  }

  /** What the extrema section says: when the critical points are found and
      every kept point can be evaluated, one line per kept point in solver
      order, with its type from f'' and its coordinates, or "not found" when no
      point is kept; a raising classification only makes that line's type
      undetermined. */
  lemma ExtremaSection<E>(cas: Cas<E>, e: E)
    requires CriticalPoints(cas.diff, cas.solve, e).Ok?
    ensures var points := CriticalPoints(cas.diff, cas.solve, e).value;
      var body := ExtremaBody(cas, e);
      && (body == [ExtremaFailed] <==>
            exists k :: 0 <= k < |points| && InWindow(points[k]) && cas.valueAt(e, points[k]).Err?)
      && (body == [NoExtremaFound] <==> body != [ExtremaFailed] && Kept(points) == [])
      && (body != [ExtremaFailed] && body != [NoExtremaFound] ==>
            |body| == |Kept(points)|
            && forall k :: 0 <= k < |body| ==>
                 var q := Kept(points)[k];
                 body[k] == ExtremumAt(Classify(cas.diff2, cas.signAt, e, q), q.approx, cas.valueAt(e, q).value)
                 && -10.0 <= body[k].x <= 10.0)
  {
    var points := CriticalPoints(cas.diff, cas.solve, e).value;
    var kinds, values := GuardedKinds(cas.diff2, cas.signAt, e), Values(cas.valueAt, e);
    var r := ExtremaOf(kinds, values, points);
    if r.Ok? && r.value != [] {
      assert r.value[0].ExtremumAt?;
      ExtremaInWindow(kinds, values, points);
    }
  }

  // ---------------------------------------------------------------- report

  /** The lines printed under each header. */
  function Body<E>(s: Section, cas: Cas<E>, e: E): seq<Msg> {
    match s
    case Heading => []
    case Function => [FunctionIs(cas.show(e))]
    case Domain => DomainBody(cas, e)
    case Intercepts => InterceptsBody(cas, e)
    case Symmetry => SymmetryBody(cas, e)
    case LimitsAtInfinity => InfinityLimitsBody(cas, e)
    case LimitsAtDiscontinuities => DiscontinuityLimitsBody(cas, e)
    case Derivative => DerivativeBody(cas, e)
    case SecondDerivative => SecondDerivativeBody(cas, e)
    case Integral => IntegralBody(cas, e)
    case DefiniteIntegral => DefiniteIntegralBody(cas, e)
    case Extrema => ExtremaBody(cas, e)
  }

  /** The lines of every section, in header order. */
  function Bodies<E>(cas: Cas<E>, e: E): (b: seq<seq<Msg>>)
    ensures |b| == |SectionOrder|
  {
    seq(|SectionOrder|, i requires 0 <= i < |SectionOrder| => Body(SectionOrder[i], cas, e))
  }

  /** The sections whose lines are built by their own procedure. */
  lemma ComputedBodies<E>(cas: Cas<E>, e: E)
    ensures Body(Domain, cas, e) == DomainBody(cas, e)
    ensures Body(LimitsAtDiscontinuities, cas, e) == DiscontinuityLimitsBody(cas, e)
    ensures Body(Extrema, cas, e) == ExtremaBody(cas, e)
  {
  }

  /** `analyze_function(text)`: a report, or the `ValueError` raised when the
      text does not parse, carrying the parser's message. Parsing is the only
      failure that escapes. */
  function Analysis<E>(cas: Cas<E>, text: string): (r: Result<seq<Part>>)
    ensures r.Err? <==> cas.sympify(text).Err?
    ensures r.Err? ==> r.message == cas.sympify(text).message
    ensures r.Ok? ==> Tags(r.value) == SectionOrder
  {
    match cas.sympify(text)
    case Err(m) => Err(m)
    case Ok(e) => Ok(Layout(SectionOrder, Bodies(cas, e)))
  }

  /** Whatever the oracles answer, a parsed function gets every header, in the
      fixed order, each followed by its own section's lines. */
  lemma SectionsInOrder<E>(cas: Cas<E>, text: string)
    requires cas.sympify(text).Ok?
    ensures var report := Analysis(cas, text).value;
      && Tags(report) == SectionOrder
      && forall i :: 0 <= i < |report| ==> report[i].body == Body(report[i].tag, cas, cas.sympify(text).value)
  {
    var e := cas.sympify(text).value;
    var report := Analysis(cas, text).value;
    forall i | 0 <= i < |report|
      ensures report[i].body == Body(report[i].tag, cas, e)
    {
      assert report[i].tag == SectionOrder[i] && report[i].body == Bodies(cas, e)[i];
    }
  }

  /** The oracles each section calls. */
  function Uses(s: Section): set<Oracle> {
    match s
    case Heading => {}
    case Function => {}
    case Domain => {ContinuousDomain} + DiscontinuityOracles
    case Intercepts => {AtZero, Solve}
    case Symmetry => {IsEven, IsOdd}
    case LimitsAtInfinity => {Limit}
    case LimitsAtDiscontinuities => {Limit} + DiscontinuityOracles
    case Derivative => {Diff}
    case SecondDerivative => {Diff2}
    case Integral => {Integrate}
    case DefiniteIntegral => {IntegrateOver}
    case Extrema => {Diff, Solve, Diff2, SignAt, ValueAt}
  }

  const DiscontinuityOracles: set<Oracle> :=
    {IsRationalFunction, Denominator, Solve, LogArguments, SolveNonPositive, Powers, SolveNegative}

  lemma DiscontinuitiesUnbroken<E>(cas: Cas<E>, e: E, o: Oracle)
    requires o !in DiscontinuityOracles
    ensures Discontinuities(Break(cas, o), e) == Discontinuities(cas, e)
  {
  }

  /** An oracle that raises on every input changes only the sections that call it. */
  lemma BrokenOracleIsLocal<E>(s: Section, cas: Cas<E>, e: E, o: Oracle)
    requires o !in Uses(s)
    ensures Body(s, Break(cas, o), e) == Body(s, cas, e)
  {
    if s in {Domain, LimitsAtDiscontinuities} {
      DiscontinuitySectionsUnbroken(s, cas, e, o);
    } else if s in {Intercepts, Symmetry, LimitsAtInfinity} {
      EarlySectionsUnbroken(s, cas, e, o);
    } else if s in {Derivative, SecondDerivative, Integral, DefiniteIntegral} {
      CalculusSectionsUnbroken(s, cas, e, o);
    } else if s == Extrema {
      ExtremaUnbroken(cas, e, o);
    }
  }

  /** The sections that consult the discontinuity checks. */
  lemma DiscontinuitySectionsUnbroken<E>(s: Section, cas: Cas<E>, e: E, o: Oracle)
    requires s in {Domain, LimitsAtDiscontinuities} && o !in Uses(s)
    ensures Body(s, Break(cas, o), e) == Body(s, cas, e)
  {
    if o !in DiscontinuityOracles {
      DiscontinuitiesUnbroken(cas, e, o);
    }
  }

  /** The intercepts, the symmetry and the limits at infinity. */
  lemma EarlySectionsUnbroken<E>(s: Section, cas: Cas<E>, e: E, o: Oracle)
    requires s in {Intercepts, Symmetry, LimitsAtInfinity} && o !in Uses(s)
    ensures Body(s, Break(cas, o), e) == Body(s, cas, e)
  {
    var broken := Break(cas, o);
    if s == Intercepts {
      assert broken.atZero == cas.atZero && broken.solve == cas.solve;
    } else if s == Symmetry {
      assert broken.isEven == cas.isEven && broken.isOdd == cas.isOdd;
    } else {
      assert broken.limit == cas.limit;
    }
  }

  /** The derivatives and the integrals. */
  lemma CalculusSectionsUnbroken<E>(s: Section, cas: Cas<E>, e: E, o: Oracle)
    requires s in {Derivative, SecondDerivative, Integral, DefiniteIntegral} && o !in Uses(s)
    ensures Body(s, Break(cas, o), e) == Body(s, cas, e)
  {
  }

  /** The extrema: only its five oracles matter. */
  lemma ExtremaUnbroken<E>(cas: Cas<E>, e: E, o: Oracle)
    requires o !in Uses(Extrema)
    ensures ExtremaBody(Break(cas, o), e) == ExtremaBody(cas, e)
  {
    var broken := Break(cas, o);
    assert broken.diff == cas.diff && broken.solve == cas.solve;
    assert broken.diff2 == cas.diff2 && broken.signAt == cas.signAt && broken.valueAt == cas.valueAt;
  }

  /** The same, for the whole report: parsing is unaffected, and every section
      not calling the broken oracle is unchanged. */
  lemma BrokenOracleLeavesOtherSections<E>(cas: Cas<E>, text: string, o: Oracle)
    ensures Analysis(Break(cas, o), text).Ok? <==> Analysis(cas, text).Ok?
    ensures Analysis(cas, text).Ok? ==>
      forall i :: 0 <= i < |SectionOrder| && o !in Uses(SectionOrder[i]) ==>
        Analysis(Break(cas, o), text).value[i] == Analysis(cas, text).value[i]
  {
    if cas.sympify(text).Ok? {
      var e := cas.sympify(text).value;
      SectionsInOrder(cas, text);
      SectionsInOrder(Break(cas, o), text);
      forall i | 0 <= i < |SectionOrder| && o !in Uses(SectionOrder[i])
        ensures Analysis(Break(cas, o), text).value[i] == Analysis(cas, text).value[i]
      {
        BrokenOracleIsLocal(SectionOrder[i], cas, e, o);
      }
    }
  }

  /** A section whose own computation raises shows its fallback line. */
  lemma BrokenDomainFallsBack<E>(cas: Cas<E>, e: E)
    ensures DomainBody(Break(cas, ContinuousDomain), e) == [DomainFailed(BrokenMessage)]
  {
  }

  lemma BrokenInterceptFallsBack<E>(cas: Cas<E>, e: E)
    ensures InterceptsBody(Break(cas, AtZero), e) == [YInterceptFailed, XInterceptsLine(cas.solve, e)]
    ensures InterceptsBody(Break(cas, Solve), e) == [YInterceptLine(cas.atZero, e), XInterceptsFailed]
  {
  }

  lemma BrokenSymmetryFallsBack<E>(cas: Cas<E>, e: E)
    ensures SymmetryBody(Break(cas, IsEven), e) == [SymmetryFailed]
  {
  }

  lemma BrokenLimitsFallBack<E>(cas: Cas<E>, e: E)
    ensures InfinityLimitsBody(Break(cas, Limit), e) == [InfinityLimitsFailed]
  {
  }

  lemma BrokenDerivativeFallsBack<E>(cas: Cas<E>, e: E)
    ensures DerivativeBody(Break(cas, Diff), e) == [DerivativeFailed]
    ensures ExtremaBody(Break(cas, Diff), e) == [ExtremaFailed]
  {
  }

  lemma BrokenIntegralsFallBack<E>(cas: Cas<E>, e: E)
    ensures SecondDerivativeBody(Break(cas, Diff2), e) == [SecondDerivativeFailed]
    ensures IntegralBody(Break(cas, Integrate), e) == [IntegralFailed]
    ensures DefiniteIntegralBody(Break(cas, IntegrateOver), e) == [DefiniteIntegralFailed]
  {
  }

  /** With `limit` raising, every discontinuity still gets its own line: its
      fallback line. */
  lemma BrokenLimitKeepsOneLinePerPoint<E>(cas: Cas<E>, e: E)
    ensures var points := Discontinuities(cas, e);
      var body := DiscontinuityLimitsBody(Break(cas, Limit), e);
      |body| == |points| && forall k :: 0 <= k < |points| ==> body[k] == PointLimitsFailed(points[k])
  {
    DiscontinuitiesUnbroken(cas, e, Limit);
    BrokenLimitFailsEveryPoint(cas, e, Discontinuities(cas, e));
  }

  lemma BrokenLimitFailsEveryPoint<E>(cas: Cas<E>, e: E, points: seq<string>)
    ensures var broken := Break(cas, Limit);
      forall k :: 0 <= k < |points| ==>
        PointLimitsOf(broken.sympify, broken.limit, e, points)[k] == PointLimitsFailed(points[k])
  {
    var broken := Break(cas, Limit);
    var body := PointLimitsOf(broken.sympify, broken.limit, e, points);
    forall k | 0 <= k < |points|
      ensures body[k] == PointLimitsFailed(points[k])
    {
      PointLimitsAt(broken.sympify, broken.limit, e, points, k);
    }
  }

  /** With f'' unavailable the extrema are still listed, each of undetermined type. */
  lemma BrokenSecondDerivativeLeavesTypesUndetermined<E>(cas: Cas<E>, e: E)
    ensures forall m :: m in ExtremaBody(Break(cas, Diff2), e) && m.ExtremumAt? ==> m.kind == Undetermined
  {
    var broken := Break(cas, Diff2);
    if CriticalPoints(broken.diff, broken.solve, e).Ok? {
      var points := CriticalPoints(broken.diff, broken.solve, e).value;
      var r := ExtremaOf(GuardedKinds(broken.diff2, broken.signAt, e), Values(broken.valueAt, e), points);
      if r.Ok? {
        forall m | m in r.value && m.ExtremumAt?
          ensures m.kind == Undetermined
        {
          var k :| 0 <= k < |r.value| && r.value[k] == m;
          var q := Kept(points)[k];
          assert m.kind == Classify(broken.diff2, broken.signAt, e, q);
        }
      }
    }
  }

  // ---------------------------------------------------------- the procedure

  /** The domain section as the procedure computes it. */
  method DomainSection<E>(cas: Cas<E>, e: E) returns (body: seq<Msg>)
    ensures body == DomainBody(cas, e)
  {
    var domain := cas.continuousDomain(e);
    if domain.Err? {
      return [DomainFailed(domain.message)];
    }
    if domain.value.isAllReals {
      body := [DefinedForAllReals];
    } else {
      var points := FindDiscontinuities(cas, e);
      if points != [] {
        body := [UndefinedAt(points), DomainIs(domain.value.text)];
      } else {
        body := [DomainIs(domain.value.text)];
      }
    }
  }

  /** The limits-at-discontinuities section: the points, then one line per point. */
  method DiscontinuityLimitsSection<E>(cas: Cas<E>, e: E) returns (body: seq<Msg>)
    ensures body == DiscontinuityLimitsBody(cas, e)
  {
    var points := FindDiscontinuities(cas, e);
    body := LimitsAtPoints(cas.sympify, cas.limit, e, points);
  }

  /** The loop over the points: each point is re-parsed and its two one-sided
      limits are taken; a raising step gives that point its fallback line. */
  method LimitsAtPoints<E>(sympify: string -> Result<E>, limit: (E, Approach<E>) -> Result<string>, e: E, points: seq<string>)
    returns (body: seq<Msg>)
    ensures body == PointLimitsOf(sympify, limit, e, points)
  {
    body := [];
    for i := 0 to |points|
      invariant body == PointLimitsOf(sympify, limit, e, points[..i])
    {
      assert points[..i + 1][..i] == points[..i];
      var line: Msg;
      var v := sympify(points[i]);
      if v.Err? {
        line := PointLimitsFailed(points[i]);
      } else {
        var left := limit(e, FromLeft(v.value));
        var right := limit(e, FromRight(v.value));
        if left.Err? || right.Err? {
          line := PointLimitsFailed(points[i]);
        } else {
          line := OneSidedLimits(points[i], left.value, right.value);
        }
      }
      body := body + [line];
    }
    assert points[..|points|] == points;
  }

  /** The extrema section: the critical points, then the loop over them; an
      exception anywhere abandons the section. */
  method ExtremaSectionOf<E>(cas: Cas<E>, e: E) returns (body: seq<Msg>)
    ensures body == ExtremaBody(cas, e)
  {
    var derivative := cas.diff(e);
    if derivative.Err? {
      return [ExtremaFailed];
    }
    var critical := cas.solve(derivative.value);
    if critical.Err? {
      return [ExtremaFailed];
    }
    var extremums := CollectExtrema(cas, e, critical.value);
    if extremums.None? {
      return [ExtremaFailed];
    }
    if extremums.value != [] {
      body := extremums.value;
    } else {
      body := [NoExtremaFound];
    }
  }

  /** The loop over the critical points: each kept point is evaluated and
      classified; a point whose value raises ends the loop, with nothing. */
  method CollectExtrema<E>(cas: Cas<E>, e: E, points: seq<Root>) returns (r: Option<seq<Msg>>)
    ensures var spec := ExtremaOf(GuardedKinds(cas.diff2, cas.signAt, e), Values(cas.valueAt, e), points);
      (r.Some? <==> spec.Ok?) && (r.Some? ==> r.value == spec.value)
  {
    ghost var kinds, values := GuardedKinds(cas.diff2, cas.signAt, e), Values(cas.valueAt, e);
    var extremums: seq<Msg> := [];
    for i := 0 to |points|
      invariant ExtremaOf(kinds, values, points[..i]) == Ok(extremums)
    {
      assert points[..i + 1][..i] == points[..i];
      var point := points[i];
      if point.isReal && -10.0 <= point.approx <= 10.0 {
        var y := cas.valueAt(e, point);
        var kind := Classify(cas.diff2, cas.signAt, e, point);
        if y.Err? {
          ExtremaFailAt(kinds, values, points, i);
          return None;
        }
        extremums := extremums + [ExtremumAt(kind, point.approx, y.value)];
      }
    }
    assert points[..|points|] == points;
    r := Some(extremums);
  }

  /** `analyze_function`: parse, then append the sections one after another. */
  method AnalyzeFunction<E>(cas: Cas<E>, text: string) returns (r: Result<seq<Part>>)
    ensures r == Analysis(cas, text)
  {
    var parsed := cas.sympify(text);
    if parsed.Err? {
      return Err(parsed.message);
    }
    var e := parsed.value;
    ComputedBodies(cas, e);
    var report := [Part(Heading, [])];
    report := report + [Part(Function, [FunctionIs(cas.show(e))])];
    var domain := DomainSection(cas, e);
    report := report + [Part(Domain, domain)];
    report := report + [Part(Intercepts, Body(Intercepts, cas, e))];
    report := report + [Part(Symmetry, Body(Symmetry, cas, e))];
    report := report + [Part(LimitsAtInfinity, Body(LimitsAtInfinity, cas, e))];
    var limits := DiscontinuityLimitsSection(cas, e);
    report := report + [Part(LimitsAtDiscontinuities, limits)];
    report := report + [Part(Derivative, Body(Derivative, cas, e))];
    report := report + [Part(SecondDerivative, Body(SecondDerivative, cas, e))];
    report := report + [Part(Integral, Body(Integral, cas, e))];
    report := report + [Part(DefiniteIntegral, Body(DefiniteIntegral, cas, e))];
    var extrema := ExtremaSectionOf(cas, e);
    report := report + [Part(Extrema, extrema)];
    ghost var bodies := Bodies(cas, e);
    AppendedInOrder(bodies);
    r := Ok(report);
  }
}
