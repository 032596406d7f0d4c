/** `AnalysisModule.find_discontinuities` of the current analysis: three
    independent checks (zero denominators, logarithm domains, even roots), each
    guarded on its own, whose real points are merged without duplicates. */
module DiscontinuityChecks {
  import opened Wrappers
  import opened SymbolicOracle

  predicate NoDuplicates<T(==)>(s: seq<T>) {
    forall i, j :: 0 <= i < j < |s| ==> s[i] != s[j]
  }

  /** The printed forms of the roots sympy calls real, in solver order. */
  function RealTexts(roots: seq<Root>): (r: seq<string>)
    ensures |r| <= |roots|
    ensures forall t :: t in r <==> exists root :: root in roots && root.isReal && root.text == t
    ensures r == [] <==> forall root :: root in roots ==> !root.isReal
    decreases |roots|
  {
    if roots == [] then []
    else
      var init, last := roots[..|roots| - 1], roots[|roots| - 1];
      assert roots == init + [last];
      RealTexts(init) + (if last.isReal then [last.text] else [])
  }

  /** `for root in roots: if root.is_real: found.append(str(root))` */
  method AppendRealRoots(found: seq<string>, roots: seq<Root>) returns (r: seq<string>)
    ensures r == found + RealTexts(roots)
  {
    r := found;
    for i := 0 to |roots|
      invariant r == found + RealTexts(roots[..i])
    {
      assert roots[..i + 1][..i] == roots[..i];
      if roots[i].isReal {
        r := r + [roots[i].text];
      }
    }
    assert roots[..|roots|] == roots;
  }

  /** Zero-denominator check: only for a rational function; the real roots of
      its denominator. Any exception drops the whole check. */
  function DenominatorPoints<E>(cas: Cas<E>, e: E): (r: seq<string>)
    ensures cas.isRationalFunction(e) != Ok(true) ==> r == []
    ensures r != [] ==> cas.denominator(e).Ok? && cas.solve(cas.denominator(e).value).Ok?
    ensures forall t :: t in r <==>
      && cas.isRationalFunction(e) == Ok(true)
      && cas.denominator(e).Ok?
      && cas.solve(cas.denominator(e).value).Ok?
      && t in RealTexts(cas.solve(cas.denominator(e).value).value)
  {
    if cas.isRationalFunction(e) != Ok(true) then []
    else match cas.denominator(e)
      case Err(_) => []
      case Ok(d) =>
        match cas.solve(d)
        case Err(_) => []
        case Ok(roots) => RealTexts(roots)
  }

  /** Logarithm check over the given log arguments: for each, the real points
      of `solve(arg <= 0)`; an argument whose solve raises adds nothing. */
  function LogPointsOf<E>(solveNonPositive: E -> Result<seq<Root>>, args: seq<E>): (r: seq<string>)
    ensures forall t :: t in r <==>
      exists k :: 0 <= k < |args| && solveNonPositive(args[k]).Ok?
                  && t in RealTexts(solveNonPositive(args[k]).value)
    decreases |args|
  {
    if args == [] then []
    else
      var init, last := args[..|args| - 1], args[|args| - 1];
      var here := match solveNonPositive(last) case Ok(pts) => RealTexts(pts) case Err(_) => [];
      assert forall k :: 0 <= k < |init| ==> init[k] == args[k];
      LogPointsOf(solveNonPositive, init) + here
  }

  /** The logarithm check of the whole expression: nothing when its log
      arguments cannot be collected; otherwise the real points where some
      argument is not positive. */
  function LogPoints<E>(cas: Cas<E>, e: E): (r: seq<string>)
    ensures cas.logArguments(e).Err? ==> r == []
    ensures forall t :: t in r <==>
      && cas.logArguments(e).Ok?
      && exists k :: 0 <= k < |cas.logArguments(e).value|
           && cas.solveNonPositive(cas.logArguments(e).value[k]).Ok?
           && t in RealTexts(cas.solveNonPositive(cas.logArguments(e).value[k]).value)
  {
    match cas.logArguments(e)
    case Err(_) => []
    case Ok(args) => LogPointsOf(cas.solveNonPositive, args)
  }

  /** A power `base ** (p/q)` with a non-integer rational exponent, q even and
      p odd: its base must not be negative. */
  predicate IsEvenRoot(x: Exponent) {
    x.Rational? && x.q != 1 && x.q % 2 == 0 && x.p % 2 != 0
  }

  /** Even-root check over the given powers: for each even root, the real
      points of `solve(base < 0)`; any other power adds nothing, nor does a
      power whose solve raises. */
  function RootPointsOf<E>(solveNegative: E -> Result<seq<Root>>, powers: seq<(E, Exponent)>): (r: seq<string>)
    ensures forall t :: t in r <==>
      exists k :: 0 <= k < |powers| && IsEvenRoot(powers[k].1) && solveNegative(powers[k].0).Ok?
                  && t in RealTexts(solveNegative(powers[k].0).value)
    decreases |powers|
  {
    if powers == [] then []
    else
      var init, last := powers[..|powers| - 1], powers[|powers| - 1];
      var here :=
        if !IsEvenRoot(last.1) then []
        else match solveNegative(last.0) case Ok(pts) => RealTexts(pts) case Err(_) => [];
      assert forall k :: 0 <= k < |init| ==> init[k] == powers[k];
      RootPointsOf(solveNegative, init) + here
  }

  /** The even-root check of the whole expression: nothing when its powers
      cannot be collected; otherwise the real points where the base of some
      even root is negative. */
  function RootPoints<E>(cas: Cas<E>, e: E): (r: seq<string>)
    ensures cas.powers(e).Err? ==> r == []
    ensures forall t :: t in r <==>
      && cas.powers(e).Ok?
      && exists k :: 0 <= k < |cas.powers(e).value|
           && IsEvenRoot(cas.powers(e).value[k].1)
           && cas.solveNegative(cas.powers(e).value[k].0).Ok?
           && t in RealTexts(cas.solveNegative(cas.powers(e).value[k].0).value)
  {
    match cas.powers(e)
    case Err(_) => []
    case Ok(powers) => RootPointsOf(cas.solveNegative, powers)
  }

  /** The entries of `s` without repetitions (`list(set(s))`; this model keeps
      first occurrences in order, where Python's order is that of the set). */
  function Dedup(s: seq<string>): (r: seq<string>)
    ensures forall t :: t in r <==> t in s
    ensures NoDuplicates(r)
    decreases |s|
  {
    if s == [] then []
    else
      var init, last := s[..|s| - 1], s[|s| - 1];
      assert s == init + [last];
      var d := Dedup(init);
      if last in init then d else d + [last]
  }

  /** The result of `find_discontinuities`. */
  function Discontinuities<E>(cas: Cas<E>, e: E): (r: seq<string>)
    ensures NoDuplicates(r)
    ensures forall t :: t in r <==>
      t in DenominatorPoints(cas, e) || t in LogPoints(cas, e) || t in RootPoints(cas, e)
  {
    Dedup(DenominatorPoints(cas, e) + LogPoints(cas, e) + RootPoints(cas, e))
  }

  /** The zero-denominator block of `find_discontinuities`, appending to `found`. */
  method CheckDenominator<E>(cas: Cas<E>, e: E, found: seq<string>) returns (r: seq<string>)
    ensures r == found + DenominatorPoints(cas, e)
  {
    r := found;
    if cas.isRationalFunction(e) == Ok(true) {
      var denominator := cas.denominator(e);
      if denominator.Ok? {
        var roots := cas.solve(denominator.value);
        if roots.Ok? {
          r := AppendRealRoots(r, roots.value);
        }
      }
    }
  }

  /** The logarithm block of `find_discontinuities`, appending to `found`. */
  method CheckLogarithms<E>(cas: Cas<E>, e: E, found: seq<string>) returns (r: seq<string>)
    ensures r == found + LogPoints(cas, e)
  {
    r := found;
    var logs := cas.logArguments(e);
    if logs.Ok? {
      r := CheckLogArguments(cas.solveNonPositive, logs.value, found);
    } else {
      assert r == found + [];
    }
  }

  /** The loop over the logarithms' arguments. */
  method CheckLogArguments<E>(solveNonPositive: E -> Result<seq<Root>>, args: seq<E>, found: seq<string>) returns (r: seq<string>)
    ensures r == found + LogPointsOf(solveNonPositive, args)
  {
    r := found;
    for i := 0 to |args|
      invariant r == found + LogPointsOf(solveNonPositive, args[..i])
    {
      assert args[..i + 1][..i] == args[..i];
      var critical := solveNonPositive(args[i]);
      if critical.Ok? {
        r := AppendRealRoots(r, critical.value);
      }
    }
    assert args[..|args|] == args;
  }

  /** The even-root block of `find_discontinuities`, appending to `found`. */
  method CheckEvenRoots<E>(cas: Cas<E>, e: E, found: seq<string>) returns (r: seq<string>)
    ensures r == found + RootPoints(cas, e)
  {
    r := found;
    var pows := cas.powers(e);
    if pows.Ok? {
      r := CheckPowers(cas.solveNegative, pows.value, found);
    } else {
      assert r == found + [];
    }
  }

  /** The loop over the powers. */
  method CheckPowers<E>(solveNegative: E -> Result<seq<Root>>, powers: seq<(E, Exponent)>, found: seq<string>) returns (r: seq<string>)
    ensures r == found + RootPointsOf(solveNegative, powers)
  {
    r := found;
    for i := 0 to |powers|
      invariant r == found + RootPointsOf(solveNegative, powers[..i])
    {
      assert powers[..i + 1][..i] == powers[..i];
      var (base, exponent) := powers[i];
      if IsEvenRoot(exponent) {
        var critical := solveNegative(base);
        if critical.Ok? {
          r := AppendRealRoots(r, critical.value);
        }
      }
    }
    assert powers[..|powers|] == powers;
  }

  method FindDiscontinuities<E>(cas: Cas<E>, e: E) returns (points: seq<string>)
    ensures points == Discontinuities(cas, e)
  {
    ghost var denominators, logs, roots := DenominatorPoints(cas, e), LogPoints(cas, e), RootPoints(cas, e);
    var found: seq<string> := [];
    found := CheckDenominator(cas, e, found);
    assert found == denominators;
    found := CheckLogarithms(cas, e, found);
    found := CheckEvenRoots(cas, e, found);
    assert found == denominators + logs + roots;
    points := Dedup(found);
  }

  lemma {:induction false} LogPointsOfAllFail<E>(solveNonPositive: E -> Result<seq<Root>>, args: seq<E>)
    requires forall a :: solveNonPositive(a).Err?
    ensures LogPointsOf(solveNonPositive, args) == []
  {
    if args != [] {
      LogPointsOfAllFail(solveNonPositive, args[..|args| - 1]);
    }
  }

  lemma {:induction false} RootPointsOfAllFail<E>(solveNegative: E -> Result<seq<Root>>, powers: seq<(E, Exponent)>)
    requires forall a :: solveNegative(a).Err?
    ensures RootPointsOf(solveNegative, powers) == []
  {
    if powers != [] {
      RootPointsOfAllFail(solveNegative, powers[..|powers| - 1]);
    }
  }

  /** An oracle that raises costs only the points of the check that calls it;
      the other two checks contribute exactly what they did before. */
  lemma BrokenCheckLosesOnlyItsPoints<E>(cas: Cas<E>, e: E, o: Oracle)
    ensures var broken := Break(cas, o);
      && (o in {IsRationalFunction, Denominator, Solve} ==>
            DenominatorPoints(broken, e) == []
            && LogPoints(broken, e) == LogPoints(cas, e)
            && RootPoints(broken, e) == RootPoints(cas, e))
      && (o in {LogArguments, SolveNonPositive} ==>
            DenominatorPoints(broken, e) == DenominatorPoints(cas, e)
            && LogPoints(broken, e) == []
            && RootPoints(broken, e) == RootPoints(cas, e))
      && (o in {Powers, SolveNegative} ==>
            DenominatorPoints(broken, e) == DenominatorPoints(cas, e)
            && LogPoints(broken, e) == LogPoints(cas, e)
            && RootPoints(broken, e) == [])
  {
    var broken := Break(cas, o);
    if o == SolveNonPositive && cas.logArguments(e).Ok? {
      LogPointsOfAllFail(broken.solveNonPositive, cas.logArguments(e).value);
    }
    if o == SolveNegative && cas.powers(e).Ok? {
      RootPointsOfAllFail(broken.solveNegative, cas.powers(e).value);
    }
  }
}
