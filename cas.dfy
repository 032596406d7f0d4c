/** The computer-algebra calls the analysis makes, as oracles.

    The calculator delegates all calculus to sympy. The model does not build a
    computer-algebra system: each sympy call it makes is a field of `Cas`, a total
    function from its inputs to `Ok(answer)` or `Err(message)` (the exception it
    raised). `E` stands for sympy's expression objects and is never inspected;
    what the analysis reads from an answer (a printed form, `is_real`,
    `is_finite`, `float(...)`) is spelled out in the small datatypes below. */
module SymbolicOracle {
  import opened Wrappers

  /** One solution returned by `solve`: its printed form `str(root)`, whether
      sympy calls it real (`root.is_real`; an unknown answer counts as false),
      and `float(root)`, which is only consulted for real roots. */
  datatype Root = Root(text: string, isReal: bool, approx: real)

  /** The answer of `continuous_domain(expr, x, S.Reals)`: whether it equals
      `S.Reals`, and its printed form. */
  datatype DomainSet = DomainSet(isAllReals: bool, text: string)

  /** `expr.subs(x, 0)`: whether `is_finite` holds, and its printed form. */
  datatype Value = Value(isFinite: bool, text: string)

  /** A number compared with zero: `> 0` holds, `< 0` holds, or neither. */
  datatype Sign = Positive | Negative | Neither

  /** The exponent of a power: `exp.is_rational` with `exp.as_numer_denom()`
      equal to `(p, q)` (sympy keeps rationals in lowest terms with q >= 1, so
      `exp.is_integer` is `q == 1`), or an exponent that is not rational. */
  datatype Exponent = Rational(p: int, q: int) | NotRational

  /** Where `limit` is taken: at +oo, at -oo, or at a point from one side. */
  datatype Approach<E> = PlusInfinity | MinusInfinity | FromLeft(point: E) | FromRight(point: E)

  /** An immediate argument of an expression, as the older analysis inspects
      it: a power (with whether its exponent `is_negative`), a `log`, or other. */
  datatype Term<E> = PowerTerm(base: E, negativeExponent: bool) | LogTerm(argument: E) | OtherTerm

  datatype Cas<!E> = Cas(
    /** `sympify(text)` */
    sympify: string -> Result<E>,
    /** `str(expr)` */
    show: E -> string,
    /** `continuous_domain(expr, x, S.Reals)` */
    continuousDomain: E -> Result<DomainSet>,
    /** `expr.is_rational_function(x)` */
    isRationalFunction: E -> Result<bool>,
    /** `expr.as_numer_denom()[1]` */
    denominator: E -> Result<E>,
    /** `solve(expr, x)`: the roots of expr = 0, in solver order */
    solve: E -> Result<seq<Root>>,
    /** the arguments of `expr.atoms(log)`, in iteration order */
    logArguments: E -> Result<seq<E>>,
    /** `solve(arg <= 0, x)`, iterated */
    solveNonPositive: E -> Result<seq<Root>>,
    /** `power.as_base_exp()` for every power in `expr.atoms(Pow)` */
    powers: E -> Result<seq<(E, Exponent)>>,
    /** `solve(base < 0, x)`, iterated */
    solveNegative: E -> Result<seq<Root>>,
    /** `expr.subs(x, 0)` */
    atZero: E -> Result<Value>,
    /** `simplify(expr - expr.subs(x, -x)) == 0` */
    isEven: E -> Result<bool>,
    /** `simplify(expr + expr.subs(x, -x)) == 0` */
    isOdd: E -> Result<bool>,
    /** `str(limit(expr, x, ...))` */
    limit: (E, Approach<E>) -> Result<string>,
    /** `diff(expr, x)` */
    diff: E -> Result<E>,
    /** `diff(expr, x, 2)` */
    diff2: E -> Result<E>,
    /** `integrate(expr, x)` */
    integrate: E -> Result<E>,
    /** `str(integrate(expr, (x, -5, 5)))` */
    integrateOver: E -> Result<string>,
    /** `expr.subs(x, point)` compared with 0 */
    signAt: (E, Root) -> Result<Sign>,
    /** `float(expr.subs(x, point))` */
    valueAt: (E, Root) -> Result<real>,
    /** `expr.has(Pow)` */
    hasPower: E -> bool,
    /** `expr.has(log)` */
    hasLog: E -> bool,
    /** `expr.args`, each classified as the older analysis does */
    arguments: E -> seq<Term<E>>,
    /** `solve_univariate_inequality(arg > 0, x, relational=False)`, printed */
    positiveSet: E -> Result<string>
  )

  /** The oracles that can raise. */
  datatype Oracle =
    | ContinuousDomain | IsRationalFunction | Denominator | Solve | LogArguments
    | SolveNonPositive | Powers | SolveNegative | AtZero | IsEven | IsOdd | Limit
    | Diff | Diff2 | Integrate | IntegrateOver | SignAt | ValueAt | PositiveSet

  const BrokenMessage: string := "oracle raised"

  /** `cas` with oracle `o` replaced by one that raises on every input; every
      other oracle is kept. */
  function Break<E>(cas: Cas<E>, o: Oracle): Cas<E> {
    Cas(
      cas.sympify,
      cas.show,
      if o == ContinuousDomain then (e: E) => Err(BrokenMessage) else cas.continuousDomain,
      if o == IsRationalFunction then (e: E) => Err(BrokenMessage) else cas.isRationalFunction,
      if o == Denominator then (e: E) => Err(BrokenMessage) else cas.denominator,
      if o == Solve then (e: E) => Err(BrokenMessage) else cas.solve,
      if o == LogArguments then (e: E) => Err(BrokenMessage) else cas.logArguments,
      if o == SolveNonPositive then (e: E) => Err(BrokenMessage) else cas.solveNonPositive,
      if o == Powers then (e: E) => Err(BrokenMessage) else cas.powers,
      if o == SolveNegative then (e: E) => Err(BrokenMessage) else cas.solveNegative,
      if o == AtZero then (e: E) => Err(BrokenMessage) else cas.atZero,
      if o == IsEven then (e: E) => Err(BrokenMessage) else cas.isEven,
      if o == IsOdd then (e: E) => Err(BrokenMessage) else cas.isOdd,
      if o == Limit then (e: E, a: Approach<E>) => Err(BrokenMessage) else cas.limit,
      if o == Diff then (e: E) => Err(BrokenMessage) else cas.diff,
      if o == Diff2 then (e: E) => Err(BrokenMessage) else cas.diff2,
      if o == Integrate then (e: E) => Err(BrokenMessage) else cas.integrate,
      if o == IntegrateOver then (e: E) => Err(BrokenMessage) else cas.integrateOver,
      if o == SignAt then (e: E, p: Root) => Err(BrokenMessage) else cas.signAt,
      if o == ValueAt then (e: E, p: Root) => Err(BrokenMessage) else cas.valueAt,
      cas.hasPower,
      cas.hasLog,
      cas.arguments,
      if o == PositiveSet then (e: E) => Err(BrokenMessage) else cas.positiveSet)
  }
}
