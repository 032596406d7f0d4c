/** The analysis report: an ordered sequence of sections, each a header tag and
    the lines printed under it. The Russian wording is replaced by tags; every
    value the report prints (a printed sympy object, a number) is kept. */
module Report {

  datatype Section =
    | Heading | Function | Domain | Intercepts | Symmetry | LimitsAtInfinity
    | LimitsAtDiscontinuities | Derivative | SecondDerivative | Integral
    | DefiniteIntegral | Extrema

  /** How an extremum is classified from the sign of f'' at the point. */
  datatype Kind = Minimum | Maximum | Inflection | Undetermined

  /** One domain restriction found by the older analysis. */
  datatype Restriction =
    | NotEqual(root: string)        // "x ≠ <root>"
    | LogSolution(solution: string) // "Для log: <solution set>"
    | LogArgumentPositive           // "the argument of log must be > 0"

  datatype Msg =
    | FunctionIs(expr: string)
    | DefinedForAllReals
    | UndefinedAt(points: seq<string>)
    | DomainIs(domain: string)
    | DomainFailed(error: string)
    | Restrictions(items: set<Restriction>)
    | YIntercept(value: string)
    | YUndefinedAtZero
    | YInterceptFailed
    | XIntercepts(roots: seq<string>)
    | NoRealRoots
    | XInterceptsFailed
    | Even
    | Odd
    | General
    | SymmetryFailed
    | LimitAtPlusInfinity(value: string)
    | LimitAtMinusInfinity(value: string)
    | InfinityLimitsFailed
    | OneSidedLimits(point: string, left: string, right: string)
    | PointLimitsFailed(point: string)
    | FirstDerivativeIs(expr: string)
    | DerivativeFailed
    | SecondDerivativeIs(expr: string)
    | SecondDerivativeFailed
    | AntiderivativeIs(expr: string)   // printed with " + C"
    | IntegralFailed
    | DefiniteIntegralIs(value: string)
    | DefiniteIntegralFailed
    | ExtremumAt(kind: Kind, x: real, y: real)
    | NoExtremaFound
    | ExtremaFailed

  datatype Part = Part(tag: Section, body: seq<Msg>)

  /** The headers of the current analysis, in the order they are printed. */
  const SectionOrder: seq<Section> :=
    [Heading, Function, Domain, Intercepts, Symmetry, LimitsAtInfinity,
     LimitsAtDiscontinuities, Derivative, SecondDerivative, Integral,
     DefiniteIntegral, Extrema]

  /** The headers of the older analysis: no limits at discontinuities. */
  const LegacySectionOrder: seq<Section> :=
    [Heading, Function, Domain, Intercepts, Symmetry, LimitsAtInfinity,
     Derivative, SecondDerivative, Integral, DefiniteIntegral, Extrema]

  function Tags(report: seq<Part>): (tags: seq<Section>)
    ensures |tags| == |report|
    ensures forall i :: 0 <= i < |report| ==> tags[i] == report[i].tag
  {
    seq(|report|, i requires 0 <= i < |report| => report[i].tag)
  }

  /** A report laid out from the lines of its sections, under the given headers. */
  function Layout(order: seq<Section>, bodies: seq<seq<Msg>>): (r: seq<Part>)
    requires |bodies| == |order|
    ensures Tags(r) == order
    ensures forall i :: 0 <= i < |r| ==> r[i].body == bodies[i]
  {
    seq(|order|, i requires 0 <= i < |order| => Part(order[i], bodies[i]))
  }

  /** Appending the twelve parts one after another lays them out in order. */
  lemma AppendedInOrder(b: seq<seq<Msg>>)
    requires |b| == |SectionOrder|
    ensures [Part(Heading, b[0])] + [Part(Function, b[1])] + [Part(Domain, b[2])]
      + [Part(Intercepts, b[3])] + [Part(Symmetry, b[4])] + [Part(LimitsAtInfinity, b[5])]
      + [Part(LimitsAtDiscontinuities, b[6])] + [Part(Derivative, b[7])]
      + [Part(SecondDerivative, b[8])] + [Part(Integral, b[9])]
      + [Part(DefiniteIntegral, b[10])] + [Part(Extrema, b[11])]
      == Layout(SectionOrder, b)
  {
  }

  /** The same for the eleven parts of the older analysis. */
  lemma AppendedInLegacyOrder(b: seq<seq<Msg>>)
    requires |b| == |LegacySectionOrder|
    ensures [Part(Heading, b[0])] + [Part(Function, b[1])] + [Part(Domain, b[2])]
      + [Part(Intercepts, b[3])] + [Part(Symmetry, b[4])] + [Part(LimitsAtInfinity, b[5])]
      + [Part(Derivative, b[6])] + [Part(SecondDerivative, b[7])]
      + [Part(Integral, b[8])] + [Part(DefiniteIntegral, b[9])] + [Part(Extrema, b[10])]
      == Layout(LegacySectionOrder, b)
  {
  }

  /** The older layout lacks the limits-at-discontinuities header; every header
      both have shows lines that come from the same position of the bodies. */
  lemma LayoutsAlign(older: seq<seq<Msg>>, newer: seq<seq<Msg>>, i: nat)
    requires |older| == |LegacySectionOrder| && |newer| == |SectionOrder|
    requires i < |LegacySectionOrder|
    ensures var j := if i < 6 then i else i + 1;
      Layout(LegacySectionOrder, older)[i].tag == Layout(SectionOrder, newer)[j].tag
      && (older[i] == newer[j] ==> Layout(LegacySectionOrder, older)[i] == Layout(SectionOrder, newer)[j])
  {
  }
}
