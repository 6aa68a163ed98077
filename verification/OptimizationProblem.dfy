/** Optimisation problems over named binary variables, what they mean, and the builder that compiles them. */
module OptimizationProblem {
  import opened OrderedDicts

  // ---- Names and pairs of names ----

  /** Python's order on strings: by code point, a prefix first. */
  predicate NameLe(a: string, b: string) {
    a == "" || (b != "" && (a[0] < b[0] || (a[0] == b[0] && NameLe(a[1..], b[1..]))))
  }

  lemma {:induction false} NameLeTotal(a: string, b: string)
    ensures NameLe(a, b) || NameLe(b, a)
    ensures NameLe(a, b) && NameLe(b, a) ==> a == b
  {
    if a != "" && b != "" && a[0] == b[0] {
      NameLeTotal(a[1..], b[1..]);
      assert a == [a[0]] + a[1..] && b == [b[0]] + b[1..];
    }
  }

  /** A prefix comes first; otherwise the first difference decides, by code point. */
  ghost predicate InOrder(a: string, b: string) {
    a <= b || exists k :: FirstSmaller(a, b, k)
  }

  ghost predicate FirstSmaller(a: string, b: string, k: int) {
    0 <= k < |a| && k < |b| && a[..k] == b[..k] && a[k] < b[k]
  }

  lemma {:induction false} NameLeExact(a: string, b: string)
    ensures NameLe(a, b) <==> InOrder(a, b)
  {
    if a != "" && b != "" && a[0] == b[0] {
      var s, t := a[1..], b[1..];
      NameLeExact(s, t);
      assert a == [a[0]] + s && b == [b[0]] + t;
      if exists k :: FirstSmaller(s, t, k) {
        var k :| FirstSmaller(s, t, k);
        assert a[..k + 1] == [a[0]] + s[..k] && b[..k + 1] == [b[0]] + t[..k];
        assert FirstSmaller(a, b, k + 1);
      }
      if exists k :: FirstSmaller(a, b, k) {
        var k :| FirstSmaller(a, b, k);
        assert k > 0 && s[..k - 1] == a[..k][1..] && t[..k - 1] == b[..k][1..];
        assert FirstSmaller(s, t, k - 1);
      }
    } else if a != "" && b != "" {
      assert a[0] < b[0] ==> FirstSmaller(a, b, 0);
      assert forall k :: FirstSmaller(a, b, k) && k > 0 ==> a[..k][0] == b[..k][0];
    }
  }

  type NamePair = (string, string)

  /** `tuple(sorted([a, b]))` */
  function SortedPair(a: string, b: string): NamePair {
    if NameLe(a, b) then (a, b) else (b, a)
  }

  /** The same two names, in code point order. */
  ghost predicate IsSortedPair(key: NamePair, a: string, b: string) {
    (key == (a, b) || key == (b, a)) && InOrder(key.0, key.1)
  }

  lemma SortedPairIsSorted(a: string, b: string)
    ensures IsSortedPair(SortedPair(a, b), a, b)
    ensures forall key :: IsSortedPair(key, a, b) ==> key == SortedPair(a, b)
  {
    NameLeTotal(a, b);
    NameLeExact(a, b);
    NameLeExact(b, a);
    hide NameLe, InOrder;
  }

  // ---- Problems as values ----

  datatype Objective = Objective(sense: string, linear: Coefficients<string>, quadratic: Coefficients<NamePair>)

  datatype Constraint = Constraint(sense: string, rhs: real, terms: Coefficients<string>)

  /** Keys of a penalty's terms: a name, a pair of names, or anything else, which is ignored. */
  datatype PenaltyKey = Name(name: string) | Pair(first: string, second: string) | Unsupported

  datatype Penalty = Penalty(name: string, weight: real, terms: Coefficients<PenaltyKey>)

  datatype Problem = Problem(
    variables: Dict<string, string>,
    constraints: Dict<string, Constraint>,
    objective: Objective,
    penalties: seq<Penalty>)

  // ---- What a problem means ----

  /** A 0/1 assignment, given by the variables that are 1. */
  type Assignment = set<string>

  function Bit(x: Assignment, v: string): real {
    if v in x then 1.0 else 0.0
  }

  function BitOf(x: Assignment): string -> real {
    v => Bit(x, v)
  }

  function Both(x: Assignment, u: string, v: string): real {
    Bit(x, u) * Bit(x, v)
  }

  function PairOf(x: Assignment): NamePair -> real {
    (p: NamePair) => Both(x, p.0, p.1)
  }

  function PenaltyFactor(x: Assignment): PenaltyKey -> real {
    (k: PenaltyKey) => match k
      case Name(v) => if v == "offset" then 1.0 else Bit(x, v)
      case Pair(u, v) => Both(x, u, v)
      case Unsupported => 0.0
  }

  function LinearValue(terms: Coefficients<string>, x: Assignment): real {
    Total(terms, BitOf(x))
  }

  function ObjectiveValue(o: Objective, x: Assignment): real {
    LinearValue(o.linear, x) + Total(o.quadratic, PairOf(x))
  }

  /** Any sense but "minimize" is taken as a maximisation. */
  function Sign(o: Objective): real {
    if o.sense == "minimize" then 1.0 else -1.0
  }

  function Violation(c: Constraint, x: Assignment): real {
    LinearValue(c.terms, x) - c.rhs
  }

  /** Only equality constraints count; the translator skips the others. */
  function SquaredViolation(c: Constraint, x: Assignment): real {
    if c.sense == "==" then Times(Violation(c, x), Violation(c, x)) else 0.0
  }

  function SquaredViolations(constraints: Dict<string, Constraint>, x: Assignment): real {
    if constraints == [] then 0.0
    else SquaredViolation(constraints[0].value, x) + SquaredViolations(constraints[1..], x)
  }

  function PenaltyValue(penalties: seq<Penalty>, x: Assignment): real {
    if penalties == [] then 0.0
    else Times(penalties[0].weight, Total(penalties[0].terms, PenaltyFactor(x))) + PenaltyValue(penalties[1..], x)
  }

  /** The quantity a translation with the given constraint weight has to reproduce. */
  function SourceEnergy(p: Problem, weight: real, x: Assignment): real {
    Times(Sign(p.objective), ObjectiveValue(p.objective, x))
    + Times(weight, SquaredViolations(p.constraints, x))
    + PenaltyValue(p.penalties, x)
  }

  // ---- The builder ----

  /** Adds up all given terms, one `add_term` call each. */
  function AccumulateAll<K(==)>(d: Coefficients<K>, terms: Coefficients<K>): Coefficients<K>
    decreases |terms|
  {
    if terms == [] then d
    else AccumulateAll(Accumulate(d, terms[0].key, terms[0].value), terms[1..])
  }

  lemma {:induction false} TotalAccumulateAll<K>(d: Coefficients<K>, terms: Coefficients<K>, weight: K -> real)
    ensures Total(AccumulateAll(d, terms), weight) == Total(d, weight) + Total(terms, weight)
    decreases |terms|
  {
    if terms != [] {
      hide Times;
      TotalAccumulate(d, terms[0].key, terms[0].value, weight);
      TotalAccumulateAll(Accumulate(d, terms[0].key, terms[0].value), terms[1..], weight);
    }
  }

  /** The quadratic terms under their sorted keys. */
  function SortKeys(terms: Coefficients<NamePair>): Coefficients<NamePair> {
    if terms == [] then []
    else [Item(SortedPair(terms[0].key.0, terms[0].key.1), terms[0].value)] + SortKeys(terms[1..])
  }

  lemma {:induction false} SortKeysAt(terms: Coefficients<NamePair>, i: nat)
    requires i < |terms|
    ensures |SortKeys(terms)| == |terms| && SortKeys(terms)[i].value == terms[i].value
    ensures IsSortedPair(SortKeys(terms)[i].key, terms[i].key.0, terms[i].key.1)
  {
    SortedPairIsSorted(terms[0].key.0, terms[0].key.1);
    if i > 0 {
      SortKeysAt(terms[1..], i - 1);
    } else if |terms| > 1 {
      SortKeysAt(terms[1..], 0);
    }
    hide IsSortedPair;
  }

  lemma {:induction false} SortKeysKeepsTotal(terms: Coefficients<NamePair>, x: Assignment)
    ensures Total(SortKeys(terms), PairOf(x)) == Total(terms, PairOf(x))
  {
    if terms != [] {
      SortKeysKeepsTotal(terms[1..], x);
    }
  }

  const NO_PROBLEM := Problem([], [], Objective("minimize", [], []), [])

  /** A call of one of the builder's methods. */
  datatype Call =
    | DeclareVariable(name: string, varType: string)
    | PostConstraint(name: string, terms: Coefficients<string>, sense: string, rhs: real)
    | ExtendObjective(linear: Coefficients<string>, quadratic: Coefficients<NamePair>, sense: string)
    | PostPenalty(penalty: Penalty)

  predicate AllDeclared(variables: Dict<string, string>, terms: Coefficients<string>) {
    forall i :: 0 <= i < |terms| ==> Has(variables, terms[i].key)
  }

  /** The problem after a call; a refused constraint leaves it as it was. */
  function Apply(p: Problem, call: Call): Problem {
    match call
    case DeclareVariable(name, varType) => p.(variables := Put(p.variables, name, varType))
    case PostConstraint(name, terms, sense, rhs) =>
      if !AllDeclared(p.variables, terms) then p
      else p.(constraints := Put(p.constraints, name, Constraint(sense, rhs, AccumulateAll([], terms))))
    case ExtendObjective(linear, quadratic, sense) =>
      p.(objective := Objective(sense, AccumulateAll(p.objective.linear, linear),
                                AccumulateAll(p.objective.quadratic, SortKeys(quadratic))))
    case PostPenalty(penalty) => p.(penalties := p.penalties + [penalty])
  }

  class ProblemCompiler {
    var problem: Problem

    constructor ()
      ensures problem == NO_PROBLEM
    {
      problem := NO_PROBLEM;
    }

    method AddVariable(name: string, varType: string)
      modifies this
      ensures problem == old(problem).(variables := Put(old(problem).variables, name, varType))
      ensures problem == Apply(old(problem), DeclareVariable(name, varType))
    {
      problem := problem.(variables := Put(problem.variables, name, varType));
    }

    /** Fails, and stores nothing, when a term uses an undeclared variable. */
    method AddConstraint(name: string, terms: Coefficients<string>, sense: string, rhs: real) returns (ok: bool)
      modifies this
      ensures ok <==> AllDeclared(old(problem).variables, terms)
      ensures !ok ==> problem == old(problem)
      ensures ok ==> problem == old(problem).(constraints :=
        Put(old(problem).constraints, name, Constraint(sense, rhs, AccumulateAll([], terms))))
      ensures problem == Apply(old(problem), PostConstraint(name, terms, sense, rhs))
      ensures forall x :: LinearValue(AccumulateAll([], terms), x) == LinearValue(terms, x)
    {
      forall x
        ensures LinearValue(AccumulateAll([], terms), x) == LinearValue(terms, x)
      {
        TotalAccumulateAll([], terms, BitOf(x));
      }
      var added := Constraint(sense, rhs, []);
      for i := 0 to |terms|
        invariant problem == old(problem) && added.sense == sense && added.rhs == rhs
        invariant forall j :: 0 <= j < i ==> Has(problem.variables, terms[j].key)
        invariant AccumulateAll(added.terms, terms[i..]) == AccumulateAll([], terms)
      {
        if !Has(problem.variables, terms[i].key) {
          return false;
        }
        assert terms[i..][1..] == terms[i + 1..];
        added := added.(terms := Accumulate(added.terms, terms[i].key, terms[i].value));
      }
      problem := problem.(constraints := Put(problem.constraints, name, added));
      ok := true;
    }

    /** Replaces the sense but adds the terms to those of earlier calls. */
    method SetObjective(linear: Coefficients<string>, quadratic: Coefficients<NamePair>, sense: string)
      modifies this
      ensures problem == old(problem).(objective := problem.objective) && problem.objective.sense == sense
      ensures problem == Apply(old(problem), ExtendObjective(linear, quadratic, sense))
      ensures forall x ::
        ObjectiveValue(problem.objective, x)
        == ObjectiveValue(old(problem).objective, x) + ObjectiveValue(Objective(sense, linear, quadratic), x)
      ensures problem.objective.linear == AccumulateAll(old(problem).objective.linear, linear)
      ensures problem.objective.quadratic == AccumulateAll(old(problem).objective.quadratic, SortKeys(quadratic))
    {
      ghost var before := problem.objective;
      problem := problem.(objective := problem.objective.(sense := sense));
      for i := 0 to |linear|
        invariant problem == old(problem).(objective := problem.objective)
        invariant problem.objective.sense == sense && problem.objective.quadratic == before.quadratic
        invariant AccumulateAll(problem.objective.linear, linear[i..]) == AccumulateAll(before.linear, linear)
      {
        assert linear[i..][1..] == linear[i + 1..];
        var sum := Accumulate(problem.objective.linear, linear[i].key, linear[i].value);
        problem := problem.(objective := problem.objective.(linear := sum));
      }
      for i := 0 to |quadratic|
        invariant problem == old(problem).(objective := problem.objective)
        invariant problem.objective.sense == sense
        invariant problem.objective.linear == AccumulateAll(before.linear, linear)
        invariant AccumulateAll(problem.objective.quadratic, SortKeys(quadratic[i..]))
          == AccumulateAll(before.quadratic, SortKeys(quadratic))
      {
        assert quadratic[i..][1..] == quadratic[i + 1..];
        var term := SortedPair(quadratic[i].key.0, quadratic[i].key.1);
        var sum := Accumulate(problem.objective.quadratic, term, quadratic[i].value);
        problem := problem.(objective := problem.objective.(quadratic := sum));
      }
      forall x
        ensures ObjectiveValue(problem.objective, x)
          == ObjectiveValue(before, x) + ObjectiveValue(Objective(sense, linear, quadratic), x)
      {
        TotalAccumulateAll(before.linear, linear, BitOf(x));
        TotalAccumulateAll(before.quadratic, SortKeys(quadratic), PairOf(x));
        SortKeysKeepsTotal(quadratic, x);
      }
    }

    method AddPenalty(name: string, weight: real, terms: Coefficients<PenaltyKey>)
      modifies this
      ensures problem == old(problem).(penalties := old(problem).penalties + [Penalty(name, weight, terms)])
      ensures problem == Apply(old(problem), PostPenalty(Penalty(name, weight, terms)))
    {
      problem := problem.(penalties := problem.penalties + [Penalty(name, weight, terms)]);
    }
  }
}
