/** Which constraint weights make the minimisers of a translation exactly the optimal feasible assignments. */
module QuboWeights {
  import opened OrderedDicts
  import opened OptimizationProblem
  import opened QuboTranslation
  import opened QuboTheorems

  // ---- A sufficient weight ----

  function Abs(r: real): real {
    if r < 0.0 then -r else r
  }

  function AbsSum<K>(d: Coefficients<K>): real {
    if d == [] then 0.0 else Abs(d[0].value) + AbsSum(d[1..])
  }

  lemma {:induction false} TotalRange<K>(d: Coefficients<K>, f: K -> real, g: K -> real)
    requires forall k :: (f(k) == 0.0 || f(k) == 1.0) && (g(k) == 0.0 || g(k) == 1.0)
    ensures Total(d, f) - Total(d, g) <= AbsSum(d)
  {
    if d != [] {
      TotalRange(d[1..], f, g);
      var k := d[0].key;
      assert (f(k) == 0.0 || f(k) == 1.0) && (g(k) == 0.0 || g(k) == 1.0);
    }
  }

  /** A caller can read a sufficient weight off the objective's coefficients. */
  lemma CoefficientSumIsAboveRange(o: Objective, weight: real)
    requires AbsSum(o.linear) + AbsSum(o.quadratic) < weight
    ensures WeightAboveRange(o, weight)
  {
    forall y, z
      ensures Exceeds(weight, o, y, z)
    {
      TotalRange(o.linear, BitOf(y), BitOf(z));
      TotalRange(o.quadratic, PairOf(y), PairOf(z));
    }
  }

  // ---- Exactly the weights that suffice ----

  /** A problem that the builder can produce and the translator accepts. */
  ghost predicate Buildable(p: Problem) {
    && UniqueKeys(p.variables) && (forall i :: 0 <= i < |p.variables| ==> p.variables[i].value == "binary")
    && UniqueKeys(p.constraints)
    && forall i :: 0 <= i < |p.constraints| ==> OverDeclared(p.variables, p.constraints[i].value.terms)
  }

  ghost predicate OverDeclared(variables: Dict<string, string>, terms: Coefficients<string>) {
    UniqueKeys(terms) && forall j :: 0 <= j < |terms| ==> Has(variables, terms[j].key)
  }

  ghost predicate MinimisesExactlyOptima(p: Problem, weight: real) {
    forall x :: IsMinimiser(FreshMatrix(p, weight), ProblemConstant(p, weight), x) <==> Optimal(p, x)
  }

  /** The problems with this objective for which exactness is meant to hold. */
  ghost predicate InScope(p: Problem, o: Objective) {
    && p.objective == o && p.penalties == [] && Buildable(p) && IntegerConstraints(p.constraints)
    && exists x :: Feasible(p.constraints, x)
  }

  /** Whatever integer equality constraints are put on the objective, the minimisers are exactly the optima. */
  ghost predicate Suffices(o: Objective, weight: real) {
    forall p :: InScope(p, o) ==> MinimisesExactlyOptima(p, weight)
  }

  function SignedValue(o: Objective, x: Assignment): real {
    Times(Sign(o), ObjectiveValue(o, x))
  }

  // ---- Constraints that force the values of all names, and that one assignment misses by one ----

  /** `good` satisfies it.  So does `bad`, unless `v` is `key`: it misses that one by one. */
  function Pin(v: string, key: string, good: Assignment, bad: Assignment): Constraint {
    if v == key || (v in good <==> v in bad) then Constraint("==", Bit(good, v), [Item(v, 1.0)])
    else if v in good <==> key in good then Constraint("==", 0.0, [Item(v, 1.0), Item(key, -1.0)])
    else Constraint("==", 1.0, [Item(v, 1.0), Item(key, 1.0)])
  }

  lemma TermsOfOne(v: string, a: real, x: Assignment)
    ensures LinearValue([Item(v, a)], x) == if v in x then a else 0.0
  {
    assert Total([Item(v, a)], BitOf(x)) == Times(a, BitOf(x)(v)) + Total([], BitOf(x));
  }

  lemma TermsOfTwo(v: string, a: real, u: string, b: real, x: Assignment)
    ensures LinearValue([Item(v, a), Item(u, b)], x) == (if v in x then a else 0.0) + if u in x then b else 0.0
  {
    assert [Item(v, a), Item(u, b)][1..] == [Item(u, b)];
    TermsOfOne(u, b, x);
  }

  lemma PinViolation(v: string, key: string, good: Assignment, bad: Assignment, x: Assignment)
    requires key in good <==> key !in bad
    ensures var c := Pin(v, key, good, bad);
      && c.sense == "==" && IsInteger(c.rhs) && IntegerTerms(c.terms) && UniqueKeys(c.terms)
      && (forall j :: 0 <= j < |c.terms| ==> c.terms[j].key == v || c.terms[j].key == key)
      && (v == key && Violation(c, x) == 0.0 ==> (key in x <==> key in good))
      && ((key in x <==> key in good) ==> (Violation(c, x) == 0.0 <==> (v in x <==> v in good)))
  {
    hide LinearValue;
    PinTerms(v, key, good, bad, x);
  }

  lemma PinTerms(v: string, key: string, good: Assignment, bad: Assignment, x: Assignment)
    ensures var c := Pin(v, key, good, bad);
      LinearValue(c.terms, x)
      == if v == key || (v in good <==> v in bad) then Bit(x, v)
         else if v in good <==> key in good then Bit(x, v) - Bit(x, key) else Bit(x, v) + Bit(x, key)
  {
    hide LinearValue;
    TermsOfOne(v, 1.0, x);
    TermsOfTwo(v, 1.0, key, -1.0, x);
    TermsOfTwo(v, 1.0, key, 1.0, x);
  }

  lemma PinMissedOnce(v: string, key: string, good: Assignment, bad: Assignment)
    requires key in good <==> key !in bad
    ensures SquaredViolation(Pin(v, key, good, bad), bad) == if v == key then 1.0 else 0.0
  {
    hide LinearValue;
    PinTerms(v, key, good, bad, bad);
  }

  // ---- Pinning all names ----

  ghost function Pick(names: set<string>): (v: string)
    requires names != {}
    ensures v in names
  {
    var v :| v in names;
    v
  }

  ghost function Pins(names: set<string>, key: string, good: Assignment, bad: Assignment): Dict<string, Constraint> {
    if names == {} then []
    else
      var v := Pick(names);
      [Item(v, Pin(v, key, good, bad))] + Pins(names - {v}, key, good, bad)
  }

  lemma {:induction false} PinsAre(names: set<string>, key: string, good: Assignment, bad: Assignment)
    ensures var pins := Pins(names, key, good, bad);
      && UniqueKeys(pins) && Keys(pins) == names
      && (forall i :: 0 <= i < |pins| ==> pins[i].key in names && pins[i].value == Pin(pins[i].key, key, good, bad))
    decreases |names|
  {
    if names != {} {
      hide Pin;
      var v := Pick(names);
      var rest, pins := Pins(names - {v}, key, good, bad), Pins(names, key, good, bad);
      PinsAre(names - {v}, key, good, bad);
      assert pins[1..] == rest;
      assert forall i :: 0 < i < |pins| ==> pins[i] == rest[i - 1];
    }
  }

  lemma {:induction false} PinsMissedOnce(names: set<string>, key: string, good: Assignment, bad: Assignment)
    requires key in good <==> key !in bad
    ensures SquaredViolations(Pins(names, key, good, bad), bad) == if key in names then 1.0 else 0.0
    decreases |names|
  {
    if names != {} {
      hide Pin, SquaredViolation;
      var v := Pick(names);
      PinMissedOnce(v, key, good, bad);
      PinsMissedOnce(names - {v}, key, good, bad);
    }
  }

  /** The pins can be met, and only by assignments that agree with `good` on all pinned names. */
  lemma {:induction false} PinsForce(names: set<string>, key: string, good: Assignment, bad: Assignment, x: Assignment)
    requires (key in good <==> key !in bad) && key in names
    ensures Feasible(Pins(names, key, good, bad), x) <==> forall v :: v in names ==> (v in x <==> v in good)
  {
    var pins := Pins(names, key, good, bad);
    PinsAre(names, key, good, bad);
    forall v
      ensures var c := Pin(v, key, good, bad);
        && c.sense == "==" && (v == key && Violation(c, x) == 0.0 ==> (key in x <==> key in good))
        && ((key in x <==> key in good) ==> (Violation(c, x) == 0.0 <==> (v in x <==> v in good)))
    {
      PinViolation(v, key, good, bad, x);
    }
    hide Pin, Violation, Pins, Keys;
    forall v | v in names
      ensures exists i :: 0 <= i < |pins| && pins[i].key == v
    {
      KeysAreHas(pins, v);
    }
    if Feasible(pins, x) {
      assert forall v :: v in names ==> Violation(Pin(v, key, good, bad), x) == 0.0;
      assert key in x <==> key in good;
    }
  }

  // ---- A weight that does not exceed the range ----

  ghost function NamesOf(o: Objective): set<string> {
    (set i | 0 <= i < |o.linear| :: o.linear[i].key)
    + (set i | 0 <= i < |o.quadratic| :: o.quadratic[i].key.0)
    + (set i | 0 <= i < |o.quadratic| :: o.quadratic[i].key.1)
  }

  lemma {:induction false} TotalDependsOn<K(!new)>(d: Coefficients<K>, f: K -> real, g: K -> real)
    requires forall i :: 0 <= i < |d| ==> f(d[i].key) == g(d[i].key)
    ensures Total(d, f) == Total(d, g)
  {
    if d != [] {
      assert forall i :: 0 <= i < |d[1..]| ==> d[1..][i] == d[i + 1];
      assert f(d[0].key) == g(d[0].key);
      TotalDependsOn(d[1..], f, g);
    }
  }

  lemma ValueDependsOnNames(o: Objective, x: Assignment, y: Assignment)
    requires forall v :: v in NamesOf(o) ==> (v in x <==> v in y)
    ensures ObjectiveValue(o, x) == ObjectiveValue(o, y)
  {
    forall i | 0 <= i < |o.linear|
      ensures BitOf(x)(o.linear[i].key) == BitOf(y)(o.linear[i].key)
    {
      assert o.linear[i].key in NamesOf(o);
    }
    forall i | 0 <= i < |o.quadratic|
      ensures PairOf(x)(o.quadratic[i].key) == PairOf(y)(o.quadratic[i].key)
    {
      assert o.quadratic[i].key.0 in NamesOf(o) && o.quadratic[i].key.1 in NamesOf(o);
    }
    TotalDependsOn(o.linear, BitOf(x), BitOf(y));
    TotalDependsOn(o.quadratic, PairOf(x), PairOf(y));
  }

  /** Declares a binary variable for every pinned name. */
  ghost function Declared(pins: Dict<string, Constraint>): Dict<string, string> {
    seq(|pins|, i requires 0 <= i < |pins| => Item(pins[i].key, "binary"))
  }

  lemma DeclaredNames(pins: Dict<string, Constraint>, v: string)
    ensures Has(Declared(pins), v) <==> Has(pins, v)
  {
    var variables := Declared(pins);
    if Has(pins, v) {
      var i :| 0 <= i < |pins| && pins[i].key == v;
      assert variables[i].key == v;
    }
  }

  ghost function PinnedProblem(o: Objective, key: string, good: Assignment, bad: Assignment): Problem {
    var pins := Pins(NamesOf(o) + {key}, key, good, bad);
    Problem(Declared(pins), pins, o, [])
  }

  lemma {:induction false} PinsAreOverDeclared(
    names: set<string>, key: string, good: Assignment, bad: Assignment, i: nat)
    requires (key in good <==> key !in bad) && key in names && i < |Pins(names, key, good, bad)|
    ensures var pins := Pins(names, key, good, bad);
      && OverDeclared(Declared(pins), pins[i].value.terms)
      && IsInteger(pins[i].value.rhs) && IntegerTerms(pins[i].value.terms)
  {
    var pins := Pins(names, key, good, bad);
    PinsAre(names, key, good, bad);
    PinViolation(pins[i].key, key, good, bad, good);
    KeysAreHas(pins, pins[i].key);
    KeysAreHas(pins, key);
    DeclaredNames(pins, pins[i].key);
    DeclaredNames(pins, key);
    hide Pins, Pin, Declared, Has, IsInteger, IntegerTerms, UniqueKeys, Violation, Keys;
  }

  lemma PinnedIsInScope(o: Objective, key: string, good: Assignment, bad: Assignment)
    requires key in good <==> key !in bad
    ensures InScope(PinnedProblem(o, key, good, bad), o)
  {
    var p, names := PinnedProblem(o, key, good, bad), NamesOf(o) + {key};
    PinsAre(names, key, good, bad);
    PinsForce(names, key, good, bad, good);
    assert Feasible(p.constraints, good);
    forall i | 0 <= i < |p.constraints|
      ensures OverDeclared(p.variables, p.constraints[i].value.terms)
      ensures IsInteger(p.constraints[i].value.rhs) && IntegerTerms(p.constraints[i].value.terms)
    {
      PinsAreOverDeclared(names, key, good, bad, i);
    }
    hide Pins, NamesOf, Pin, OverDeclared, IsInteger, IntegerTerms, Feasible, Keys;
  }

  /** On that problem `good` is an optimum and `bad` is none. */
  lemma PinnedOptimum(o: Objective, key: string, good: Assignment, bad: Assignment)
    requires key in good <==> key !in bad
    ensures Optimal(PinnedProblem(o, key, good, bad), good) && !Optimal(PinnedProblem(o, key, good, bad), bad)
  {
    var p, names := PinnedProblem(o, key, good, bad), NamesOf(o) + {key};
    forall x
      ensures Feasible(p.constraints, x) ==> ObjectiveValue(o, x) == ObjectiveValue(o, good)
    {
      PinsForce(names, key, good, bad, x);
      if Feasible(p.constraints, x) {
        ValueDependsOnNames(o, x, good);
      }
    }
    PinsForce(names, key, good, bad, good);
    PinsForce(names, key, good, bad, bad);
    assert key in names;
    hide Pins, Feasible, NamesOf, ObjectiveValue;
  }

  lemma PinnedEnergies(o: Objective, weight: real, key: string, good: Assignment, bad: Assignment)
    requires key in good <==> key !in bad
    ensures SourceEnergy(PinnedProblem(o, key, good, bad), weight, good) == SignedValue(o, good)
    ensures SourceEnergy(PinnedProblem(o, key, good, bad), weight, bad) == SignedValue(o, bad) + weight
  {
    var p, names := PinnedProblem(o, key, good, bad), NamesOf(o) + {key};
    PinnedIsInScope(o, key, good, bad);
    PinsForce(names, key, good, bad, good);
    ViolationsBound(p.constraints, good);
    PinsMissedOnce(names, key, good, bad);
    hide SquaredViolations, Pins, NamesOf, ObjectiveValue, Feasible, IntegerConstraints;
  }

  /** On that problem the infeasible `bad` has no more energy than the optimum. */
  lemma PinnedDefeats(o: Objective, weight: real, key: string, good: Assignment, bad: Assignment)
    requires (key in good <==> key !in bad) && SignedValue(o, good) - SignedValue(o, bad) >= weight
    ensures !MinimisesExactlyOptima(PinnedProblem(o, key, good, bad), weight)
  {
    var p := PinnedProblem(o, key, good, bad);
    var m, a := FreshMatrix(p, weight), ProblemConstant(p, weight);
    FreshEnergy(p, weight, good);
    FreshEnergy(p, weight, bad);
    PinnedOptimum(o, key, good, bad);
    PinnedEnergies(o, weight, key, good, bad);
    hide FreshMatrix, ProblemConstant, Energy, SourceEnergy, SignedValue, Optimal, PinnedProblem;
    assert Energy(m, a, bad) <= Energy(m, a, good);
    assert IsMinimiser(m, a, good) ==> IsMinimiser(m, a, bad);
  }

  ghost function Fresh(names: set<string>): (v: string)
    ensures v !in names
  {
    NotAllNames(names);
    var v :| v !in names;
    v
  }

  lemma {:induction false} NotAllNames(names: set<string>)
    ensures exists v: string :: v !in names
  {
    var n := Longest(names);
    var v := seq(n + 1, _ => 'a');
    assert |v| == n + 1;
  }

  lemma {:induction false} Longest(names: set<string>) returns (n: nat)
    ensures forall v :: v in names ==> |v| <= n
    decreases |names|
  {
    n := 0;
    if names != {} {
      var v := Pick(names);
      n := Longest(names - {v});
      n := if |v| > n then |v| else n;
    }
  }

  /** A weight makes the minimisers exactly the optima, for all integer equality constraints that can be met,
      exactly when it exceeds every difference between two values of the objective. */
  lemma SufficesIffAboveRange(o: Objective, weight: real)
    ensures Suffices(o, weight) <==> WeightAboveRange(o, weight)
  {
    if WeightAboveRange(o, weight) {
      forall p | InScope(p, o)
        ensures MinimisesExactlyOptima(p, weight)
      {
        var feasible :| Feasible(p.constraints, feasible);
        forall x
          ensures IsMinimiser(FreshMatrix(p, weight), ProblemConstant(p, weight), x) <==> Optimal(p, x)
        {
          MinimisersAreOptimal(p, weight, x, feasible);
        }
      }
    } else {
      var y, z :| !Exceeds(weight, o, y, z);
      var good, bad := if o.sense == "minimize" then y else z, if o.sense == "minimize" then z else y;
      assert SignedValue(o, good) - SignedValue(o, bad) >= weight;
      var key := Fresh(NamesOf(o) + good);
      if good == bad {
        bad := good + {key};
        ValueDependsOnNames(o, good, bad);
      } else {
        key :| key in good <==> key !in bad;
      }
      PinnedIsInScope(o, key, good, bad);
      PinnedDefeats(o, weight, key, good, bad);
    }
  }

  // ---- The default weight ----

  const DEFAULT_WEIGHT: real := 10.0

  /** Minimise -20 v subject to v == 0. */
  const TIGHT := Problem(
    [Item("v", "binary")], [Item("zero", Constraint("==", 0.0, [Item("v", 1.0)]))],
    Objective("minimize", [Item("v", -20.0)], []), [])

  lemma TightEnergy(x: Assignment)
    ensures Feasible(TIGHT.constraints, x) <==> "v" !in x
    ensures SourceEnergy(TIGHT, DEFAULT_WEIGHT, x) == if "v" in x then -10.0 else 0.0
  {
    hide Total;
    TermsOfOne("v", 1.0, x);
    TermsOfOne("v", -20.0, x);
    TotalOfNone(PairOf(x));
    var c := TIGHT.constraints[0].value;
    assert TIGHT.constraints[1..] == [];
    assert Violation(c, x) == if "v" in x then 1.0 else 0.0;
    assert SquaredViolations(TIGHT.constraints, x) == if "v" in x then 1.0 else 0.0;
    assert ObjectiveValue(TIGHT.objective, x) == if "v" in x then -20.0 else 0.0;
  }

  lemma TotalOfNone<K>(f: K -> real)
    ensures Total([], f) == 0.0
  {
  }

  /** The default weight is not enough for every problem: here the only optimum is no minimiser, and an
      infeasible assignment is one. */
  lemma {:induction false} DefaultWeightCanFail()
    ensures var m, a := FreshMatrix(TIGHT, DEFAULT_WEIGHT), ProblemConstant(TIGHT, DEFAULT_WEIGHT);
      && Optimal(TIGHT, {}) && !IsMinimiser(m, a, {})
      && !Feasible(TIGHT.constraints, {"v"}) && IsMinimiser(m, a, {"v"})
  {
    var m, a := FreshMatrix(TIGHT, DEFAULT_WEIGHT), ProblemConstant(TIGHT, DEFAULT_WEIGHT);
    hide FreshMatrix, ProblemConstant, Energy, SourceEnergy, ObjectiveValue;
    forall x
      ensures Energy(m, a, x) == if "v" in x then -10.0 else 0.0
      ensures Feasible(TIGHT.constraints, x) <==> "v" !in x
    {
      FreshEnergy(TIGHT, DEFAULT_WEIGHT, x);
      TightEnergy(x);
    }
    hide Feasible;
    assert !(Energy(m, a, {}) <= Energy(m, a, {"v"}));
    forall y | Feasible(TIGHT.constraints, y)
      ensures ObjectiveValue(TIGHT.objective, {}) == ObjectiveValue(TIGHT.objective, y)
    {
      ValueOfTight(y);
      ValueOfTight({});
    }
  }

  lemma ValueOfTight(x: Assignment)
    ensures ObjectiveValue(TIGHT.objective, x) == if "v" in x then -20.0 else 0.0
  {
    TermsOfOne("v", -20.0, x);
  }
}
