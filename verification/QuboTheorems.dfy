/** What the translated matrix determines: its coefficients follow from the energies alone, and with a large
    enough weight its minimisers are the optimal feasible assignments. */
module QuboTheorems {
  import opened OrderedDicts
  import opened OptimizationProblem
  import opened QuboTranslation
  import opened Sums

  // ---- The canonical form is unique ----

  /** The same coefficient for every pair of names; a missing pair counts as 0. */
  ghost predicate SameCoefficients(m: Matrix, n: Matrix) {
    forall key :: Coefficient(m, key) == Coefficient(n, key)
  }

  lemma CanonicalTail(m: Matrix)
    requires Canonical(m) && m != []
    ensures Canonical(m[1..]) && !Has(m[1..], m[0].key)
    ensures Coefficient(m[1..], m[0].key) == 0.0
  {
    var tail := m[1..];
    forall i | 0 <= i < |tail|
      ensures tail[i] == m[i + 1] && tail[i].key != m[0].key
    {
    }
    MissingIsZero(tail, m[0].key);
  }

  lemma {:induction false} TotalAtNothing(m: Matrix)
    ensures Total(m, PairOf({})) == 0.0
  {
    if m != [] {
      TotalAtNothing(m[1..]);
    }
  }

  lemma {:induction false} TotalAtOne(m: Matrix, u: string)
    requires Canonical(m)
    ensures Total(m, PairOf({u})) == Coefficient(m, (u, u))
  {
    if m != [] {
      CanonicalTail(m);
      TotalAtOne(m[1..], u);
      FactorAt(m[0].value, {u}, m[0].key);
    }
  }

  lemma {:induction false} TotalAtTwo(m: Matrix, u: string, v: string)
    requires Canonical(m) && u != v && InOrder(u, v)
    ensures Total(m, PairOf({u, v})) == Coefficient(m, (u, u)) + Coefficient(m, (v, v)) + Coefficient(m, (u, v))
  {
    if m != [] {
      CanonicalTail(m);
      TotalAtTwo(m[1..], u, v);
      NameLeTotal(u, v);
      NameLeExact(u, v);
      NameLeExact(v, u);
      hide InOrder, NameLe;
      FactorAt(m[0].value, {u, v}, m[0].key);
      hide Times, PairOf;
    }
  }

  lemma FactorAt(value: real, x: Assignment, key: NamePair)
    ensures Times(value, PairOf(x)(key)) == if key.0 in x && key.1 in x then value else 0.0
  {
  }

  lemma {:induction false} UnsortedIsMissing(m: Matrix, key: NamePair)
    requires Canonical(m) && !InOrder(key.0, key.1)
    ensures Coefficient(m, key) == 0.0
  {
    MissingIsZero(m, key);
  }

  /** Two canonical matrices with offsets that agree on all assignments have equal coefficients. */
  lemma EnergiesDetermineCoefficients(m: Matrix, a: real, n: Matrix, b: real)
    requires Canonical(m) && Canonical(n)
    requires forall x :: Energy(m, a, x) == Energy(n, b, x)
    ensures a == b && SameCoefficients(m, n)
  {
    TotalAtNothing(m);
    TotalAtNothing(n);
    assert Energy(m, a, {}) == Energy(n, b, {});
    forall u
      ensures Coefficient(m, (u, u)) == Coefficient(n, (u, u))
    {
      TotalAtOne(m, u);
      TotalAtOne(n, u);
      assert Energy(m, a, {u}) == Energy(n, b, {u});
    }
    forall key: NamePair
      ensures Coefficient(m, key) == Coefficient(n, key)
    {
      var (u, v) := key;
      if !InOrder(u, v) {
        UnsortedIsMissing(m, key);
        UnsortedIsMissing(n, key);
      } else if u != v {
        TotalAtTwo(m, u, v);
        TotalAtTwo(n, u, v);
        assert Energy(m, a, {u, v}) == Energy(n, b, {u, v});
        assert Coefficient(m, (u, u)) == Coefficient(n, (u, u)) && Coefficient(m, (v, v)) == Coefficient(n, (v, v));
      }
    }
  }

  lemma {:induction false} AllZeroTotal(m: Matrix, weight: NamePair -> real)
    requires UniqueKeys(m) && forall key :: Coefficient(m, key) == 0.0
    ensures Total(m, weight) == 0.0
  {
    if m != [] {
      var tail := m[1..];
      assert forall i :: 0 <= i < |tail| ==> tail[i] == m[i + 1];
      forall key
        ensures Coefficient(tail, key) == 0.0
      {
        if key == m[0].key {
          MissingIsZero(tail, key);
        } else {
          assert Coefficient(m, key) == Coefficient(tail, key);
        }
      }
      AllZeroTotal(tail, weight);
      assert Coefficient(m, m[0].key) == m[0].value;
    }
  }

  lemma {:induction false} CoefficientsDetermineTotal(m: Matrix, n: Matrix, weight: NamePair -> real)
    requires UniqueKeys(m) && UniqueKeys(n) && SameCoefficients(m, n)
    ensures Total(m, weight) == Total(n, weight)
    decreases |m|
  {
    if m == [] {
      forall key
        ensures Coefficient(n, key) == 0.0
      {
        assert Coefficient(m, key) == Coefficient(n, key);
      }
      AllZeroTotal(n, weight);
      return;
    }
    var key, value, tail, rest := m[0].key, m[0].value, m[1..], Put(n, m[0].key, 0.0);
    assert Coefficient(m, key) == Coefficient(n, key);
    assert forall i :: 0 <= i < |tail| ==> tail[i] == m[i + 1];
    MissingIsZero(tail, key);
    PutKeepsUnique(n, key, 0.0);
    forall k
      ensures Coefficient(tail, k) == Coefficient(rest, k)
    {
      PutEffect(n, key, 0.0, k, 0.0);
      assert Coefficient(m, k) == Coefficient(n, k);
    }
    CoefficientsDetermineTotal(tail, rest, weight);
    TotalPut(n, key, -value, weight);
    assert Times(-value, weight(key)) == -Times(value, weight(key));
  }

  /** What a fresh translator holds after one translation. */
  function FreshMatrix(p: Problem, weight: real): Matrix {
    AddTerms([], ProblemTerms(p, weight))
  }

  lemma FreshEnergy(p: Problem, weight: real, x: Assignment)
    ensures Canonical(FreshMatrix(p, weight))
    ensures Energy(FreshMatrix(p, weight), ProblemConstant(p, weight), x) == SourceEnergy(p, weight, x)
  {
    AddTermsCanonical([], ProblemTerms(p, weight));
    EnergyPreserved([], 0.0, p, weight, x);
  }

  /** Two problems translate to the same coefficients and offset exactly when they mean the same. */
  lemma SameMeaningSameMatrix(p: Problem, q: Problem, weight: real)
    ensures ProblemConstant(p, weight) == ProblemConstant(q, weight)
            && SameCoefficients(FreshMatrix(p, weight), FreshMatrix(q, weight))
      <==> forall x :: SourceEnergy(p, weight, x) == SourceEnergy(q, weight, x)
  {
    hide SourceEnergy, ProblemConstant;
    var m, n, a, b := FreshMatrix(p, weight), FreshMatrix(q, weight), ProblemConstant(p, weight),
                      ProblemConstant(q, weight);
    hide FreshMatrix;
    forall x
      ensures Canonical(m) && Energy(m, a, x) == SourceEnergy(p, weight, x)
      ensures Canonical(n) && Energy(n, b, x) == SourceEnergy(q, weight, x)
    {
      FreshEnergy(p, weight, x);
      FreshEnergy(q, weight, x);
    }
    FreshEnergy(p, weight, {});
    FreshEnergy(q, weight, {});
    if forall x :: SourceEnergy(p, weight, x) == SourceEnergy(q, weight, x) {
      EnergiesDetermineCoefficients(m, a, n, b);
    }
    if a == b && SameCoefficients(m, n) {
      forall x
        ensures SourceEnergy(p, weight, x) == SourceEnergy(q, weight, x)
      {
        CoefficientsDetermineTotal(m, n, PairOf(x));
        assert Energy(m, a, x) == Energy(n, b, x);
      }
    }
  }

  // ---- The order in which things were added does not matter ----

  function ItemValue<K>(weight: K -> real): Item<K, real> -> real {
    (item: Item<K, real>) => Times(item.value, weight(item.key))
  }

  lemma {:induction false} TotalIsSum<K>(d: Coefficients<K>, weight: K -> real)
    ensures Total(d, weight) == Sum(d, ItemValue(weight))
  {
    if d != [] {
      TotalIsSum(d[1..], weight);
    }
  }

  function ViolationOf(x: Assignment): Item<string, Constraint> -> real {
    (item: Item<string, Constraint>) => SquaredViolation(item.value, x)
  }

  lemma {:induction false} ViolationsAreSum(constraints: Dict<string, Constraint>, x: Assignment)
    ensures SquaredViolations(constraints, x) == Sum(constraints, ViolationOf(x))
  {
    if constraints != [] {
      ViolationsAreSum(constraints[1..], x);
    }
  }

  function PenaltyOf(x: Assignment): Penalty -> real {
    (p: Penalty) => Times(p.weight, Total(p.terms, PenaltyFactor(x)))
  }

  lemma {:induction false} PenaltiesAreSum(penalties: seq<Penalty>, x: Assignment)
    ensures PenaltyValue(penalties, x) == Sum(penalties, PenaltyOf(x))
  {
    if penalties != [] {
      PenaltiesAreSum(penalties[1..], x);
    }
  }

  lemma TotalPermutation<K>(d: Coefficients<K>, e: Coefficients<K>, weight: K -> real)
    requires multiset(d) == multiset(e)
    ensures Total(d, weight) == Total(e, weight)
  {
    TotalIsSum(d, weight);
    TotalIsSum(e, weight);
    SumPermutation(d, e, ItemValue(weight));
  }

  ghost predicate SameButForOrder(c: Constraint, d: Constraint) {
    c.sense == d.sense && c.rhs == d.rhs && multiset(c.terms) == multiset(d.terms)
  }

  ghost predicate PairwiseSameButForOrder(c: Dict<string, Constraint>, d: Dict<string, Constraint>) {
    |c| == |d| && forall i :: 0 <= i < |c| ==> SameButForOrder(c[i].value, d[i].value)
  }

  lemma {:induction false} InnerOrderIrrelevant(
    c: Dict<string, Constraint>, d: Dict<string, Constraint>, x: Assignment)
    requires PairwiseSameButForOrder(c, d)
    ensures SquaredViolations(c, x) == SquaredViolations(d, x)
  {
    if c != [] {
      assert SameButForOrder(c[0].value, d[0].value);
      TotalPermutation(c[0].value.terms, d[0].value.terms, BitOf(x));
      assert forall i :: 0 <= i < |c[1..]| ==> c[1..][i] == c[i + 1] && d[1..][i] == d[i + 1];
      InnerOrderIrrelevant(c[1..], d[1..], x);
    }
  }

  /** `middle` lists the constraints in the order of `d`, each with its terms in the order used in `c`. */
  ghost predicate Reordered(p: Problem, q: Problem, middle: Dict<string, Constraint>) {
    && p.objective.sense == q.objective.sense
    && multiset(p.objective.linear) == multiset(q.objective.linear)
    && multiset(p.objective.quadratic) == multiset(q.objective.quadratic)
    && multiset(p.constraints) == multiset(middle) && PairwiseSameButForOrder(middle, q.constraints)
    && multiset(p.penalties) == multiset(q.penalties)
  }

  /** Adding terms, constraints and penalties in another order gives the same matrix and offset. */
  lemma OrderIrrelevant(p: Problem, q: Problem, middle: Dict<string, Constraint>, weight: real)
    requires Reordered(p, q, middle)
    ensures ProblemConstant(p, weight) == ProblemConstant(q, weight)
    ensures SameCoefficients(FreshMatrix(p, weight), FreshMatrix(q, weight))
  {
    forall x
      ensures SourceEnergy(p, weight, x) == SourceEnergy(q, weight, x)
    {
      TotalPermutation(p.objective.linear, q.objective.linear, BitOf(x));
      TotalPermutation(p.objective.quadratic, q.objective.quadratic, PairOf(x));
      ViolationsAreSum(p.constraints, x);
      ViolationsAreSum(middle, x);
      SumPermutation(p.constraints, middle, ViolationOf(x));
      InnerOrderIrrelevant(middle, q.constraints, x);
      PenaltiesAreSum(p.penalties, x);
      PenaltiesAreSum(q.penalties, x);
      SumPermutation(p.penalties, q.penalties, PenaltyOf(x));
    }
    SameMeaningSameMatrix(p, q, weight);
  }

  // ---- Minimisers ----

  predicate IsInteger(r: real) {
    r == r.Floor as real
  }

  /** Integer right-hand sides and coefficients in the equality constraints. */
  ghost predicate IntegerConstraints(constraints: Dict<string, Constraint>) {
    forall i :: 0 <= i < |constraints| && constraints[i].value.sense == "==" ==>
      IsInteger(constraints[i].value.rhs) && IntegerTerms(constraints[i].value.terms)
  }

  ghost predicate IntegerTerms(terms: Coefficients<string>) {
    forall i :: 0 <= i < |terms| ==> IsInteger(terms[i].value)
  }

  /** Meets every equality constraint; the translator does not see the others. */
  ghost predicate Feasible(constraints: Dict<string, Constraint>, x: Assignment) {
    forall i :: 0 <= i < |constraints| && constraints[i].value.sense == "==" ==>
      LinearValue(constraints[i].value.terms, x) == constraints[i].value.rhs
  }

  /** Feasible, and no feasible assignment is better for the sense of the problem. */
  ghost predicate Optimal(p: Problem, x: Assignment) {
    && Feasible(p.constraints, x)
    && forall y :: Feasible(p.constraints, y) ==>
         if p.objective.sense == "minimize" then ObjectiveValue(p.objective, x) <= ObjectiveValue(p.objective, y)
         else ObjectiveValue(p.objective, y) <= ObjectiveValue(p.objective, x)
  }

  ghost predicate IsMinimiser(matrix: Matrix, offset: real, x: Assignment) {
    forall y :: Energy(matrix, offset, x) <= Energy(matrix, offset, y)
  }

  predicate Exceeds(weight: real, o: Objective, y: Assignment, z: Assignment) {
    ObjectiveValue(o, y) - ObjectiveValue(o, z) < weight
  }

  ghost predicate WeightAboveRange(o: Objective, weight: real) {
    forall y, z :: Exceeds(weight, o, y, z)
  }

  lemma {:induction false} IntegerValue(terms: Coefficients<string>, x: Assignment)
    requires IntegerTerms(terms)
    ensures IsInteger(LinearValue(terms, x))
  {
    if terms != [] {
      assert forall i :: 0 <= i < |terms[1..]| ==> terms[1..][i] == terms[i + 1];
      IntegerValue(terms[1..], x);
      IntegerStep(terms[0].value, Bit(x, terms[0].key), LinearValue(terms[1..], x));
      hide IsInteger;
    }
  }

  lemma IntegerStep(a: real, bit: real, rest: real)
    requires IsInteger(a) && IsInteger(rest) && (bit == 0.0 || bit == 1.0)
    ensures IsInteger(Times(a, bit) + rest)
  {
    if bit == 1.0 {
      assert Times(a, bit) + rest == (a.Floor + rest.Floor) as real;
    } else {
      assert Times(a, bit) + rest == rest;
    }
  }

  lemma {:induction false} PutKeepsInteger(d: Coefficients<string>, key: string, value: real)
    requires IntegerTerms(d) && IsInteger(value)
    ensures IntegerTerms(Put(d, key, value))
  {
    if d != [] && d[0].key != key {
      assert forall i :: 0 <= i < |d[1..]| ==> d[1..][i] == d[i + 1];
      PutKeepsInteger(d[1..], key, value);
      hide IsInteger;
    }
  }

  lemma {:induction false} GetIsInteger(d: Coefficients<string>, key: string)
    requires IntegerTerms(d)
    ensures IsInteger(Coefficient(d, key))
  {
    if d != [] {
      assert forall i :: 0 <= i < |d[1..]| ==> d[1..][i] == d[i + 1];
      GetIsInteger(d[1..], key);
    }
  }

  lemma IntegerSum(a: real, b: real)
    requires IsInteger(a) && IsInteger(b)
    ensures IsInteger(a + b)
  {
    assert a + b == (a.Floor + b.Floor) as real;
  }

  lemma {:induction false} BuilderKeepsIntegers(d: Coefficients<string>, terms: Coefficients<string>)
    requires IntegerTerms(d) && IntegerTerms(terms)
    ensures IntegerTerms(AccumulateAll(d, terms))
    decreases |terms|
  {
    if terms != [] {
      var key, c := terms[0].key, terms[0].value;
      GetIsInteger(d, key);
      IntegerSum(Coefficient(d, key), c);
      hide IsInteger;
      PutKeepsInteger(d, key, if Has(d, key) then Coefficient(d, key) + c else c);
      BuilderKeepsIntegers(Accumulate(d, key, c), terms[1..]);
    }
  }

  /** Integer terms and right-hand sides given to the builder make integer constraints. */
  lemma {:induction false} BuiltConstraintsAreInteger(
    constraints: Dict<string, Constraint>, name: string, sense: string, rhs: real, terms: Coefficients<string>)
    requires IntegerConstraints(constraints) && IsInteger(rhs) && IntegerTerms(terms)
    ensures IntegerConstraints(Put(constraints, name, Constraint(sense, rhs, AccumulateAll([], terms))))
    decreases |constraints|
  {
    BuilderKeepsIntegers([], terms);
    hide IsInteger, IntegerTerms;
    if constraints != [] && constraints[0].key != name {
      assert forall i :: 0 <= i < |constraints[1..]| ==> constraints[1..][i] == constraints[i + 1];
      BuiltConstraintsAreInteger(constraints[1..], name, sense, rhs, terms);
    }
  }

  lemma SquaredViolationBound(c: Constraint, x: Assignment)
    requires c.sense == "==" ==> IsInteger(c.rhs) && IntegerTerms(c.terms)
    ensures SquaredViolation(c, x) >= 0.0
    ensures c.sense == "==" && Violation(c, x) != 0.0 ==> SquaredViolation(c, x) >= 1.0
    ensures c.sense == "==" && Violation(c, x) == 0.0 ==> SquaredViolation(c, x) == 0.0
  {
    if c.sense == "==" {
      IntegerValue(c.terms, x);
      var k := LinearValue(c.terms, x).Floor - c.rhs.Floor;
      assert Violation(c, x) == k as real;
      IntegerSquare(k);
    }
  }

  lemma IntegerSquare(k: int)
    ensures Times(k as real, k as real) >= 0.0
    ensures k != 0 ==> Times(k as real, k as real) >= 1.0
  {
    if k > 0 {
      assert k as real >= 1.0;
    } else if k < 0 {
      assert k as real <= -1.0;
    }
  }

  lemma {:induction false} ViolationsBound(constraints: Dict<string, Constraint>, x: Assignment)
    requires IntegerConstraints(constraints)
    ensures Feasible(constraints, x) ==> SquaredViolations(constraints, x) == 0.0
    ensures SquaredViolations(constraints, x) >= if Feasible(constraints, x) then 0.0 else 1.0
  {
    if constraints != [] {
      var tail := constraints[1..];
      assert forall i :: 0 <= i < |tail| ==> tail[i] == constraints[i + 1];
      SquaredViolationBound(constraints[0].value, x);
      ViolationsBound(tail, x);
      hide SquaredViolation, Violation;
      if Feasible(tail, x) && !Feasible(constraints, x) {
        assert constraints[0].value.sense == "==";
      }
    }
  }

  /** Energy of an assignment without explicit penalties: its signed objective if it is feasible, and more than
      any signed objective otherwise. */
  lemma EnergySplit(p: Problem, weight: real, x: Assignment)
    requires p.penalties == [] && IntegerConstraints(p.constraints) && WeightAboveRange(p.objective, weight)
    ensures Feasible(p.constraints, x) ==>
      SourceEnergy(p, weight, x) == Times(Sign(p.objective), ObjectiveValue(p.objective, x))
    ensures !Feasible(p.constraints, x) ==> forall y ::
      SourceEnergy(p, weight, x) > Times(Sign(p.objective), ObjectiveValue(p.objective, y))
  {
    var o := p.objective;
    ViolationsBound(p.constraints, x);
    assert Exceeds(weight, o, x, x);
    WeightTimes(weight, SquaredViolations(p.constraints, x));
    forall y | !Feasible(p.constraints, x)
      ensures SourceEnergy(p, weight, x) > Times(Sign(o), ObjectiveValue(o, y))
    {
      assert Exceeds(weight, o, x, y);
      assert Exceeds(weight, o, y, x);
    }
  }

  lemma WeightTimes(weight: real, v: real)
    requires weight > 0.0
    ensures v == 0.0 ==> Times(weight, v) == 0.0
    ensures v >= 1.0 ==> Times(weight, v) >= weight
  {
    if v >= 1.0 {
      assert Times(weight, v) - weight == weight * (v - 1.0);
    }
  }

  /** The minimisers of the translated energy are exactly the optimal feasible assignments. */
  lemma MinimisersAreOptimal(p: Problem, weight: real, x: Assignment, feasible: Assignment)
    requires p.penalties == [] && IntegerConstraints(p.constraints) && WeightAboveRange(p.objective, weight)
    requires Feasible(p.constraints, feasible)
    ensures IsMinimiser(FreshMatrix(p, weight), ProblemConstant(p, weight), x) <==> Optimal(p, x)
  {
    var m, a := FreshMatrix(p, weight), ProblemConstant(p, weight);
    hide FreshMatrix, ProblemConstant, Energy, SourceEnergy, IntegerConstraints, WeightAboveRange, ObjectiveValue;
    forall y
      ensures Energy(m, a, y) == SourceEnergy(p, weight, y)
    {
      FreshEnergy(p, weight, y);
    }
    EnergySplit(p, weight, x);
    EnergySplit(p, weight, feasible);
    if IsMinimiser(m, a, x) {
      assert Energy(m, a, x) <= Energy(m, a, feasible);
      assert Feasible(p.constraints, x);
      forall y | Feasible(p.constraints, y)
        ensures Times(Sign(p.objective), ObjectiveValue(p.objective, x))
          <= Times(Sign(p.objective), ObjectiveValue(p.objective, y))
      {
        EnergySplit(p, weight, y);
        assert Energy(m, a, x) <= Energy(m, a, y);
      }
    }
    if Optimal(p, x) {
      forall y
        ensures Energy(m, a, x) <= Energy(m, a, y)
      {
        EnergySplit(p, weight, y);
      }
    }
  }
}
