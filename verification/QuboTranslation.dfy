/** Translation of a problem into a quadratic form over 0/1 variables: a coefficient for each pair of
    names, plus a constant. */
module QuboTranslation {
  import opened OrderedDicts
  import opened OptimizationProblem

  type Matrix = Coefficients<NamePair>

  /** x^T Q x plus the constant. */
  function Energy(matrix: Matrix, offset: real, x: Assignment): real {
    offset + Total(matrix, PairOf(x))
  }

  ghost predicate Canonical(matrix: Matrix) {
    UniqueKeys(matrix) && forall i :: 0 <= i < |matrix| ==> InOrder(matrix[i].key.0, matrix[i].key.1)
  }

  // ---- The terms a translation adds, in order ----

  datatype Term = Term(u: string, v: string, coeff: real)

  function AddTerm(matrix: Matrix, t: Term): Matrix {
    if t.coeff == 0.0 then matrix else Accumulate(matrix, SortedPair(t.u, t.v), t.coeff)
  }

  function AddTerms(matrix: Matrix, terms: seq<Term>): Matrix
    decreases |terms|
  {
    if terms == [] then matrix else AddTerms(AddTerm(matrix, terms[0]), terms[1..])
  }

  function LinearTerms(linear: Coefficients<string>, scale: real): seq<Term> {
    if linear == [] then []
    else [Term(linear[0].key, linear[0].key, Times(scale, linear[0].value))] + LinearTerms(linear[1..], scale)
  }

  function QuadraticTerms(quadratic: Coefficients<NamePair>, scale: real): seq<Term> {
    if quadratic == [] then []
    else
      [Term(quadratic[0].key.0, quadratic[0].key.1, Times(scale, quadratic[0].value))]
      + QuadraticTerms(quadratic[1..], scale)
  }

  function DiagonalCoefficient(a: real, b: real, weight: real): real {
    weight * (a * a - 2.0 * b * a)
  }

  function CrossCoefficient(a: real, a': real, weight: real): real {
    weight * 2.0 * a * a'
  }

  /** Diagonal part of weight * (sum a_i x_i - b)^2. */
  function DiagonalTerms(terms: Coefficients<string>, b: real, weight: real): seq<Term> {
    if terms == [] then []
    else
      [Term(terms[0].key, terms[0].key, DiagonalCoefficient(terms[0].value, b, weight))]
      + DiagonalTerms(terms[1..], b, weight)
  }

  function RowTerms(first: Item<string, real>, rest: Coefficients<string>, weight: real): seq<Term> {
    if rest == [] then []
    else
      [Term(first.key, rest[0].key, CrossCoefficient(first.value, rest[0].value, weight))]
      + RowTerms(first, rest[1..], weight)
  }

  /** Off-diagonal part: one term for each pair i < j. */
  function CrossTerms(terms: Coefficients<string>, weight: real): seq<Term> {
    if terms == [] then [] else RowTerms(terms[0], terms[1..], weight) + CrossTerms(terms[1..], weight)
  }

  function SquareTerms(c: Constraint, weight: real): seq<Term> {
    if c.sense == "==" then DiagonalTerms(c.terms, c.rhs, weight) + CrossTerms(c.terms, weight) else []
  }

  function SquareConstant(c: Constraint, weight: real): real {
    if c.sense == "==" then Times(weight, c.rhs * c.rhs) else 0.0
  }

  function ConstraintTerms(constraints: Dict<string, Constraint>, weight: real): seq<Term> {
    if constraints == [] then []
    else SquareTerms(constraints[0].value, weight) + ConstraintTerms(constraints[1..], weight)
  }

  function ConstraintConstant(constraints: Dict<string, Constraint>, weight: real): real {
    if constraints == [] then 0.0
    else SquareConstant(constraints[0].value, weight) + ConstraintConstant(constraints[1..], weight)
  }

  function KeyTerms(key: PenaltyKey, coeff: real): seq<Term> {
    match key
    case Name(v) => if v == "offset" then [] else [Term(v, v, coeff)]
    case Pair(u, v) => [Term(u, v, coeff)]
    case Unsupported => []
  }

  function PenaltyKeyTerms(terms: Coefficients<PenaltyKey>, weight: real): seq<Term> {
    if terms == [] then []
    else KeyTerms(terms[0].key, Times(weight, terms[0].value)) + PenaltyKeyTerms(terms[1..], weight)
  }

  function PenaltyKeyConstant(terms: Coefficients<PenaltyKey>, weight: real): real {
    if terms == [] then 0.0
    else
      (if terms[0].key == Name("offset") then Times(weight, terms[0].value) else 0.0)
      + PenaltyKeyConstant(terms[1..], weight)
  }

  function PenaltyTerms(penalties: seq<Penalty>): seq<Term> {
    if penalties == [] then []
    else PenaltyKeyTerms(penalties[0].terms, penalties[0].weight) + PenaltyTerms(penalties[1..])
  }

  function PenaltyConstant(penalties: seq<Penalty>): real {
    if penalties == [] then 0.0
    else PenaltyKeyConstant(penalties[0].terms, penalties[0].weight) + PenaltyConstant(penalties[1..])
  }

  function ObjectiveTerms(o: Objective): seq<Term> {
    LinearTerms(o.linear, Sign(o)) + QuadraticTerms(o.quadratic, Sign(o))
  }

  function ProblemTerms(p: Problem, weight: real): seq<Term> {
    ObjectiveTerms(p.objective) + ConstraintTerms(p.constraints, weight) + PenaltyTerms(p.penalties)
  }

  function ProblemConstant(p: Problem, weight: real): real {
    ConstraintConstant(p.constraints, weight) + PenaltyConstant(p.penalties)
  }

  // ---- The value of added terms ----

  function TermsValue(terms: seq<Term>, x: Assignment): real {
    if terms == [] then 0.0
    else Times(terms[0].coeff, Both(x, terms[0].u, terms[0].v)) + TermsValue(terms[1..], x)
  }

  lemma {:induction false} TermsValueConcat(a: seq<Term>, b: seq<Term>, x: Assignment)
    ensures TermsValue(a + b, x) == TermsValue(a, x) + TermsValue(b, x)
  {
    if a == [] {
      assert a + b == b;
    } else {
      assert (a + b)[1..] == a[1..] + b;
      TermsValueConcat(a[1..], b, x);
    }
  }

  lemma {:induction false} AddTermsConcat(matrix: Matrix, a: seq<Term>, b: seq<Term>)
    ensures AddTerms(matrix, a + b) == AddTerms(AddTerms(matrix, a), b)
    decreases |a|
  {
    if a == [] {
      assert a + b == b;
    } else {
      assert (a + b)[1..] == a[1..] + b;
      AddTermsConcat(AddTerm(matrix, a[0]), a[1..], b);
    }
  }

  lemma {:induction false} AddTermsValue(matrix: Matrix, terms: seq<Term>, x: Assignment)
    ensures Total(AddTerms(matrix, terms), PairOf(x)) == Total(matrix, PairOf(x)) + TermsValue(terms, x)
    decreases |terms|
  {
    if terms != [] {
      var t := terms[0];
      NameOrderIrrelevant(x, t.u, t.v);
      TimesZero(Both(x, t.u, t.v));
      hide Times, Both;
      TotalAccumulate(matrix, SortedPair(t.u, t.v), t.coeff, PairOf(x));
      AddTermsValue(AddTerm(matrix, t), terms[1..], x);
    }
  }

  lemma NameOrderIrrelevant(x: Assignment, u: string, v: string)
    ensures PairOf(x)(SortedPair(u, v)) == Both(x, u, v)
  {
  }

  lemma {:induction false} AddTermsCanonical(matrix: Matrix, terms: seq<Term>)
    requires Canonical(matrix)
    ensures Canonical(AddTerms(matrix, terms))
    decreases |terms|
  {
    if terms != [] {
      AddTermCanonical(matrix, terms[0]);
      AddTermsCanonical(AddTerm(matrix, terms[0]), terms[1..]);
    }
  }

  lemma AddTermCanonical(matrix: Matrix, t: Term)
    requires Canonical(matrix)
    ensures Canonical(AddTerm(matrix, t))
  {
    var key := SortedPair(t.u, t.v);
    SortedPairIsSorted(t.u, t.v);
    hide InOrder;
    var c := if Has(matrix, key) then Get(matrix, key, 0.0) + t.coeff else t.coeff;
    PutKeepsUnique(matrix, key, c);
    var result := Put(matrix, key, c);
    forall i | 0 <= i < |result|
      ensures InOrder(result[i].key.0, result[i].key.1)
    {
      PutEffect(matrix, key, c, result[i].key, 0.0);
      assert Has(result, result[i].key);
    }
  }

  lemma {:induction false} LinearTermsValue(linear: Coefficients<string>, scale: real, x: Assignment)
    ensures TermsValue(LinearTerms(linear, scale), x) == Times(scale, LinearValue(linear, x))
  {
    if linear == [] {
      return;
    }
    LinearTermsValue(linear[1..], scale, x);
    BitSquared(x, linear[0].key);
    TimesRegroup(scale, linear[0].value, Bit(x, linear[0].key));
    TimesSum(scale, Times(linear[0].value, Bit(x, linear[0].key)), LinearValue(linear[1..], x));
    hide Times, Both, Bit;
  }

  lemma {:induction false} QuadraticTermsValue(quadratic: Coefficients<NamePair>, scale: real, x: Assignment)
    ensures TermsValue(QuadraticTerms(quadratic, scale), x) == Times(scale, Total(quadratic, PairOf(x)))
  {
    if quadratic == [] {
      return;
    }
    var t := quadratic[0];
    QuadraticTermsValue(quadratic[1..], scale, x);
    TimesRegroup(scale, t.value, Both(x, t.key.0, t.key.1));
    TimesSum(scale, Times(t.value, Both(x, t.key.0, t.key.1)), Total(quadratic[1..], PairOf(x)));
    hide Times, Both;
  }

  lemma TimesRegroup(a: real, b: real, c: real)
    ensures Times(Times(a, b), c) == Times(a, Times(b, c))
  {
  }

  lemma BitSquared(x: Assignment, v: string)
    ensures Both(x, v, v) == Bit(x, v)
  {
  }

  lemma {:induction false} RowTermsValue(
    first: Item<string, real>, rest: Coefficients<string>, weight: real, x: Assignment)
    ensures TermsValue(RowTerms(first, rest, weight), x)
      == Times(Times(2.0 * weight, Times(first.value, Bit(x, first.key))), LinearValue(rest, x))
  {
    if rest == [] {
      return;
    }
    var scale := Times(2.0 * weight, Times(first.value, Bit(x, first.key)));
    RowTermsValue(first, rest[1..], weight, x);
    CrossRegroup(weight, first.value, Bit(x, first.key), rest[0].value, Bit(x, rest[0].key));
    TimesSum(scale, Times(rest[0].value, Bit(x, rest[0].key)), LinearValue(rest[1..], x));
    assert Both(x, first.key, rest[0].key) == Times(Bit(x, first.key), Bit(x, rest[0].key));
    hide Times, Both, Bit, CrossCoefficient;
  }

  lemma CrossRegroup(weight: real, a: real, p: real, b: real, q: real)
    ensures Times(CrossCoefficient(a, b, weight), Times(p, q))
      == Times(Times(2.0 * weight, Times(a, p)), Times(b, q))
  {
  }

  /** Expanding the square: the diagonal and cross terms make up all of it but the constant. */
  lemma {:induction false} SquareExpansion(terms: Coefficients<string>, b: real, weight: real, x: Assignment)
    ensures TermsValue(DiagonalTerms(terms, b, weight), x) + TermsValue(CrossTerms(terms, weight), x)
      == OpenSquare(LinearValue(terms, x), b, weight)
  {
    hide Times, Both, Bit, DiagonalCoefficient, OpenSquare;
    if terms == [] {
      OpenSquareOfZero(b, weight);
      return;
    }
    hide RowTerms;
    var bit := Bit(x, terms[0].key);
    SquareExpansion(terms[1..], b, weight, x);
    RowTermsValue(terms[0], terms[1..], weight, x);
    TermsValueConcat(RowTerms(terms[0], terms[1..], weight), CrossTerms(terms[1..], weight), x);
    BitSquared(x, terms[0].key);
    SquareStep(terms[0].value, x, terms[0].key, LinearValue(terms[1..], x), b, weight);
    assert TermsValue(DiagonalTerms(terms, b, weight), x)
      == Times(DiagonalCoefficient(terms[0].value, b, weight), bit)
         + TermsValue(DiagonalTerms(terms[1..], b, weight), x);
    hide DiagonalTerms, TermsValue;
  }

  /** weight * ((s - b)^2 - b^2) */
  function OpenSquare(s: real, b: real, weight: real): real {
    weight * (s * s - 2.0 * b * s)
  }

  lemma OpenSquareOfZero(b: real, weight: real)
    ensures OpenSquare(0.0, b, weight) == 0.0
  {
  }

  lemma SquareStep(a: real, x: Assignment, v: string, s: real, b: real, weight: real)
    ensures Times(DiagonalCoefficient(a, b, weight), Bit(x, v)) + Times(Times(2.0 * weight, Times(a, Bit(x, v))), s)
            + OpenSquare(s, b, weight)
      == OpenSquare(Times(a, Bit(x, v)) + s, b, weight)
  {
  }

  lemma SquareTermsValue(c: Constraint, weight: real, x: Assignment)
    ensures TermsValue(SquareTerms(c, weight), x) + SquareConstant(c, weight)
      == Times(weight, SquaredViolation(c, x))
  {
    hide LinearValue, OpenSquare, DiagonalTerms, CrossTerms;
    if c.sense != "==" {
      return;
    }
    hide TermsValue, Times;
    SquareExpansion(c.terms, c.rhs, weight, x);
    TermsValueConcat(DiagonalTerms(c.terms, c.rhs, weight), CrossTerms(c.terms, weight), x);
    CompleteSquare(LinearValue(c.terms, x), c.rhs, weight);
  }

  lemma CompleteSquare(s: real, b: real, weight: real)
    ensures OpenSquare(s, b, weight) + Times(weight, b * b) == Times(weight, Times(s - b, s - b))
  {
  }

  lemma {:induction false} ConstraintTermsValue(
    constraints: Dict<string, Constraint>, weight: real, x: Assignment)
    ensures TermsValue(ConstraintTerms(constraints, weight), x) + ConstraintConstant(constraints, weight)
      == Times(weight, SquaredViolations(constraints, x))
  {
    if constraints == [] {
      return;
    }
    hide SquareTerms, SquareConstant, SquaredViolation, TermsValue, Times;
    var c := constraints[0].value;
    SquareTermsValue(c, weight, x);
    ConstraintTermsValue(constraints[1..], weight, x);
    TermsValueConcat(SquareTerms(c, weight), ConstraintTerms(constraints[1..], weight), x);
    TimesSum(weight, SquaredViolation(c, x), SquaredViolations(constraints[1..], x));
  }

  lemma {:induction false} PenaltyKeyValue(terms: Coefficients<PenaltyKey>, weight: real, x: Assignment)
    ensures TermsValue(PenaltyKeyTerms(terms, weight), x) + PenaltyKeyConstant(terms, weight)
      == Times(weight, Total(terms, PenaltyFactor(x)))
  {
    if terms == [] {
      return;
    }
    hide TermsValue, KeyTerms, PenaltyFactor, Times;
    var t, rest := terms[0], PenaltyKeyTerms(terms[1..], weight);
    KeyValue(t.key, t.value, weight, x);
    PenaltyKeyValue(terms[1..], weight, x);
    TermsValueConcat(KeyTerms(t.key, Times(weight, t.value)), rest, x);
    TimesSum(weight, Times(t.value, PenaltyFactor(x)(t.key)), Total(terms[1..], PenaltyFactor(x)));
  }

  lemma KeyValue(key: PenaltyKey, value: real, weight: real, x: Assignment)
    ensures TermsValue(KeyTerms(key, Times(weight, value)), x)
            + (if key == Name("offset") then Times(weight, value) else 0.0)
      == Times(weight, Times(value, PenaltyFactor(x)(key)))
  {
    if key.Name? {
      BitSquared(x, key.name);
    }
    TimesRegroup(weight, value, PenaltyFactor(x)(key));
  }

  lemma KeyTermsValue(key: PenaltyKey, coeff: real, x: Assignment)
    ensures TermsValue(KeyTerms(key, coeff), x) + (if key == Name("offset") then coeff else 0.0)
      == (if key == Name("offset") || (key.Name? && key.name in x)
             || (key.Pair? && key.first in x && key.second in x) then coeff else 0.0)
  {
    var terms := KeyTerms(key, coeff);
    assert terms != [] ==> terms[1..] == [];
  }

  lemma {:induction false} PenaltyTermsValue(penalties: seq<Penalty>, x: Assignment)
    ensures TermsValue(PenaltyTerms(penalties), x) + PenaltyConstant(penalties) == PenaltyValue(penalties, x)
  {
    hide PenaltyKeyTerms, PenaltyKeyConstant, Total, PenaltyFactor, Times;
    if penalties != [] {
      var head := PenaltyKeyTerms(penalties[0].terms, penalties[0].weight);
      PenaltyKeyValue(penalties[0].terms, penalties[0].weight, x);
      PenaltyTermsValue(penalties[1..], x);
      TermsValueConcat(head, PenaltyTerms(penalties[1..]), x);
    }
  }

  lemma ObjectiveTermsValue(o: Objective, x: Assignment)
    ensures TermsValue(ObjectiveTerms(o), x) == Times(Sign(o), ObjectiveValue(o, x))
  {
    TermsValueConcat(LinearTerms(o.linear, Sign(o)), QuadraticTerms(o.quadratic, Sign(o)), x);
    LinearTermsValue(o.linear, Sign(o), x);
    QuadraticTermsValue(o.quadratic, Sign(o), x);
    TimesSum(Sign(o), LinearValue(o.linear, x), Total(o.quadratic, PairOf(x)));
    hide Times, TermsValue, LinearValue, Total, LinearTerms, QuadraticTerms;
  }

  /** Translating adds exactly the source energy, whatever was in the matrix before. */
  lemma EnergyPreserved(matrix: Matrix, offset: real, p: Problem, weight: real, x: Assignment)
    ensures Energy(AddTerms(matrix, ProblemTerms(p, weight)), offset + ProblemConstant(p, weight), x)
      == Energy(matrix, offset, x) + SourceEnergy(p, weight, x)
  {
    hide ObjectiveTerms, ConstraintTerms, ConstraintConstant, PenaltyTerms, PenaltyConstant, TermsValue, Total;
    hide Sign, ObjectiveValue, SquaredViolations, PenaltyValue, AddTerms, Times;
    var o, c, q := ObjectiveTerms(p.objective), ConstraintTerms(p.constraints, weight), PenaltyTerms(p.penalties);
    AddTermsValue(matrix, ProblemTerms(p, weight), x);
    TermsValueConcat(o + c, q, x);
    TermsValueConcat(o, c, x);
    ObjectiveTermsValue(p.objective, x);
    ConstraintTermsValue(p.constraints, weight, x);
    PenaltyTermsValue(p.penalties, x);
  }

  lemma ObjectiveEnergy(matrix: Matrix, offset: real, o: Objective, x: Assignment)
    ensures Energy(AddTerms(matrix, ObjectiveTerms(o)), offset, x) == Energy(matrix, offset, x)
      + var value := LinearValue(o.linear, x) + Total(o.quadratic, PairOf(x));
        if o.sense == "minimize" then value else -value
  {
    AddTermsValue(matrix, ObjectiveTerms(o), x);
    ObjectiveTermsValue(o, x);
    hide AddTerms, ObjectiveTerms, LinearValue, Total, TermsValue;
  }

  lemma ConstraintEnergy(matrix: Matrix, offset: real, c: Constraint, weight: real, x: Assignment)
    ensures Energy(AddTerms(matrix, SquareTerms(c, weight)), offset + SquareConstant(c, weight), x)
      == Energy(matrix, offset, x)
         + var miss := LinearValue(c.terms, x) - c.rhs;
           if c.sense == "==" then weight * (miss * miss) else 0.0
  {
    AddTermsValue(matrix, SquareTerms(c, weight), x);
    SquareTermsValue(c, weight, x);
    hide AddTerms, SquareTerms, SquareConstant, LinearValue, Total, TermsValue;
  }

  lemma PenaltyEnergy(matrix: Matrix, offset: real, p: Penalty, x: Assignment)
    ensures Energy(AddTerms(matrix, PenaltyKeyTerms(p.terms, p.weight)),
                   offset + PenaltyKeyConstant(p.terms, p.weight), x)
      == Energy(matrix, offset, x) + p.weight * Total(p.terms, PenaltyFactor(x))
  {
    AddTermsValue(matrix, PenaltyKeyTerms(p.terms, p.weight), x);
    PenaltyKeyValue(p.terms, p.weight, x);
    hide AddTerms, PenaltyKeyTerms, PenaltyKeyConstant, Total, TermsValue;
  }

  // ---- The translator ----

  class QuboTranslator {
    const problem: Problem
    var quboMatrix: Matrix
    var offset: real

    constructor (problem: Problem)
      ensures this.problem == problem && quboMatrix == [] && offset == 0.0
    {
      this.problem := problem;
      quboMatrix, offset := [], 0.0;
    }

    method AddQuboTerm(u: string, v: string, coeff: real)
      modifies this`quboMatrix
      ensures quboMatrix == AddTerm(old(quboMatrix), Term(u, v, coeff))
      ensures coeff == 0.0 ==> quboMatrix == old(quboMatrix)
      ensures coeff != 0.0 ==> exists key ::
        && IsSortedPair(key, u, v)
        && quboMatrix == Put(old(quboMatrix), key, Coefficient(old(quboMatrix), key) + coeff)
    {
      if coeff == 0.0 {
        return;
      }
      var term := SortedPair(u, v);
      SortedPairIsSorted(u, v);
      if !Has(quboMatrix, term) {
        MissingIsZero(quboMatrix, term);
      }
      quboMatrix := Accumulate(quboMatrix, term, coeff);
    }

    /** Fails, and changes nothing, unless every variable is binary.  Otherwise adds the source energy at
        every assignment, and keeps the keys sorted and unique. */
    method Translate(weight: real) returns (ok: bool)
      requires Canonical(quboMatrix)
      modifies this
      ensures ok <==> forall i :: 0 <= i < |problem.variables| ==> problem.variables[i].value == "binary"
      ensures !ok ==> quboMatrix == old(quboMatrix) && offset == old(offset)
      ensures ok ==> quboMatrix == AddTerms(old(quboMatrix), ProblemTerms(problem, weight))
      ensures ok ==> forall x ::
        Energy(quboMatrix, offset, x) == Energy(old(quboMatrix), old(offset), x) + SourceEnergy(problem, weight, x)
      ensures Canonical(quboMatrix)
    {
      ok := true;
      for i := 0 to |problem.variables|
        invariant forall j :: 0 <= j < i ==> problem.variables[j].value == "binary"
      {
        if problem.variables[i].value != "binary" {
          return false;
        }
      }
      TranslateObjective();
      TranslateConstraints(weight);
      TranslatePenalties();
      var o, c := ObjectiveTerms(problem.objective), ConstraintTerms(problem.constraints, weight);
      AddTermsConcat(old(quboMatrix), o + c, PenaltyTerms(problem.penalties));
      AddTermsConcat(old(quboMatrix), o, c);
      AddTermsCanonical(old(quboMatrix), ProblemTerms(problem, weight));
      forall x
        ensures Energy(quboMatrix, offset, x)
          == Energy(old(quboMatrix), old(offset), x) + SourceEnergy(problem, weight, x)
      {
        EnergyPreserved(old(quboMatrix), old(offset), problem, weight, x);
      }
    }

    method TranslateObjective()
      modifies this`quboMatrix
      ensures quboMatrix == AddTerms(old(quboMatrix), ObjectiveTerms(problem.objective))
      ensures forall x ::
        Energy(quboMatrix, offset, x) == Energy(old(quboMatrix), offset, x)
          + var value := LinearValue(problem.objective.linear, x) + Total(problem.objective.quadratic, PairOf(x));
            if problem.objective.sense == "minimize" then value else -value
    {
      hide Times, AddTerm;
      var o := problem.objective;
      var multiplier := if o.sense == "minimize" then 1.0 else -1.0;
      ghost var afterLinear := AddTerms(quboMatrix, LinearTerms(o.linear, multiplier));
      AddTermsConcat(quboMatrix, LinearTerms(o.linear, multiplier), QuadraticTerms(o.quadratic, multiplier));
      for i := 0 to |o.linear|
        invariant AddTerms(quboMatrix, LinearTerms(o.linear[i..], multiplier)) == afterLinear
      {
        assert o.linear[i..][1..] == o.linear[i + 1..];
        AddQuboTerm(o.linear[i].key, o.linear[i].key, Times(multiplier, o.linear[i].value));
      }
      for i := 0 to |o.quadratic|
        invariant AddTerms(quboMatrix, QuadraticTerms(o.quadratic[i..], multiplier))
          == AddTerms(old(quboMatrix), ObjectiveTerms(o))
      {
        assert o.quadratic[i..][1..] == o.quadratic[i + 1..];
        AddQuboTerm(o.quadratic[i].key.0, o.quadratic[i].key.1, Times(multiplier, o.quadratic[i].value));
      }
      forall x
        ensures Energy(quboMatrix, offset, x) == Energy(old(quboMatrix), offset, x)
          + var value := LinearValue(o.linear, x) + Total(o.quadratic, PairOf(x));
            if o.sense == "minimize" then value else -value
      {
        ObjectiveEnergy(old(quboMatrix), offset, o, x);
      }
    }

    method TranslateConstraints(weight: real)
      modifies this
      ensures quboMatrix == AddTerms(old(quboMatrix), ConstraintTerms(problem.constraints, weight))
      ensures offset == old(offset) + ConstraintConstant(problem.constraints, weight)
    {
      hide SquareTerms, SquareConstant, AddTerm;
      var constraints := problem.constraints;
      for i := 0 to |constraints|
        invariant AddTerms(quboMatrix, ConstraintTerms(constraints[i..], weight))
          == AddTerms(old(quboMatrix), ConstraintTerms(constraints, weight))
        invariant offset + ConstraintConstant(constraints[i..], weight)
          == old(offset) + ConstraintConstant(constraints, weight)
      {
        assert constraints[i..][1..] == constraints[i + 1..];
        AddTermsConcat(quboMatrix, SquareTerms(constraints[i].value, weight),
                       ConstraintTerms(constraints[i + 1..], weight));
        TranslateConstraint(constraints[i].value, weight);
      }
    }

    /** Inequalities are skipped. */
    method TranslateConstraint(c: Constraint, weight: real)
      modifies this
      ensures quboMatrix == AddTerms(old(quboMatrix), SquareTerms(c, weight))
      ensures offset == old(offset) + SquareConstant(c, weight)
      ensures forall x ::
        Energy(quboMatrix, offset, x) == Energy(old(quboMatrix), old(offset), x)
          + var miss := LinearValue(c.terms, x) - c.rhs;
            if c.sense == "==" then weight * (miss * miss) else 0.0
    {
      hide DiagonalCoefficient, CrossCoefficient, Energy;
      forall x
        ensures Energy(AddTerms(quboMatrix, SquareTerms(c, weight)), offset + SquareConstant(c, weight), x)
          == Energy(quboMatrix, offset, x)
             + var miss := LinearValue(c.terms, x) - c.rhs;
               if c.sense == "==" then weight * (miss * miss) else 0.0
      {
        ConstraintEnergy(quboMatrix, offset, c, weight, x);
      }
      if c.sense != "==" {
        return;
      }
      offset := offset + Times(weight, c.rhs * c.rhs);
      AddTermsConcat(quboMatrix, DiagonalTerms(c.terms, c.rhs, weight), CrossTerms(c.terms, weight));
      AddDiagonal(c.terms, c.rhs, weight);
      AddCross(c.terms, weight);
    }

    method AddDiagonal(terms: Coefficients<string>, b: real, weight: real)
      modifies this`quboMatrix
      ensures quboMatrix == AddTerms(old(quboMatrix), DiagonalTerms(terms, b, weight))
    {
      hide DiagonalCoefficient, AddTerm;
      for i := 0 to |terms|
        invariant AddTerms(quboMatrix, DiagonalTerms(terms[i..], b, weight))
          == AddTerms(old(quboMatrix), DiagonalTerms(terms, b, weight))
      {
        assert terms[i..][1..] == terms[i + 1..];
        AddQuboTerm(terms[i].key, terms[i].key, DiagonalCoefficient(terms[i].value, b, weight));
      }
    }

    method AddCross(terms: Coefficients<string>, weight: real)
      modifies this`quboMatrix
      ensures quboMatrix == AddTerms(old(quboMatrix), CrossTerms(terms, weight))
    {
      hide CrossCoefficient, AddTerm;
      for i := 0 to |terms|
        invariant AddTerms(quboMatrix, CrossTerms(terms[i..], weight))
          == AddTerms(old(quboMatrix), CrossTerms(terms, weight))
      {
        assert terms[i..][1..] == terms[i + 1..];
        ghost var afterRow := AddTerms(quboMatrix, RowTerms(terms[i], terms[i + 1..], weight));
        AddTermsConcat(quboMatrix, RowTerms(terms[i], terms[i + 1..], weight), CrossTerms(terms[i + 1..], weight));
        for j := i + 1 to |terms|
          invariant AddTerms(quboMatrix, RowTerms(terms[i], terms[j..], weight)) == afterRow
        {
          assert terms[j..][1..] == terms[j + 1..];
          AddQuboTerm(terms[i].key, terms[j].key, CrossCoefficient(terms[i].value, terms[j].value, weight));
        }
      }
    }

    method TranslatePenalties()
      modifies this
      ensures quboMatrix == AddTerms(old(quboMatrix), PenaltyTerms(problem.penalties))
      ensures offset == old(offset) + PenaltyConstant(problem.penalties)
    {
      var penalties := problem.penalties;
      for i := 0 to |penalties|
        invariant AddTerms(quboMatrix, PenaltyTerms(penalties[i..]))
          == AddTerms(old(quboMatrix), PenaltyTerms(penalties))
        invariant offset + PenaltyConstant(penalties[i..]) == old(offset) + PenaltyConstant(penalties)
      {
        assert penalties[i..][1..] == penalties[i + 1..];
        AddTermsConcat(quboMatrix, PenaltyKeyTerms(penalties[i].terms, penalties[i].weight),
                       PenaltyTerms(penalties[i + 1..]));
        TranslatePenalty(penalties[i]);
      }
    }

    method TranslatePenalty(penalty: Penalty)
      modifies this
      ensures quboMatrix == AddTerms(old(quboMatrix), PenaltyKeyTerms(penalty.terms, penalty.weight))
      ensures offset == old(offset) + PenaltyKeyConstant(penalty.terms, penalty.weight)
      ensures forall x ::
        Energy(quboMatrix, offset, x) == Energy(old(quboMatrix), old(offset), x)
          + penalty.weight * Total(penalty.terms, PenaltyFactor(x))
    {
      hide Times, AddTerm, Energy, PenaltyFactor;
      var terms, weight := penalty.terms, penalty.weight;
      for i := 0 to |terms|
        invariant AddTerms(quboMatrix, PenaltyKeyTerms(terms[i..], weight))
          == AddTerms(old(quboMatrix), PenaltyKeyTerms(terms, weight))
        invariant offset + PenaltyKeyConstant(terms[i..], weight)
          == old(offset) + PenaltyKeyConstant(terms, weight)
      {
        assert terms[i..][1..] == terms[i + 1..];
        AddTermsConcat(quboMatrix, KeyTerms(terms[i].key, Times(weight, terms[i].value)),
                       PenaltyKeyTerms(terms[i + 1..], weight));
        TranslateKey(terms[i].key, Times(weight, terms[i].value));
      }
      assert quboMatrix == AddTerms(old(quboMatrix), PenaltyKeyTerms(terms, weight));
      forall x
        ensures Energy(quboMatrix, offset, x)
          == Energy(old(quboMatrix), old(offset), x) + weight * Total(terms, PenaltyFactor(x))
      {
        PenaltyEnergy(old(quboMatrix), old(offset), penalty, x);
      }
    }

    method TranslateKey(key: PenaltyKey, coeff: real)
      modifies this
      ensures quboMatrix == AddTerms(old(quboMatrix), KeyTerms(key, coeff))
      ensures offset == old(offset) + if key == Name("offset") then coeff else 0.0
      ensures forall x ::
        Energy(quboMatrix, offset, x) == Energy(old(quboMatrix), old(offset), x)
          + (if key == Name("offset") || (key.Name? && key.name in x)
                || (key.Pair? && key.first in x && key.second in x) then coeff else 0.0)
    {
      match key {
        case Name(v) =>
          if v != "offset" {
            AddQuboTerm(v, v, coeff);
          } else {
            offset := offset + coeff;
          }
        case Pair(u, v) =>
          AddQuboTerm(u, v, coeff);
        case Unsupported =>
      }
      forall x
        ensures Energy(quboMatrix, offset, x) == Energy(old(quboMatrix), old(offset), x)
          + (if key == Name("offset") || (key.Name? && key.name in x)
                || (key.Pair? && key.first in x && key.second in x) then coeff else 0.0)
      {
        AddTermsValue(old(quboMatrix), KeyTerms(key, coeff), x);
        KeyTermsValue(key, coeff, x);
      }
    }
  }
}
