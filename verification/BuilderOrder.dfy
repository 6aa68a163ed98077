/** When the order of the builder's calls matters for the translated matrix. */
module BuilderOrder {
  import opened OrderedDicts
  import opened OptimizationProblem
  import opened QuboTranslation
  import opened QuboTheorems
  import opened Sums

  /** The problem after all given calls. */
  function Build(calls: seq<Call>): Problem {
    if calls == [] then NO_PROBLEM else Apply(Build(calls[..|calls| - 1]), calls[|calls| - 1])
  }

  ghost predicate SameTranslation(p: Problem, q: Problem, weight: real) {
    && ProblemConstant(p, weight) == ProblemConstant(q, weight)
    && SameCoefficients(FreshMatrix(p, weight), FreshMatrix(q, weight))
  }

  /** The same offset and coefficients, for every constraint weight. */
  ghost predicate SameTranslations(p: Problem, q: Problem) {
    forall weight :: SameTranslation(p, q, weight)
  }

  // ---- What the calls add up to ----

  function ObjectiveOf(x: Assignment): Call -> real {
    (c: Call) =>
      if c.ExtendObjective? then ObjectiveValue(Objective(c.sense, c.linear, c.quadratic), x) else 0.0
  }

  function PenaltyOfCall(x: Assignment): Call -> real {
    (c: Call) => if c.PostPenalty? then PenaltyOf(x)(c.penalty) else 0.0
  }

  lemma ExtendedValue(o: Objective, c: Call, x: Assignment)
    requires c.ExtendObjective?
    ensures ObjectiveValue(Objective(c.sense, AccumulateAll(o.linear, c.linear),
                                     AccumulateAll(o.quadratic, SortKeys(c.quadratic))), x)
      == ObjectiveValue(o, x) + ObjectiveOf(x)(c)
  {
    TotalAccumulateAll(o.linear, c.linear, BitOf(x));
    TotalAccumulateAll(o.quadratic, SortKeys(c.quadratic), PairOf(x));
    SortKeysKeepsTotal(c.quadratic, x);
    hide Total, AccumulateAll;
  }

  lemma {:induction false} ObjectiveIsSum(calls: seq<Call>, x: Assignment)
    ensures ObjectiveValue(Build(calls).objective, x) == Sum(calls, ObjectiveOf(x))
  {
    if calls != [] {
      var init, last := calls[..|calls| - 1], calls[|calls| - 1];
      ObjectiveIsSum(init, x);
      SumSnoc(calls, ObjectiveOf(x));
      if last.ExtendObjective? {
        ExtendedValue(Build(init).objective, last, x);
      }
      hide ObjectiveValue, AccumulateAll, Sum;
    }
  }

  lemma {:induction false} PenaltyIsSum(calls: seq<Call>, x: Assignment)
    ensures PenaltyValue(Build(calls).penalties, x) == Sum(calls, PenaltyOfCall(x))
  {
    if calls != [] {
      var init, last := calls[..|calls| - 1], calls[|calls| - 1];
      var penalties := Build(calls).penalties;
      PenaltyIsSum(init, x);
      SumSnoc(calls, PenaltyOfCall(x));
      PenaltiesAreSum(Build(init).penalties, x);
      PenaltiesAreSum(penalties, x);
      if last.PostPenalty? {
        SumSnoc(penalties, PenaltyOf(x));
        assert penalties[..|penalties| - 1] == Build(init).penalties;
      }
      hide PenaltyValue, PenaltyOf, Sum;
    }
  }

  // ---- The exact condition ----

  ghost predicate NoObjective(p: Problem) {
    forall x :: ObjectiveValue(p.objective, x) == 0.0
  }

  ghost predicate SameViolations(p: Problem, q: Problem) {
    forall x :: SquaredViolations(p.constraints, x) == SquaredViolations(q.constraints, x)
  }

  ghost predicate SameEnergy(p: Problem, q: Problem, x: Assignment) {
    forall weight :: SourceEnergy(p, weight, x) == SourceEnergy(q, weight, x)
  }

  lemma SameTranslationsMeaning(p: Problem, q: Problem)
    ensures SameTranslations(p, q) <==> forall x :: SameEnergy(p, q, x)
  {
    forall weight
      ensures SameTranslation(p, q, weight) <==> forall x :: SourceEnergy(p, weight, x) == SourceEnergy(q, weight, x)
    {
      SameMeaningSameMatrix(p, q, weight);
    }
    hide SameTranslation, SourceEnergy;
    if SameTranslations(p, q) {
      forall weight, x
        ensures SourceEnergy(p, weight, x) == SourceEnergy(q, weight, x)
      {
        assert SameTranslation(p, q, weight);
      }
    }
    if forall x :: SameEnergy(p, q, x) {
      forall weight
        ensures SameTranslation(p, q, weight)
      {
        assert forall x :: SameEnergy(p, q, x) ==> SourceEnergy(p, weight, x) == SourceEnergy(q, weight, x);
      }
    }
  }

  lemma EnergyAt(p: Problem, weight: real, x: Assignment)
    ensures SourceEnergy(p, weight, x)
      == Sign(p.objective) * ObjectiveValue(p.objective, x) + weight * SquaredViolations(p.constraints, x)
         + PenaltyValue(p.penalties, x)
  {
  }

  /** The objective and the violations at an assignment can be told from the energies at two weights. */
  lemma SameEnergyIff(p: Problem, q: Problem, x: Assignment)
    requires ObjectiveValue(p.objective, x) == ObjectiveValue(q.objective, x)
    requires PenaltyValue(p.penalties, x) == PenaltyValue(q.penalties, x)
    ensures SameEnergy(p, q, x) <==>
      && (Sign(p.objective) == Sign(q.objective) || ObjectiveValue(p.objective, x) == 0.0)
      && SquaredViolations(p.constraints, x) == SquaredViolations(q.constraints, x)
  {
    var s, t, o := Sign(p.objective), Sign(q.objective), ObjectiveValue(p.objective, x);
    assert (s == 1.0 || s == -1.0) && (t == 1.0 || t == -1.0);
    forall weight
      ensures SourceEnergy(p, weight, x) == SourceEnergy(q, weight, x) <==>
        s * o + weight * SquaredViolations(p.constraints, x) == t * o + weight * SquaredViolations(q.constraints, x)
    {
      EnergyAt(p, weight, x);
      EnergyAt(q, weight, x);
    }
    hide SourceEnergy, ObjectiveValue, SquaredViolations, PenaltyValue, Sign;
    if SameEnergy(p, q, x) {
      assert SourceEnergy(p, 0.0, x) == SourceEnergy(q, 0.0, x);
      assert SourceEnergy(p, 1.0, x) == SourceEnergy(q, 1.0, x);
    }
  }

  /** Calls in another order give the same translation for every weight exactly when the sense is taken the same way,
      unless there is nothing to optimise, and the stored constraints amount to the same violation everywhere. */
  lemma PermutedCallsAgreeIff(a: seq<Call>, b: seq<Call>)
    requires multiset(a) == multiset(b)
    ensures SameTranslations(Build(a), Build(b)) <==>
      && (Sign(Build(a).objective) == Sign(Build(b).objective) || NoObjective(Build(a)))
      && SameViolations(Build(a), Build(b))
  {
    var p, q := Build(a), Build(b);
    forall x
      ensures SameEnergy(p, q, x) <==>
        && (Sign(p.objective) == Sign(q.objective) || ObjectiveValue(p.objective, x) == 0.0)
        && SquaredViolations(p.constraints, x) == SquaredViolations(q.constraints, x)
    {
      SumsAgree(a, b, x);
      SameEnergyIff(p, q, x);
    }
    SameTranslationsMeaning(p, q);
    hide SourceEnergy, ObjectiveValue, SquaredViolations, Sign, SameTranslations, Build, SameEnergy;
  }

  lemma SumsAgree(a: seq<Call>, b: seq<Call>, x: Assignment)
    requires multiset(a) == multiset(b)
    ensures ObjectiveValue(Build(a).objective, x) == ObjectiveValue(Build(b).objective, x)
    ensures PenaltyValue(Build(a).penalties, x) == PenaltyValue(Build(b).penalties, x)
  {
    hide *;
    ObjectiveIsSum(a, x);
    ObjectiveIsSum(b, x);
    PenaltyIsSum(a, x);
    PenaltyIsSum(b, x);
    SumPermutation(a, b, ObjectiveOf(x));
    SumPermutation(a, b, PenaltyOfCall(x));
  }

  // ---- Which constraints are stored ----

  predicate Posts(calls: seq<Call>, i: nat)
    requires i < |calls|
  {
    calls[i].PostConstraint? && AllDeclared(Build(calls[..i]).variables, calls[i].terms)
  }

  /** The post is accepted, and no later one under its name is. */
  ghost predicate LastPost(calls: seq<Call>, i: nat)
    requires i < |calls|
  {
    && Posts(calls, i)
    && forall j :: i < j < |calls| && Posts(calls, j) ==> calls[j].name != calls[i].name
  }

  function Posted(call: Call): Item<string, Constraint>
    requires call.PostConstraint?
  {
    Item(call.name, Constraint(call.sense, call.rhs, AccumulateAll([], call.terms)))
  }

  ghost predicate Stores(calls: seq<Call>, item: Item<string, Constraint>) {
    exists i :: 0 <= i < |calls| && LastPost(calls, i) && Posted(calls[i]) == item
  }

  lemma {:induction false} PutMembers<K, V>(d: Dict<K, V>, key: K, value: V, item: Item<K, V>)
    requires UniqueKeys(d)
    ensures item in Put(d, key, value) <==> item == Item(key, value) || (item in d && item.key != key)
  {
    if d != [] {
      assert forall i :: 0 <= i < |d[1..]| ==> d[1..][i] == d[i + 1];
      assert d == [d[0]] + d[1..];
      PutMembers(d[1..], key, value, item);
    }
  }

  lemma StoresSnoc(calls: seq<Call>, call: Call, item: Item<string, Constraint>)
    ensures Stores(calls + [call], item) <==>
      if Posts(calls + [call], |calls|) then
        item == Posted(call) || (Stores(calls, item) && item.key != call.name)
      else Stores(calls, item)
  {
    var longer, n := calls + [call], |calls|;
    assert longer[n] == call;
    forall i | 0 <= i < n
      ensures longer[i] == calls[i] && (Posts(longer, i) <==> Posts(calls, i))
    {
      assert longer[..i] == calls[..i];
    }
    hide Posts, AccumulateAll;
    forall i | 0 <= i < n && Posts(calls, i)
      ensures LastPost(longer, i) <==> LastPost(calls, i) && (Posts(longer, n) ==> call.name != calls[i].name)
    {
    }
    assert Posts(longer, n) ==> LastPost(longer, n);
    if Stores(calls, item) {
      var i :| 0 <= i < n && LastPost(calls, i) && Posted(calls[i]) == item;
      assert LastPost(longer, i) <==> !(Posts(longer, n) && call.name == calls[i].name);
    }
  }

  /** A problem holds, for each name, the constraint that was accepted last. */
  lemma {:induction false} StoredAreLast(calls: seq<Call>, item: Item<string, Constraint>)
    ensures UniqueKeys(Build(calls).constraints)
    ensures item in Build(calls).constraints <==> Stores(calls, item)
  {
    if calls != [] {
      var init, last := calls[..|calls| - 1], calls[|calls| - 1];
      assert calls == init + [last];
      StoredAreLast(init, item);
      StoresSnoc(init, last, item);
      if last.PostConstraint? {
        var d := Build(init).constraints;
        var added := Constraint(last.sense, last.rhs, AccumulateAll([], last.terms));
        PutMembers(d, last.name, added, item);
        PutKeepsUnique(d, last.name, added);
      }
      hide Stores, AccumulateAll, AllDeclared, UniqueKeys;
    }
  }

  lemma {:induction false} CountOfItem<K, V>(d: Dict<K, V>, item: Item<K, V>)
    requires UniqueKeys(d)
    ensures multiset(d)[item] == if item in d then 1 else 0
  {
    if d != [] {
      assert forall i :: 0 <= i < |d[1..]| ==> d[1..][i] == d[i + 1];
      assert d == [d[0]] + d[1..];
      CountOfItem(d[1..], item);
    }
  }

  /** The sense given last, which is the one that counts. */
  function LastSense(calls: seq<Call>): string {
    if calls == [] then "minimize"
    else
      var last := calls[|calls| - 1];
      if last.ExtendObjective? then last.sense else LastSense(calls[..|calls| - 1])
  }

  lemma {:induction false} SenseIsLast(calls: seq<Call>)
    ensures Build(calls).objective.sense == LastSense(calls)
  {
    if calls != [] {
      SenseIsLast(calls[..|calls| - 1]);
    }
  }

  /** Calls in another order agree as soon as the same sense comes last, and for each constraint name the same
      accepted constraint. */
  lemma LastCallsDecide(a: seq<Call>, b: seq<Call>)
    requires multiset(a) == multiset(b) && LastSense(a) == LastSense(b)
    requires forall item :: Stores(a, item) <==> Stores(b, item)
    ensures SameTranslations(Build(a), Build(b))
  {
    var c, d := Build(a).constraints, Build(b).constraints;
    SenseIsLast(a);
    SenseIsLast(b);
    forall item
      ensures multiset(c)[item] == multiset(d)[item]
    {
      StoredAreLast(a, item);
      StoredAreLast(b, item);
      CountOfItem(c, item);
      CountOfItem(d, item);
    }
    assert multiset(c) == multiset(d);
    forall x
      ensures SquaredViolations(c, x) == SquaredViolations(d, x)
    {
      ViolationsAreSum(c, x);
      ViolationsAreSum(d, x);
      SumPermutation(c, d, ViolationOf(x));
    }
    hide Stores, LastSense, SquaredViolations, SameTranslations, NoObjective;
    PermutedCallsAgreeIff(a, b);
  }

  // ---- Orders that matter ----

  const DECLARE_V := DeclareVariable("v", "binary")
  const V_IS_0 := PostConstraint("c", [Item("v", 1.0)], "==", 0.0)
  const V_IS_1 := PostConstraint("c", [Item("v", 1.0)], "==", 1.0)
  const MINIMISE_V := ExtendObjective([Item("v", 1.0)], [], "minimize")
  const MAXIMISE := ExtendObjective([], [], "maximize")

  lemma OneTerm(x: Assignment)
    ensures LinearValue([Item("v", 1.0)], x) == Bit(x, "v")
  {
    assert Total([Item("v", 1.0)], BitOf(x)) == Times(1.0, BitOf(x)("v")) + Total([], BitOf(x));
  }

  lemma BuiltConstraint(last: Call, other: Call)
    requires last in [V_IS_0, V_IS_1] && other in [V_IS_0, V_IS_1]
    ensures Build([DECLARE_V, other, last]).constraints == [Item("c", Constraint("==", last.rhs, [Item("v", 1.0)]))]
  {
    var calls := [DECLARE_V, other, last];
    assert calls[..2] == [DECLARE_V, other] && calls[..2][..1] == [DECLARE_V] && calls[..1][..0] == [];
    assert Build([]) == NO_PROBLEM;
    var p := Build([DECLARE_V]);
    assert [DECLARE_V][..0] == [];
    assert p.variables == [Item("v", "binary")] && p.constraints == [];
    assert p.variables[0].key == "v";
    assert AllDeclared(p.variables, [Item("v", 1.0)]);
    assert AccumulateAll([], [Item("v", 1.0)]) == [Item("v", 1.0)] by {
      assert [Item("v", 1.0)][1..] == [];
    }
    assert Build([DECLARE_V, other]) == Apply(p, other);
    assert Build(calls) == Apply(Build([DECLARE_V, other]), last);
  }

  /** Two constraints under one name: the order decides which of them is stored. */
  lemma SameNameOrderMatters()
    ensures !SameTranslations(Build([DECLARE_V, V_IS_0, V_IS_1]), Build([DECLARE_V, V_IS_1, V_IS_0]))
  {
    var a, b := [DECLARE_V, V_IS_0, V_IS_1], [DECLARE_V, V_IS_1, V_IS_0];
    assert multiset(a) == multiset(b);
    BuiltConstraint(V_IS_1, V_IS_0);
    BuiltConstraint(V_IS_0, V_IS_1);
    OneTerm({});
    var c, d := Build(a).constraints, Build(b).constraints;
    assert c[1..] == [] && d[1..] == [];
    hide Build, LinearValue, SameTranslations;
    assert SquaredViolations(c, {}) == 1.0 && SquaredViolations(d, {}) == 0.0;
    PermutedCallsAgreeIff(a, b);
  }

  lemma SumOfTwo<T>(s: T, t: T, f: T -> real)
    ensures Sum([s, t], f) == f(s) + f(t)
  {
    assert Sum([s, t], f) == f(s) + Sum([t], f);
    assert Sum([t], f) == f(t) + Sum([], f);
  }

  lemma ValueOfV(calls: seq<Call>)
    requires calls == [MINIMISE_V, MAXIMISE]
    ensures ObjectiveValue(Build(calls).objective, {"v"}) == 1.0
  {
    ObjectiveIsSum(calls, {"v"});
    SumOfTwo(MINIMISE_V, MAXIMISE, ObjectiveOf({"v"}));
    OneTerm({"v"});
    hide Build, LinearValue;
    assert LinearValue([], {"v"}) == 0.0 by {
      NoTerms({"v"});
    }
  }

  lemma NoTerms(x: Assignment)
    ensures LinearValue([], x) == 0.0
  {
  }

  lemma SensesOfTwo(first: Call, second: Call)
    requires first.ExtendObjective? && second.ExtendObjective?
    ensures LastSense([first, second]) == second.sense
  {
  }

  lemma Swapped<T>(s: T, t: T)
    ensures multiset([s, t]) == multiset([t, s])
  {
  }

  lemma SensesDisagree(a: seq<Call>, b: seq<Call>)
    requires multiset(a) == multiset(b) && LastSense(a) == "maximize" && LastSense(b) == "minimize"
    requires ObjectiveValue(Build(a).objective, {"v"}) == 1.0
    ensures !SameTranslations(Build(a), Build(b))
  {
    SenseIsLast(a);
    SenseIsLast(b);
    hide Build, LastSense, ObjectiveValue, SameTranslations;
    PermutedCallsAgreeIff(a, b);
  }

  /** Two senses: the order decides which of them applies to all terms. */
  lemma SenseOrderMatters()
    ensures !SameTranslations(Build([MINIMISE_V, MAXIMISE]), Build([MAXIMISE, MINIMISE_V]))
  {
    Swapped(MINIMISE_V, MAXIMISE);
    SensesOfTwo(MINIMISE_V, MAXIMISE);
    SensesOfTwo(MAXIMISE, MINIMISE_V);
    ValueOfV([MINIMISE_V, MAXIMISE]);
    hide Build, LastSense, ObjectiveValue, SameTranslations;
    SensesDisagree([MINIMISE_V, MAXIMISE], [MAXIMISE, MINIMISE_V]);
  }
}
