/** Narrowing the type of a variable by the condition under which it is read. */
module FlowNarrowing {
  import opened NarrowedTypes

  /** Only parameters, locals, iterators and binds are narrowed. */
  datatype Variable = Local(slot: nat) | Member(name: nat)

  /** The identifier keeps the type that reduction gave it. */
  datatype Operand = NullLiteral | Name(variable: Variable, typ: Type) | OtherOperand

  datatype Condition =
    | And(left: Condition, right: Condition)
    | Compare(equal: bool, first: Operand, second: Operand)
    | TypeTest(operand: Operand, tested: Type)
    | Not(inner: Condition)
    | Other(operands: seq<Operand>)

  type Declared = Variable -> Type
  type Environment = map<Variable, Type>
  type Store = Variable -> Value

  function Lookup(declared: Declared, env: Environment, v: Variable): Type {
    if v.Local? && v in env then env[v] else declared(v)
  }

  // ---------------------------------------------------------------- reduction

  function ReduceOperand(declared: Declared, env: Environment, o: Operand): Operand {
    if o.Name? then o.(typ := Lookup(declared, env, o.variable)) else o
  }

  /** A union has no runtime type: testing against one is reported and leaves the
      test without a type. */
  function ResolvedTest(tested: Type): Type {
    if tested.kind.Union? then UNSET else tested
  }

  /** Ordinary reduction knows nothing of narrowing between operands. */
  function ReduceExpression(declared: Declared, env: Environment, c: Condition): Condition {
    match c
    case And(left, right) => And(ReduceExpression(declared, env, left), ReduceExpression(declared, env, right))
    case Compare(equal, first, second) =>
      Compare(equal, ReduceOperand(declared, env, first), ReduceOperand(declared, env, second))
    case TypeTest(operand, tested) => TypeTest(ReduceOperand(declared, env, operand), ResolvedTest(tested))
    case Not(inner) => Not(ReduceExpression(declared, env, inner))
    case Other(operands) =>
      Other(seq(|operands|, i requires 0 <= i < |operands| => ReduceOperand(declared, env, operands[i])))
  }

  /** The right operand of `and` is read only once the left one held. */
  function ReduceCondition(declared: Declared, env: Environment, c: Condition): Condition
    decreases c
  {
    match c
    case And(left, right) =>
      var l := ReduceCondition(declared, env, left);
      And(l, ReduceCondition(declared, Apply(env, l, true), right))
    case _ => ReduceExpression(declared, env, c)
  }

  // ---------------------------------------------------------------- narrowing

  /** The identifier that is compared with null, if the outcome shows it is not. */
  function NullCheckCandidate(c: Condition, outcome: bool): Operand {
    if !c.Compare? || outcome != !c.equal then OtherOperand
    else
      var candidate := if c.first.NullLiteral? then c.second else if c.second.NullLiteral? then c.first
                                                                  else OtherOperand;
      if candidate.Name? && candidate.variable.Local? && candidate.typ.nullable then candidate else OtherOperand
  }

  predicate IsUsableTest(c: Condition) {
    c.TypeTest? && c.operand.Name? && c.operand.variable.Local? && !c.tested.kind.Unset?
  }

  /** A test of a local, plain or under one `not`. */
  predicate IsTypeTestCondition(c: Condition) {
    IsUsableTest(if c.Not? then c.inner else c)
  }

  function Apply(env: Environment, c: Condition, outcome: bool): Environment
    decreases c
  {
    if c.And? then
      if outcome then Apply(Apply(env, c.left, true), c.right, true) else env
    else if NullCheckCandidate(c, outcome).Name? then
      var candidate := NullCheckCandidate(c, outcome);
      env[candidate.variable := WithoutNull(candidate.typ)]
    else if IsTypeTestCondition(c) then
      var test := if c.Not? then c.inner else c;
      if outcome == !c.Not? then env[test.operand.variable := test.tested]
      else
        var narrowed := FailedTestType(test.operand.typ, test.tested);
        if narrowed == [] then env else env[test.operand.variable := narrowed[0]]
    else env
  }

  // ---------------------------------------------------------------- meaning

  ghost predicate OperandCanBe(store: Store, o: Operand, v: Value) {
    match o
    case NullLiteral => v.Null?
    case Name(variable, _) => v == store(variable)
    case OtherOperand => true
  }

  /** The outcomes a condition can have.  What is not modelled can have either. */
  ghost predicate CanBe(w: World, store: Store, c: Condition, outcome: bool) {
    match c
    case And(left, right) =>
      if outcome then CanBe(w, store, left, true) && CanBe(w, store, right, true)
      else CanBe(w, store, left, false) || (CanBe(w, store, left, true) && CanBe(w, store, right, false))
    case Compare(equal, first, second) =>
      exists a, b :: OperandCanBe(store, first, a) && OperandCanBe(store, second, b) && outcome == (equal == (a == b))
    case TypeTest(operand, tested) =>
      tested.kind.Unset? || exists v :: OperandCanBe(store, operand, v) && outcome == Passes(w, v, tested)
    case Not(inner) => CanBe(w, store, inner, !outcome)
    case Other(_) => true
  }

  ghost predicate OperandTyped(w: World, store: Store, o: Operand) {
    o.Name? ==> Holds(w, o.typ, store(o.variable)) && WellFormed(o.typ)
  }

  /** Every identifier that is evaluated has a value of its type. */
  ghost predicate WellTyped(w: World, store: Store, c: Condition) {
    match c
    case And(left, right) => WellTyped(w, store, left) && (CanBe(w, store, left, true) ==> WellTyped(w, store, right))
    case Compare(_, first, second) => OperandTyped(w, store, first) && OperandTyped(w, store, second)
    case TypeTest(operand, tested) => OperandTyped(w, store, operand)
    case Not(inner) => WellTyped(w, store, inner)
    case Other(operands) => forall i :: 0 <= i < |operands| ==> OperandTyped(w, store, operands[i])
  }

  /** The types that are written in the condition are in normal form. */
  predicate NormalTests(c: Condition) {
    match c
    case And(left, right) => NormalTests(left) && NormalTests(right)
    case TypeTest(_, tested) => WellFormed(tested)
    case Not(inner) => NormalTests(inner)
    case _ => true
  }

  /** Every variable has a value of the type that a read of it gets. */
  ghost predicate Sound(w: World, declared: Declared, env: Environment, store: Store) {
    forall v :: Holds(w, Lookup(declared, env, v), store(v)) && WellFormed(Lookup(declared, env, v))
  }

  lemma {:induction false} ReducedExpressionIsTyped(w: World, declared: Declared, env: Environment, store: Store,
                                                    c: Condition)
    requires Sound(w, declared, env, store) && NormalTests(c)
    ensures WellTyped(w, store, ReduceExpression(declared, env, c)) && NormalTests(ReduceExpression(declared, env, c))
    decreases c
  {
    match c
    case And(left, right) =>
      ReducedExpressionIsTyped(w, declared, env, store, left);
      ReducedExpressionIsTyped(w, declared, env, store, right);
    case Not(inner) => ReducedExpressionIsTyped(w, declared, env, store, inner);
    case _ =>
  }

  lemma Narrowed(w: World, declared: Declared, env: Environment, store: Store, v: Variable, t: Type)
    requires Sound(w, declared, env, store) && Holds(w, t, store(v)) && WellFormed(t)
    ensures Sound(w, declared, env[v := t], store)
  {
    forall u
      ensures Holds(w, Lookup(declared, env[v := t], u), store(u)) && WellFormed(Lookup(declared, env[v := t], u))
    {
      assert Lookup(declared, env[v := t], u) == if u == v && v.Local? then t else Lookup(declared, env, u);
    }
  }

  lemma TypeTestIsSound(w: World, declared: Declared, env: Environment, store: Store, c: Condition, outcome: bool)
    requires IsTypeTestCondition(c) && WellTyped(w, store, c) && NormalTests(c) && CanBe(w, store, c, outcome)
    requires Sound(w, declared, env, store)
    ensures Sound(w, declared, Apply(env, c, outcome), store)
  {
    var test := if c.Not? then c.inner else c;
    var matched := outcome == !c.Not?;
    assert CanBe(w, store, test, matched);
    var v := test.operand.variable;
    assert matched == Passes(w, store(v), test.tested);
    if matched {
      Narrowed(w, declared, env, store, v, test.tested);
    } else if FailedTestType(test.operand.typ, test.tested) != [] {
      FailedTestIsSound(w, test.operand.typ, test.tested, store(v));
      FailedTestIsExact(w, test.operand.typ, test.tested, store(v));
      Narrowed(w, declared, env, store, v, FailedTestType(test.operand.typ, test.tested)[0]);
    }
  }

  /** What an outcome shows about the variables is true of every store in which
      the condition has that outcome. */
  lemma {:induction false} ApplyIsSound(w: World, declared: Declared, env: Environment, store: Store, c: Condition,
                                        outcome: bool)
    requires WellTyped(w, store, c) && NormalTests(c) && CanBe(w, store, c, outcome)
    requires Sound(w, declared, env, store)
    ensures Sound(w, declared, Apply(env, c, outcome), store)
    decreases c
  {
    if c.And? {
      if outcome {
        ApplyIsSound(w, declared, env, store, c.left, true);
        ApplyIsSound(w, declared, Apply(env, c.left, true), store, c.right, true);
      }
    } else if NullCheckCandidate(c, outcome).Name? {
      var o := NullCheckCandidate(c, outcome);
      Narrowed(w, declared, env, store, o.variable, WithoutNull(o.typ));
    } else if IsTypeTestCondition(c) {
      TypeTestIsSound(w, declared, env, store, c, outcome);
    }
  }

  lemma {:induction false} ReducedExpressionCanBe(w: World, declared: Declared, env: Environment, store: Store,
                                                  c: Condition, outcome: bool)
    requires CanBe(w, store, c, outcome)
    ensures CanBe(w, store, ReduceExpression(declared, env, c), outcome)
    decreases c
  {
    match c
    case And(left, right) =>
      if CanBe(w, store, left, true) { ReducedExpressionCanBe(w, declared, env, store, left, true); }
      if CanBe(w, store, left, false) { ReducedExpressionCanBe(w, declared, env, store, left, false); }
      if CanBe(w, store, right, outcome) { ReducedExpressionCanBe(w, declared, env, store, right, outcome); }
    case Compare(equal, first, second) =>
      var a, b :| OperandCanBe(store, first, a) && OperandCanBe(store, second, b) && outcome == (equal == (a == b));
      assert OperandCanBe(store, ReduceOperand(declared, env, first), a);
      assert OperandCanBe(store, ReduceOperand(declared, env, second), b);
    case TypeTest(operand, tested) =>
      if !tested.kind.Unset? && !tested.kind.Union? {
        var v :| OperandCanBe(store, operand, v) && outcome == Passes(w, v, tested);
        assert OperandCanBe(store, ReduceOperand(declared, env, operand), v);
      }
    case Not(inner) => ReducedExpressionCanBe(w, declared, env, store, inner, !outcome);
    case Other(_) =>
  }

  /** Reduction only writes types: no outcome of the condition gets lost. */
  lemma {:induction false} ReducedConditionCanBe(w: World, declared: Declared, env: Environment, store: Store,
                                                 c: Condition, outcome: bool)
    requires CanBe(w, store, c, outcome)
    ensures CanBe(w, store, ReduceCondition(declared, env, c), outcome)
    decreases c
  {
    if c.And? {
      var l := ReduceCondition(declared, env, c.left);
      if CanBe(w, store, c.left, true) { ReducedConditionCanBe(w, declared, env, store, c.left, true); }
      if CanBe(w, store, c.left, false) { ReducedConditionCanBe(w, declared, env, store, c.left, false); }
      if CanBe(w, store, c.right, outcome) {
        ReducedConditionCanBe(w, declared, Apply(env, l, true), store, c.right, outcome);
      }
    } else {
      ReducedExpressionCanBe(w, declared, env, store, c, outcome);
    }
  }

  /** Reduction types every identifier of the condition soundly, whenever that
      identifier is evaluated at all. */
  lemma {:induction false} ReducedConditionIsTyped(w: World, declared: Declared, env: Environment, store: Store,
                                                   c: Condition)
    requires Sound(w, declared, env, store) && NormalTests(c)
    ensures WellTyped(w, store, ReduceCondition(declared, env, c)) && NormalTests(ReduceCondition(declared, env, c))
    decreases c
  {
    if c.And? {
      var l := ReduceCondition(declared, env, c.left);
      ReducedConditionIsTyped(w, declared, env, store, c.left);
      if CanBe(w, store, l, true) {
        ApplyIsSound(w, declared, env, store, l, true);
        ReducedConditionIsTyped(w, declared, Apply(env, l, true), store, c.right);
      }
      ReducedTestsAreNormal(declared, Apply(env, l, true), c.right);
    } else {
      ReducedExpressionIsTyped(w, declared, env, store, c);
    }
  }

  lemma {:induction false} ReducedTestsAreNormal(declared: Declared, env: Environment, c: Condition)
    requires NormalTests(c)
    ensures NormalTests(ReduceCondition(declared, env, c)) && NormalTests(ReduceExpression(declared, env, c))
    decreases c
  {
    match c
    case And(left, right) =>
      var l := ReduceCondition(declared, env, left);
      ReducedTestsAreNormal(declared, env, left);
      ReducedTestsAreNormal(declared, env, right);
      ReducedTestsAreNormal(declared, Apply(env, l, true), right);
    case Not(inner) => ReducedTestsAreNormal(declared, env, inner);
    case _ =>
  }

  /** Reducing a condition and applying an outcome it has in a store keeps the
      environment sound for that store. */
  lemma ConditionNarrowsSoundly(w: World, declared: Declared, env: Environment, store: Store, c: Condition,
                                outcome: bool)
    requires Sound(w, declared, env, store) && NormalTests(c)
    requires CanBe(w, store, c, outcome)
    ensures WellTyped(w, store, ReduceCondition(declared, env, c))
    ensures Sound(w, declared, Apply(env, ReduceCondition(declared, env, c), outcome), store)
  {
    ReducedConditionIsTyped(w, declared, env, store, c);
    ReducedConditionCanBe(w, declared, env, store, c, outcome);
    ApplyIsSound(w, declared, env, store, ReduceCondition(declared, env, c), outcome);
  }

  /** The local that a condition other than `and` tells something about when it
      has the outcome: one that is not equal to null, or one whose type is tested,
      plainly or under one `not`. */
  function Subject(c: Condition, outcome: bool): Operand {
    match c
    case Compare(equal, NullLiteral, Name(v, t)) =>
      if outcome != equal && v.Local? && t.nullable then Name(v, t) else OtherOperand
    case Compare(equal, Name(v, t), NullLiteral) =>
      if outcome != equal && v.Local? && t.nullable then Name(v, t) else OtherOperand
    case TypeTest(Name(v, t), tested) => if v.Local? && !tested.kind.Unset? then Name(v, t) else OtherOperand
    case Not(TypeTest(Name(v, t), tested)) => if v.Local? && !tested.kind.Unset? then Name(v, t) else OtherOperand
    case _ => OtherOperand
  }

  /** The type `now` of the subject says all that the outcome shows: a null check
      removes null and no more, a passed test leaves the tested type, and a
      failed one the alternatives that it does not name, or what there was. */
  ghost predicate SaysAll(w: World, c: Condition, outcome: bool, before: Type, now: Type, value: Value)
    requires Subject(c, outcome).Name?
  {
    var o := Subject(c, outcome);
    var test := if c.Not? then c.inner else c;
    if c.Compare? then
      AcceptsNull(WithoutNull(o.typ)) || (Holds(w, now, value) <==> Holds(w, o.typ, value) && value != Null)
    else if outcome == !c.Not? then now == test.tested
    else if FailedTestType(o.typ, test.tested) == [] then now == before
    else Holds(w, now, value) <==> Survives(w, o.typ, test.tested, value)
  }

  /** Nothing that an outcome shows is dropped, and nothing else is touched. */
  lemma NarrowingIsExact(w: World, declared: Declared, env: Environment, c: Condition, outcome: bool, value: Value)
    requires Subject(c, outcome).Name? && WellFormed(Subject(c, outcome).typ)
    ensures var v := Subject(c, outcome).variable;
            SaysAll(w, c, outcome, Lookup(declared, env, v), Lookup(declared, Apply(env, c, outcome), v), value)
    ensures forall u :: u != Subject(c, outcome).variable ==>
            Lookup(declared, Apply(env, c, outcome), u) == Lookup(declared, env, u)
  {
    var o := Subject(c, outcome);
    if c.Compare? {
      if !AcceptsNull(WithoutNull(o.typ)) && Holds(w, WithoutNull(o.typ), Null) {
        NullNeedsAcceptance(w, WithoutNull(o.typ));
      }
    } else {
      var test := if c.Not? then c.inner else c;
      if outcome != !c.Not? && FailedTestType(o.typ, test.tested) != [] {
        FailedTestIsExact(w, o.typ, test.tested, value);
      }
    }
  }

  /** Without a subject nothing is narrowed; so it is for an `and` that came out
      false. */
  lemma NothingElseNarrows(env: Environment, c: Condition, outcome: bool)
    requires if c.And? then !outcome else Subject(c, outcome) == OtherOperand
    ensures Apply(env, c, outcome) == env
  {
  }

  // ---------------------------------------------------------------- conjunctions

  /** What a nest of `and` is made of, from left to right. */
  function Conjuncts(c: Condition): (cs: seq<Condition>)
    ensures |cs| >= 1 && forall i :: 0 <= i < |cs| ==> !cs[i].And?
  {
    if c.And? then Conjuncts(c.left) + Conjuncts(c.right) else [c]
  }

  /** The environment after the conjuncts have held one after the other. */
  function AfterAll(env: Environment, cs: seq<Condition>): Environment {
    if cs == [] then env else Apply(AfterAll(env, cs[..|cs| - 1]), cs[|cs| - 1], true)
  }

  lemma {:induction false} AfterBoth(env: Environment, a: seq<Condition>, b: seq<Condition>)
    ensures AfterAll(env, a + b) == AfterAll(AfterAll(env, a), b)
    decreases |b|
  {
    if b == [] {
      assert a + b == a;
    } else {
      AfterBoth(env, a, b[..|b| - 1]);
      assert (a + b)[..|a + b| - 1] == a + b[..|b| - 1];
    }
  }

  lemma {:induction false} ConjunctsHoldInTurn(env: Environment, c: Condition)
    ensures Apply(env, c, true) == AfterAll(env, Conjuncts(c))
    decreases c
  {
    if c.And? {
      ConjunctsHoldInTurn(env, c.left);
      ConjunctsHoldInTurn(Apply(env, c.left, true), c.right);
      AfterBoth(env, Conjuncts(c.left), Conjuncts(c.right));
    } else {
      assert AfterAll(env, [c][..0]) == env;
    }
  }

  predicate Concerns(c: Condition, v: Variable) {
    Subject(c, true).Name? && Subject(c, true).variable == v
  }

  lemma {:induction false} LaterConjunctsKeep(declared: Declared, env: Environment, cs: seq<Condition>, i: nat,
                                              v: Variable)
    requires i <= |cs| && forall j :: i <= j < |cs| ==> !cs[j].And? && !Concerns(cs[j], v)
    ensures Lookup(declared, AfterAll(env, cs), v) == Lookup(declared, AfterAll(env, cs[..i]), v)
    decreases |cs| - i
  {
    if i == |cs| {
      assert cs[..i] == cs;
    } else {
      LaterConjunctsKeep(declared, env, cs, i + 1, v);
      assert cs[..i + 1][..i] == cs[..i];
      OneConjunctKeeps(declared, AfterAll(env, cs[..i]), cs[i], v);
    }
  }

  lemma OneConjunctKeeps(declared: Declared, env: Environment, c: Condition, v: Variable)
    requires !c.And? && !Concerns(c, v)
    ensures Lookup(declared, Apply(env, c, true), v) == Lookup(declared, env, v)
  {
    if Subject(c, true) == OtherOperand {
      NothingElseNarrows(env, c, true);
    }
  }

  /** A condition that came out true narrows by each of its conjuncts, through any
      nesting of `and`: the last conjunct about a local leaves it the type that
      says all that this conjunct shows. */
  lemma EachConjunctNarrows(w: World, declared: Declared, env: Environment, c: Condition, i: nat, value: Value)
    requires i < |Conjuncts(c)| && Subject(Conjuncts(c)[i], true).Name?
    requires WellFormed(Subject(Conjuncts(c)[i], true).typ)
    requires forall j :: i < j < |Conjuncts(c)| ==> !Concerns(Conjuncts(c)[j], Subject(Conjuncts(c)[i], true).variable)
    ensures var v := Subject(Conjuncts(c)[i], true).variable;
            SaysAll(w, Conjuncts(c)[i], true, Lookup(declared, AfterAll(env, Conjuncts(c)[..i]), v),
                    Lookup(declared, Apply(env, c, true), v), value)
  {
    var cs := Conjuncts(c);
    var v := Subject(cs[i], true).variable;
    ConjunctsHoldInTurn(env, c);
    LaterConjunctsKeep(declared, env, cs, i + 1, v);
    assert cs[..i + 1][..i] == cs[..i];
    NarrowingIsExact(w, declared, AfterAll(env, cs[..i]), cs[i], true, value);
  }

  /** A local that no conjunct is about keeps its type. */
  lemma OtherVariablesKeepTheirTypes(declared: Declared, env: Environment, c: Condition, v: Variable)
    requires forall j :: 0 <= j < |Conjuncts(c)| ==> !Concerns(Conjuncts(c)[j], v)
    ensures Lookup(declared, Apply(env, c, true), v) == Lookup(declared, env, v)
  {
    ConjunctsHoldInTurn(env, c);
    LaterConjunctsKeep(declared, env, Conjuncts(c), 0, v);
    assert Conjuncts(c)[..0] == [];
  }
}
