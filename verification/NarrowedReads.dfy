/** Which type a read is given.  It is decided by the way to the read alone: by the
    outcomes of the conditions it stands under, the assertions before it and the
    assignments in between. */
module NarrowedReads {
  import opened NarrowedTypes
  import opened FlowNarrowing
  import opened NarrowedRuns

  /** What happens on the way: a condition had an outcome, or a variable was assigned. */
  datatype Event = Held(condition: Condition, outcome: bool) | Forgot(variable: Variable)

  /** What is known after the events, when `env` was known before. */
  function Known(declared: Declared, env: Environment, events: seq<Event>): Environment {
    if events == [] then env
    else KnownAfter(declared, Known(declared, env, events[..|events| - 1]), events[|events| - 1])
  }

  function KnownAfter(declared: Declared, env: Environment, event: Event): Environment {
    match event
    case Held(condition, outcome) => Apply(env, ReduceCondition(declared, env, condition), outcome)
    case Forgot(variable) => env - {variable}
  }

  lemma {:induction false} KnownInTurn(declared: Declared, env: Environment, a: seq<Event>, b: seq<Event>)
    ensures Known(declared, env, a + b) == Known(declared, Known(declared, env, a), b)
    decreases |b|
  {
    if b == [] {
      assert a + b == a;
    } else {
      KnownInTurn(declared, env, a, b[..|b| - 1]);
      assert (a + b)[..|a + b| - 1] == a + b[..|b| - 1];
    }
  }

  /** From the outside inwards: which statement of the suite, and which of its
      blocks, until the statement itself. */
  datatype Way = Here(index: nat) | Inside(index: nat, whenTrue: bool, rest: Way)

  predicate Leads(ss: seq<Stmt>, way: Way)
    decreases way
  {
    way.index < |ss| && (way.Inside? ==> Leads(BlockOf(ss[way.index], way.whenTrue), way.rest))
  }

  function BlockOf(s: Stmt, whenTrue: bool): seq<Stmt> {
    match s
    case If(_, yes, no) => if whenTrue then yes else no
    case While(_, loop) => if whenTrue then loop else []
    case _ => []
  }

  function StatementAt(ss: seq<Stmt>, way: Way): Stmt
    requires Leads(ss, way)
    decreases way
  {
    if way.Here? then ss[way.index] else StatementAt(BlockOf(ss[way.index], way.whenTrue), way.rest)
  }

  /** What a statement leaves behind: an assertion holds, an assignment is made, and
      what held inside a block is forgotten. */
  function Behind(s: Stmt): seq<Event> {
    match s
    case Assign(target) => [Forgot(target)]
    case Assert(condition) => [Held(condition, true)]
    case _ => []
  }

  function BehindAll(ss: seq<Stmt>): seq<Event> {
    if ss == [] then [] else BehindAll(ss[..|ss| - 1]) + Behind(ss[|ss| - 1])
  }

  function Entering(s: Stmt, whenTrue: bool): seq<Event> {
    match s
    case If(condition, _, _) => [Held(condition, whenTrue)]
    case While(condition, _) => [Held(condition, true)]
    case _ => []
  }

  /** Everything that happens on the way, in order. */
  function EventsTo(ss: seq<Stmt>, way: Way): seq<Event>
    requires Leads(ss, way)
    decreases way
  {
    BehindAll(ss[..way.index]) +
    if way.Here? then []
    else Entering(ss[way.index], way.whenTrue) + EventsTo(BlockOf(ss[way.index], way.whenTrue), way.rest)
  }

  lemma KnownOnce(declared: Declared, env: Environment, event: Event)
    ensures Known(declared, env, [event]) == KnownAfter(declared, env, event)
  {
    assert [event][..0] == [];
  }

  lemma StatementLeaves(declared: Declared, env: Environment, s: Stmt)
    ensures Analyze(declared, env, s, false).1 == Known(declared, env, Behind(s))
  {
    if Behind(s) != [] {
      KnownOnce(declared, env, Behind(s)[0]);
    }
  }

  lemma {:induction false} AnalysisStandsAt(declared: Declared, env: Environment, ss: seq<Stmt>, k: nat)
    requires k < |ss|
    ensures var typed := AnalyzeSuite(declared, env, ss, false).0;
            |typed| == |ss|
            && typed[k] == Analyze(declared, Known(declared, env, BehindAll(ss[..k])), ss[k], false).0
    decreases |ss|
  {
    var first := Analyze(declared, env, ss[0], false);
    StatementLeaves(declared, env, ss[0]);
    if |ss| > 1 {
      AnalysisStandsAt(declared, first.1, ss[1..], if k > 0 then k - 1 else 0);
    }
    if k > 0 {
      BehindFirst(ss[..k]);
      assert ss[..k][1..] == ss[1..][..k - 1];
      KnownInTurn(declared, env, Behind(ss[0]), BehindAll(ss[1..][..k - 1]));
    }
  }

  lemma Regroup(a: seq<Event>, b: seq<Event>, c: seq<Event>)
    ensures (a + b) + c == a + (b + c)
  {
  }

  lemma {:induction false} BehindFirst(ss: seq<Stmt>)
    requires ss != []
    ensures BehindAll(ss) == Behind(ss[0]) + BehindAll(ss[1..])
    decreases |ss|
  {
    var n := |ss| - 1;
    if n == 0 {
      assert ss[..n] == [] && ss[1..] == [];
    } else {
      var front, tail := ss[..n], ss[1..];
      BehindFirst(front);
      assert tail[..n - 1] == front[1..] && tail[n - 1] == ss[n] && front[0] == ss[0];
      Regroup(Behind(ss[0]), BehindAll(front[1..]), Behind(ss[n]));
    }
  }

  lemma EnteringBlock(declared: Declared, env: Environment, s: Stmt, whenTrue: bool)
    requires BlockOf(s, whenTrue) != []
    ensures BlockOf(Analyze(declared, env, s, false).0, whenTrue) ==
            AnalyzeSuite(declared, Known(declared, env, Entering(s, whenTrue)), BlockOf(s, whenTrue), false).0
  {
    KnownOnce(declared, env, Entering(s, whenTrue)[0]);
  }

  /** Every statement of a body, however deep, is analysed with exactly what the
      events on the way to it show. */
  lemma {:induction false} StatementsAreTypedAsKnown(declared: Declared, env: Environment, ss: seq<Stmt>, way: Way)
    requires Leads(ss, way)
    ensures var typed := AnalyzeSuite(declared, env, ss, false).0;
            Leads(typed, way) &&
            StatementAt(typed, way) ==
            Analyze(declared, Known(declared, env, EventsTo(ss, way)), StatementAt(ss, way), false).0
    decreases way
  {
    AnalysisStandsAt(declared, env, ss, way.index);
    var here := Known(declared, env, BehindAll(ss[..way.index]));
    if way.Here? {
      assert EventsTo(ss, way) == BehindAll(ss[..way.index]);
    } else {
      var s := ss[way.index];
      var block := BlockOf(s, way.whenTrue);
      EnteringBlock(declared, here, s, way.whenTrue);
      StatementsAreTypedAsKnown(declared, Known(declared, here, Entering(s, way.whenTrue)), block, way.rest);
      KnownInTurn(declared, here, Entering(s, way.whenTrue), EventsTo(block, way.rest));
      KnownInTurn(declared, env, BehindAll(ss[..way.index]),
                  Entering(s, way.whenTrue) + EventsTo(block, way.rest));
    }
  }

  /** A read gets the type that is known of its local at that place. */
  lemma ReadsAreTypedAsKnown(declared: Declared, ss: seq<Stmt>, way: Way)
    requires Leads(ss, way) && StatementAt(ss, way).Use? && StatementAt(ss, way).operand.Name?
    ensures var typed := AnalyzeSuite(declared, map[], ss, false).0;
            var v := StatementAt(ss, way).operand.variable;
            && Leads(typed, way) && StatementAt(typed, way).Use?
            && StatementAt(typed, way).operand
               == Name(v, Lookup(declared, Known(declared, map[], EventsTo(ss, way)), v))
  {
    StatementsAreTypedAsKnown(declared, map[], ss, way);
  }

  /** An assignment makes everything forgotten that was known of its target, and
      nothing else. */
  lemma AssignmentsForget(declared: Declared, env: Environment, events: seq<Event>, v: Variable, u: Variable)
    ensures var before, behind := Known(declared, env, events), Known(declared, env, events + [Forgot(v)]);
            Lookup(declared, behind, u) == if u == v then declared(v) else Lookup(declared, before, u)
  {
    assert (events + [Forgot(v)])[..|events|] == events;
  }

  // ---------------------------------------------------------------- conditions

  /** Every identifier of the condition has the type that is known of it in `env`. */
  predicate ReadsAs(declared: Declared, env: Environment, c: Condition) {
    match c
    case And(left, right) => ReadsAs(declared, env, left) && ReadsAs(declared, env, right)
    case Compare(_, first, second) => OperandReadsAs(declared, env, first) && OperandReadsAs(declared, env, second)
    case TypeTest(operand, _) => OperandReadsAs(declared, env, operand)
    case Not(inner) => ReadsAs(declared, env, inner)
    case Other(operands) => forall i :: 0 <= i < |operands| ==> OperandReadsAs(declared, env, operands[i])
  }

  predicate OperandReadsAs(declared: Declared, env: Environment, o: Operand) {
    o.Name? ==> o.typ == if o.variable.Local? && o.variable in env then env[o.variable] else declared(o.variable)
  }

  lemma {:induction false} ReducedReadsAs(declared: Declared, env: Environment, c: Condition)
    ensures ReadsAs(declared, env, ReduceExpression(declared, env, c))
    decreases c
  {
    match c
    case And(left, right) =>
      ReducedReadsAs(declared, env, left);
      ReducedReadsAs(declared, env, right);
    case Not(inner) => ReducedReadsAs(declared, env, inner);
    case _ =>
  }

  /** Each conjunct of a reduced condition is typed with what the conjuncts before
      it show, through any nesting of `and`. */
  lemma {:induction false} ConjunctsReadAsKnown(declared: Declared, env: Environment, c: Condition, i: nat)
    requires i < |Conjuncts(ReduceCondition(declared, env, c))|
    ensures var cs := Conjuncts(ReduceCondition(declared, env, c));
            ReadsAs(declared, AfterAll(env, cs[..i]), cs[i])
    decreases c
  {
    if c.And? {
      var l := ReduceCondition(declared, env, c.left);
      var inner := Apply(env, l, true);
      var r := ReduceCondition(declared, inner, c.right);
      var left, right := Conjuncts(l), Conjuncts(r);
      var cs := Conjuncts(ReduceCondition(declared, env, c));
      assert cs == left + right;
      if i < |left| {
        ConjunctsReadAsKnown(declared, env, c.left, i);
        assert cs[..i] == left[..i];
      } else {
        ConjunctsReadAsKnown(declared, inner, c.right, i - |left|);
        ConjunctsHoldInTurn(env, l);
        AfterBoth(env, left, right[..i - |left|]);
        assert cs[..i] == left + right[..i - |left|];
      }
    } else {
      ReducedReadsAs(declared, env, c);
      ReducedIsOneConjunct(declared, env, c);
      assert Conjuncts(ReduceCondition(declared, env, c))[..0] == [];
    }
  }

  /** The reduced condition is the condition with types written in; a test against a
      union is left without a type. */
  predicate IsReduced(c: Condition, r: Condition) {
    match c
    case And(left, right) => r.And? && IsReduced(left, r.left) && IsReduced(right, r.right)
    case Compare(equal, first, second) =>
      r.Compare? && r.equal == equal && SameOperand(first, r.first) && SameOperand(second, r.second)
    case TypeTest(operand, tested) =>
      r.TypeTest? && SameOperand(operand, r.operand)
      && if tested.kind.Union? then r.tested.kind.Unset? else r.tested == tested
    case Not(inner) => r.Not? && IsReduced(inner, r.inner)
    case Other(operands) =>
      r.Other? && |r.operands| == |operands|
      && forall i :: 0 <= i < |operands| ==> SameOperand(operands[i], r.operands[i])
  }

  predicate SameOperand(o: Operand, r: Operand) {
    if o.Name? then r.Name? && r.variable == o.variable else r == o
  }

  lemma {:induction false} ExpressionIsReduced(declared: Declared, env: Environment, c: Condition)
    ensures IsReduced(c, ReduceExpression(declared, env, c))
    decreases c
  {
    match c
    case And(left, right) =>
      ExpressionIsReduced(declared, env, left);
      ExpressionIsReduced(declared, env, right);
    case Not(inner) => ExpressionIsReduced(declared, env, inner);
    case _ =>
  }

  /** Reduction changes nothing but types. */
  lemma {:induction false} ConditionIsReduced(declared: Declared, env: Environment, c: Condition)
    ensures IsReduced(c, ReduceCondition(declared, env, c))
    decreases c
  {
    if c.And? {
      ConditionIsReduced(declared, env, c.left);
      ConditionIsReduced(declared, Apply(env, ReduceCondition(declared, env, c.left), true), c.right);
    } else {
      ExpressionIsReduced(declared, env, c);
    }
  }

  lemma ReducedIsOneConjunct(declared: Declared, env: Environment, c: Condition)
    requires !c.And?
    ensures Conjuncts(ReduceCondition(declared, env, c)) == [ReduceExpression(declared, env, c)]
  {
  }
}
