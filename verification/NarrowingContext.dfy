/** The narrowing analysis as it runs: one table of narrowed types that is
    changed on the way into a block and put back on the way out. */
module NarrowingContext {
  import opened NarrowedTypes
  import opened FlowNarrowing
  import opened NarrowedRuns

  class FlowContext {
    const declared: Declared
    var narrowed: Environment

    constructor (declared: Declared)
      ensures this.declared == declared && narrowed == map[]
    {
      this.declared := declared;
      narrowed := map[];
    }

    method LookupNarrowed(o: Operand) returns (reduced: Operand)
      ensures reduced == ReduceOperand(declared, narrowed, o)
    {
      if !o.Name? { return o; }
      var typ := declared(o.variable);
      if o.variable.Local? && o.variable in narrowed {
        typ := narrowed[o.variable];
      }
      return o.(typ := typ);
    }

    method ReduceConditionExpression(c: Condition) returns (reduced: Condition)
      modifies this
      ensures reduced == ReduceCondition(declared, old(narrowed), c)
      ensures narrowed == old(narrowed)
      decreases c
    {
      if c.And? {
        var left := ReduceConditionExpression(c.left);
        var previous := narrowed;
        ApplyFromCondition(left, true);
        var right := ReduceConditionExpression(c.right);
        narrowed := previous;
        return And(left, right);
      }
      return ReduceExpression(declared, narrowed, c);
    }

    method ApplyFailedTypeTest(o: Operand, tested: Type)
      requires o.Name? && o.variable.Local? && !tested.kind.Unset?
      modifies this
      ensures narrowed == if FailedTestType(o.typ, tested) == [] then old(narrowed)
                          else old(narrowed)[o.variable := FailedTestType(o.typ, tested)[0]]
    {
      var sets := AlternativeSet(o.typ);
      if sets == [] { return; }
      var alternatives := sets[0].kind.members;
      var survivors: seq<Type> := [];
      for i := 0 to |alternatives|
        invariant survivors == Survivors(tested, alternatives[..i])
        invariant narrowed == old(narrowed)
      {
        assert alternatives[..i + 1][..i] == alternatives[..i];
        if !Subsumes(tested, alternatives[i]) {
          survivors := survivors + [alternatives[i]];
        }
      }
      assert alternatives[..|alternatives|] == alternatives;
      if survivors == [] || |survivors| == |alternatives| { return; }
      var union := MakeUnionOf(survivors);
      if union.kind.Unset? { return; }
      narrowed := narrowed[o.variable := union.(nullable := o.typ.nullable || sets[0].nullable)];
    }

    method ApplyFromCondition(c: Condition, outcome: bool)
      modifies this
      ensures narrowed == Apply(old(narrowed), c, outcome)
      decreases c
    {
      if c.And? {
        if outcome {
          ApplyFromCondition(c.left, true);
          ApplyFromCondition(c.right, true);
        }
        return;
      }
      var candidate := NullCheckCandidate(c, outcome);
      if candidate.Name? {
        narrowed := narrowed[candidate.variable := WithoutNull(candidate.typ)];
        return;
      }
      if !IsTypeTestCondition(c) { return; }
      var test := if c.Not? then c.inner else c;
      if outcome == !c.Not? {
        narrowed := narrowed[test.operand.variable := test.tested];
      } else {
        ApplyFailedTypeTest(test.operand, test.tested);
      }
    }

    method AnalyzeStatement(s: Stmt) returns (typed: Stmt)
      modifies this
      ensures (typed, narrowed) == Analyze(declared, old(narrowed), s, false)
      decreases s, 0
    {
      match s
      case Use(operand) =>
        var reduced := LookupNarrowed(operand);
        typed := Use(reduced);
      case Assign(target) =>
        narrowed := narrowed - {target};
        typed := s;
      case If(condition, whenTrue, whenFalse) =>
        var c := ReduceConditionExpression(condition);
        var previous := narrowed;
        ApplyFromCondition(c, true);
        var yes := AnalyzeStatements(whenTrue);
        narrowed := previous;
        ApplyFromCondition(c, false);
        var no := AnalyzeStatements(whenFalse);
        narrowed := previous;
        typed := If(c, yes, no);
      case While(condition, loop) =>
        var c := ReduceConditionExpression(condition);
        var previous := narrowed;
        ApplyFromCondition(c, true);
        var body := AnalyzeStatements(loop);
        narrowed := previous;
        typed := While(c, body);
      case Assert(condition) =>
        var c := ReduceConditionExpression(condition);
        ApplyFromCondition(c, true);
        typed := Assert(c);
      case Jump(_) =>
        typed := s;
    }

    method AnalyzeStatements(ss: seq<Stmt>) returns (typed: seq<Stmt>)
      modifies this
      ensures (typed, narrowed) == AnalyzeSuite(declared, old(narrowed), ss, false)
      decreases ss, 1
    {
      typed := [];
      assert ss[0..] == ss;
      assert [] + AnalyzeSuite(declared, narrowed, ss, false).0 == AnalyzeSuite(declared, narrowed, ss, false).0;
      for i := 0 to |ss|
        invariant var rest := AnalyzeSuite(declared, narrowed, ss[i..], false);
                  AnalyzeSuite(declared, old(narrowed), ss, false) == (typed + rest.0, rest.1)
      {
        ghost var before := narrowed;
        var statement := AnalyzeStatement(ss[i]);
        assert ss[i..][1..] == ss[i + 1..];
        assert AnalyzeSuite(declared, before, ss[i..], false).0
               == [statement] + AnalyzeSuite(declared, narrowed, ss[i + 1..], false).0;
        assert typed + ([statement] + AnalyzeSuite(declared, narrowed, ss[i + 1..], false).0)
            == (typed + [statement]) + AnalyzeSuite(declared, narrowed, ss[i + 1..], false).0;
        typed := typed + [statement];
      }
      assert ss[|ss|..] == [] && typed + [] == typed;
    }
  }
}
