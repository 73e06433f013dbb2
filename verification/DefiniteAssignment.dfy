/** The definite-assignment analysis of final variables.  The functions say
    what the analysis computes; the class `Analyzer` computes it statement by
    statement on a mutable state, as the source does, and is proved to agree. */
module DefiniteAssignment {
  import opened Syntax
  import opened FinalResolution

  datatype Diagnostic =
    | UsedBeforeAssignment(variable: Variable)
    | AlreadyAssigned(variable: Variable)
    | UnassignedAtReturn(variable: Variable)
    | NeverAssigned(variable: Variable)
    | IllegalWrite(variable: Variable)
    | AccessorOnFinal(variable: Variable)
    | OnreadyOnFinal(variable: Variable)

  datatype Facts = Facts(definite: set<Variable>, possible: set<Variable>, reachable: bool) {
    predicate Valid() {
      definite <= possible
    }

    function Assign(vs: set<Variable>): Facts {
      this.(definite := definite + vs, possible := possible + vs)
    }
  }

  datatype Report = Report(facts: Facts, diagnostics: set<Diagnostic>)

  function Merge(a: Facts, b: Facts): Facts {
    if !a.reachable && !b.reachable then Facts({}, {}, false)
    else if !a.reachable then b
    else if !b.reachable then a
    else Facts(a.definite * b.definite, a.possible + b.possible, true)
  }

  /** The facts that matter: those of reachable states. */
  predicate SameFacts(a: Facts, b: Facts) {
    a.reachable == b.reachable && (a.reachable ==> a == b)
  }

  /** Joining branches does not depend on their order or grouping, and an
      unreachable branch contributes nothing. */
  lemma MergeLaws(a: Facts, b: Facts, c: Facts)
    ensures Merge(a, b) == Merge(b, a)
    ensures Merge(Merge(a, b), c) == Merge(a, Merge(b, c))
    ensures SameFacts(Merge(a, a), a)
    ensures !b.reachable ==> SameFacts(Merge(a, b), a)
    ensures Merge(a, b).reachable <==> a.reachable || b.reachable
    ensures a.Valid() && b.Valid() ==> Merge(a, b).Valid()
  {
    if a.reachable && b.reachable && c.reachable {
      assert a.definite * b.definite == b.definite * a.definite;
      assert (a.definite * b.definite) * c.definite == a.definite * (b.definite * c.definite);
      assert (a.possible + b.possible) + c.possible == a.possible + (b.possible + c.possible);
    } else if a.reachable && b.reachable {
      assert a.definite * b.definite == b.definite * a.definite;
    }
  }

  function Unassigned(read: set<Variable>, definite: set<Variable>): set<Diagnostic> {
    set v | v in read && v !in definite :: UsedBeforeAssignment(v)
  }

  function Declared(ctx: Context, vs: set<Variable>): set<Variable> {
    if ctx.scope == LocalScope then vs * ctx.finals else {}
  }

  function AsSet(vs: seq<Variable>): set<Variable> {
    set v | v in vs
  }

  function Rewritten(vs: set<Variable>): set<Diagnostic> {
    set v | v in vs :: AlreadyAssigned(v)
  }

  /** An assignment that finds its target only at run time makes nothing definite,
      and one that changes a part of a final in place is no first one. */
  function AnalyzeAssignment(ctx: Context, assignee: Expr, compound: bool, assignedValue: Expr, f: Facts): Report {
    var valueReads := Unassigned(Reads(ctx, assignedValue), f.definite);
    if !IsSlot(ctx, assignee) then
      var late := LateSlots(ctx, assignee);
      Report(f.(possible := f.possible + late),
             valueReads + Unassigned(ReadsBelow(ctx, assignee), f.definite)
             + (if compound then Unassigned(late, f.definite) else {})
             + Rewritten((late + PartSlots(ctx, assignee)) * f.possible))
    else
      var target := SlotOf(ctx, assignee).value;
      var misuse :=
        if target in f.possible then {AlreadyAssigned(target)}
        else if compound then {UsedBeforeAssignment(target)}
        else {};
      Report(f.Assign({target}), valueReads + misuse)
  }

  function AtReturn(ctx: Context, f: Facts): set<Diagnostic> {
    if ctx.scope == LocalScope then {}
    else set v | v in ctx.finals && v !in f.definite :: UnassignedAtReturn(v)
  }

  function AnalyzeStatement(ctx: Context, s: Stmt, f: Facts): Report
    decreases s
  {
    if !f.reachable then Report(f, {}) else
    match s
    case Assignment(assignee, compound, assignedValue) =>
      AnalyzeAssignment(ctx, assignee, compound, assignedValue, f)
    case If(condition, trueBlock, falseBlock) =>
      var t := AnalyzeSuite(ctx, trueBlock, f);
      var e := AnalyzeSuite(ctx, falseBlock, f);
      Report(Merge(t.facts, e.facts), Unassigned(Reads(ctx, condition), f.definite) + t.diagnostics + e.diagnostics)
    case For(list, loop) =>
      var body := AnalyzeSuite(ctx, loop, f);
      Report(f.(possible := f.possible + body.facts.possible),
             Unassigned(Reads(ctx, list), f.definite) + body.diagnostics)
    case While(condition, loop) =>
      var body := AnalyzeSuite(ctx, loop, f);
      Report(f.(possible := f.possible + body.facts.possible),
             Unassigned(Reads(ctx, condition), f.definite) + body.diagnostics)
    case Match(test, branches) =>
      var m := AnalyzeBranches(ctx, branches, f, Facts({}, {}, false), false);
      Report(AfterMatch(m, f), Unassigned(Reads(ctx, test), f.definite) + m.diagnostics)
    case Return(result) =>
      Report(f.(reachable := false), Unassigned(Reads(ctx, result), f.definite) + AtReturn(ctx, f))
    case Break => Report(f.(reachable := false), {})
    case Continue => Report(f.(reachable := false), {})
    case Declare(variable, initializer) =>
      if initializer.None? then Report(f, {}) else
      Report(f.Assign(Declared(ctx, if variable.isFinal then {variable} else {})),
             Unassigned(Reads(ctx, initializer.value), f.definite))
    case Destructure(bindings, initializer) =>
      if initializer.None? then Report(f, {}) else
      Report(f.Assign(Declared(ctx, AsSet(bindings))), Unassigned(Reads(ctx, initializer.value), f.definite))
    case Assert(condition, message) =>
      Report(f, Unassigned(Reads(ctx, condition), f.definite) + Unassigned(Reads(ctx, message), f.definite))
    case Suite(statements) => AnalyzeSuite(ctx, statements, f)
    case Evaluate(e) => AnalyzeExpression(ctx, e, f)
    case Pass => Report(f, {})
  }

  function AnalyzeExpression(ctx: Context, e: Expr, f: Facts): Report {
    Report(f.(reachable := !NeverReturns(e)), Unassigned(Reads(ctx, e), f.definite))
  }

  function AnalyzeSuite(ctx: Context, ss: seq<Stmt>, f: Facts): Report
    decreases ss
  {
    if ss == [] then Report(f, {}) else
    var first := AnalyzeStatement(ctx, ss[0], f);
    var rest := AnalyzeSuite(ctx, ss[1..], first.facts);
    Report(rest.facts, first.diagnostics + rest.diagnostics)
  }

  /** The branches seen so far: their join, whether there was one at all, and
      whether one of them always runs. */
  datatype MatchSummary = MatchSummary(merged: Facts, hasBranch: bool, hasCatchAll: bool, diagnostics: set<Diagnostic>)

  function AfterMatch(m: MatchSummary, f: Facts): Facts {
    if !m.hasBranch then f else if m.hasCatchAll then m.merged else Merge(m.merged, f)
  }

  function AnalyzeBranch(ctx: Context, b: Branch, f: Facts): Report
    decreases b
  {
    var guard := if b.guard.None? then Report(f, {}) else AnalyzeExpression(ctx, b.guard.value, f);
    var block := AnalyzeSuite(ctx, b.block, guard.facts);
    Report(block.facts, Unassigned(PatternsRead(ctx, b.patterns), f.definite) + guard.diagnostics + block.diagnostics)
  }

  function AnalyzeBranches(ctx: Context, bs: seq<Branch>, f: Facts, merged: Facts, hasBranch: bool): MatchSummary
    decreases bs
  {
    if bs == [] then MatchSummary(merged, hasBranch, false, {}) else
    var branch := AnalyzeBranch(ctx, bs[0], f);
    var joined := if hasBranch then Merge(merged, branch.facts) else branch.facts;
    if CatchAll(bs[0]) then MatchSummary(joined, true, true, branch.diagnostics) else
    var rest := AnalyzeBranches(ctx, bs[1..], f, joined, true);
    rest.(diagnostics := branch.diagnostics + rest.diagnostics)
  }

  /** The state that the analysis updates in place. */
  class AssignmentState {
    var definite: set<Variable>
    var possible: set<Variable>
    var reachable: bool

    constructor (f: Facts)
      ensures Value() == f
    {
      definite, possible, reachable := f.definite, f.possible, f.reachable;
    }

    function Value(): Facts
      reads this
    {
      Facts(definite, possible, reachable)
    }

    method Assign(vs: set<Variable>)
      modifies this
      ensures Value() == old(Value()).Assign(vs)
    {
      definite := definite + vs;
      possible := possible + vs;
    }

    method Become(f: Facts)
      modifies this
      ensures Value() == f
    {
      definite, possible, reachable := f.definite, f.possible, f.reachable;
    }
  }

  method MergeBranches(first: AssignmentState, second: AssignmentState, out: AssignmentState)
    modifies out
    ensures out.Value() == Merge(old(first.Value()), old(second.Value()))
  {
    var a, b := first.Value(), second.Value();
    if !a.reachable && !b.reachable {
      out.Become(Facts({}, {}, false));
    } else if !a.reachable {
      out.Become(b);
    } else if !b.reachable {
      out.Become(a);
    } else {
      out.Become(Facts((set v | v in a.definite && v in b.definite), a.possible + b.possible, true));
    }
  }

  /** An assignment that reaches no tracked final only reads. */
  lemma OtherStores(ctx: Context, assignee: Expr, compound: bool, assignedValue: Expr, f: Facts)
    requires !IsSlot(ctx, assignee) && LateSlots(ctx, assignee) == PartSlots(ctx, assignee) == {}
    ensures AnalyzeAssignment(ctx, assignee, compound, assignedValue, f) ==
            Report(f, Unassigned(Reads(ctx, assignedValue), f.definite)
                   + Unassigned(ReadsBelow(ctx, assignee), f.definite))
  {
    assert Rewritten(({} + {}) * f.possible) == {} && f.possible + {} == f.possible;
  }

  lemma OtherReads(ctx: Context, e: Expr)
    requires !ctx.late && !IsSlot(ctx, e)
    ensures Reads(ctx, e) == ReadsBelow(ctx, e)
  {
  }

  /** The analysis as the source performs it; it follows no late access. */
  class Analyzer {
    const ctx: Context
    var diagnostics: set<Diagnostic>

    constructor (ctx: Context)
      ensures this.ctx == ctx && diagnostics == {}
    {
      this.ctx := ctx;
      diagnostics := {};
    }

    method CheckReads(e: Expr, definite: set<Variable>)
      requires !ctx.late
      modifies this
      ensures diagnostics == old(diagnostics) + Unassigned(Reads(ctx, e), definite)
      decreases e
    {
      if IsSlot(ctx, e) && SlotOf(ctx, e).value !in definite {
        diagnostics := diagnostics + {UsedBeforeAssignment(SlotOf(ctx, e).value)};
      }
      assert diagnostics == old(diagnostics) + Unassigned(Slot(ctx, e) + LateSlots(ctx, e), definite);
      match e
      case Attribute(base, _, _, _, _) =>
        if DescendsBelow(ctx, e) {
          CheckReads(base, definite);
        }
      case Operation(_, parts) =>
        ghost var before := diagnostics;
        for i := 0 to |parts|
          invariant diagnostics + Unassigned(ReadsOfAll(ctx, parts[i..]), definite)
                 == before + Unassigned(ReadsOfAll(ctx, parts), definite)
        {
          CheckReads(parts[i], definite);
          assert parts[i..][1..] == parts[i + 1..];
        }
      case _ =>
    }

    method CheckPatternReads(p: Pattern, definite: set<Variable>)
      requires !ctx.late
      modifies this
      ensures diagnostics == old(diagnostics) + Unassigned(PatternReads(ctx, p), definite)
      decreases p
    {
      match p
      case Leaf =>
      case Test(e, _) => CheckReads(e, definite);
      case Group(parts) => CheckPatternsRead(parts, definite);
    }

    method CheckPatternsRead(ps: seq<Pattern>, definite: set<Variable>)
      requires !ctx.late
      modifies this
      ensures diagnostics == old(diagnostics) + Unassigned(PatternsRead(ctx, ps), definite)
      decreases ps
    {
      for i := 0 to |ps|
        invariant diagnostics + Unassigned(PatternsRead(ctx, ps[i..]), definite)
               == old(diagnostics) + Unassigned(PatternsRead(ctx, ps), definite)
      {
        CheckPatternReads(ps[i], definite);
        assert ps[i..][1..] == ps[i + 1..];
      }
    }

    method AnalyzeAssign(assignee: Expr, compound: bool, assignedValue: Expr, state: AssignmentState)
      requires !ctx.late
      modifies this, state
      ensures var r := AnalyzeAssignment(ctx, assignee, compound, assignedValue, old(state.Value()));
              state.Value() == r.facts && diagnostics == old(diagnostics) + r.diagnostics
    {
      ghost var f := state.Value();
      CheckReads(assignedValue, state.definite);
      if !IsSlot(ctx, assignee) {
        CheckReads(assignee, state.definite);
        OtherReads(ctx, assignee);
        OtherStores(ctx, assignee, compound, assignedValue, f);
        return;
      }
      var target := SlotOf(ctx, assignee).value;
      if target in state.possible {
        diagnostics := diagnostics + {AlreadyAssigned(target)};
      } else if compound {
        diagnostics := diagnostics + {UsedBeforeAssignment(target)};
      }
      state.Assign({target});
      assert AnalyzeAssignment(ctx, assignee, compound, assignedValue, f).facts == f.Assign({target});
    }

    method DeclareBindings(bindings: seq<Variable>, state: AssignmentState)
      modifies state
      ensures state.Value() == old(state.Value()).Assign(AsSet(bindings) * ctx.finals)
    {
      ghost var f := state.Value();
      for i := 0 to |bindings|
        invariant state.Value() == f.Assign(AsSet(bindings[..i]) * ctx.finals)
      {
        if bindings[i] in ctx.finals {
          state.Assign({bindings[i]});
        }
        assert AsSet(bindings[..i + 1]) == AsSet(bindings[..i]) + {bindings[i]};
      }
      assert bindings[..|bindings|] == bindings;
    }

    method AnalyzeLoop(head: Expr, loop: seq<Stmt>, state: AssignmentState)
      requires !ctx.late
      requires state.reachable
      modifies this, state
      ensures var body := AnalyzeSuite(ctx, loop, old(state.Value()));
              state.Value() == old(state.Value()).(possible := old(state.possible) + body.facts.possible) &&
              diagnostics == old(diagnostics) + (Unassigned(Reads(ctx, head), old(state.definite)) + body.diagnostics)
      decreases loop, 2
    {
      CheckReads(head, state.definite);
      var body := new AssignmentState(state.Value());
      AnalyzeBlock(loop, body);
      state.possible := state.possible + body.possible;
    }

    method AnalyzeArm(b: Branch, state: AssignmentState)
      requires !ctx.late
      requires state.reachable
      modifies this, state
      ensures var r := AnalyzeBranch(ctx, b, old(state.Value()));
              state.Value() == r.facts && diagnostics == old(diagnostics) + r.diagnostics
      decreases b, 2
    {
      CheckPatternsRead(b.patterns, state.definite);
      if b.guard.Some? {
        CheckReads(b.guard.value, state.definite);
        state.reachable := !NeverReturns(b.guard.value);
      }
      AnalyzeBlock(b.block, state);
    }

    method AnalyzeMatch(test: Expr, branches: seq<Branch>, state: AssignmentState)
      requires !ctx.late
      requires state.reachable
      modifies this, state
      ensures var m := AnalyzeBranches(ctx, branches, old(state.Value()), Facts({}, {}, false), false);
              state.Value() == AfterMatch(m, old(state.Value())) &&
              diagnostics == old(diagnostics) + (Unassigned(Reads(ctx, test), old(state.definite)) + m.diagnostics)
      decreases branches, 3
    {
      CheckReads(test, state.definite);
      ghost var f, before := state.Value(), diagnostics;
      ghost var m := AnalyzeBranches(ctx, branches, f, Facts({}, {}, false), false);
      var merged := new AssignmentState(Facts({}, {}, false));
      var hasBranch, hasCatchAll := false, false;
      for i := 0 to |branches|
        invariant state.Value() == f && fresh(merged) && !hasCatchAll
        invariant var rest := AnalyzeBranches(ctx, branches[i..], f, merged.Value(), hasBranch);
                  m == rest.(diagnostics := m.diagnostics) && diagnostics + rest.diagnostics == before + m.diagnostics
      {
        assert branches[i..][1..] == branches[i + 1..];
        var branch := new AssignmentState(state.Value());
        AnalyzeArm(branches[i], branch);
        if !hasBranch {
          merged.Become(branch.Value());
          hasBranch := true;
        } else {
          MergeBranches(merged, branch, merged);
        }
        if CatchAll(branches[i]) {
          hasCatchAll := true;
          break;
        }
      }
      if !hasBranch {
        return;
      }
      if !hasCatchAll {
        MergeBranches(merged, state, merged);
      }
      state.Become(merged.Value());
    }

    method AnalyzeNode(s: Stmt, state: AssignmentState)
      requires !ctx.late
      modifies this, state
      ensures var r := AnalyzeStatement(ctx, s, old(state.Value()));
              state.Value() == r.facts && diagnostics == old(diagnostics) + r.diagnostics
      decreases s, 1
    {
      if !state.reachable {
        return;
      }
      match s
      case Assignment(assignee, compound, assignedValue) =>
        AnalyzeAssign(assignee, compound, assignedValue, state);
      case If(condition, trueBlock, falseBlock) =>
        CheckReads(condition, state.definite);
        var whenTrue := new AssignmentState(state.Value());
        AnalyzeBlock(trueBlock, whenTrue);
        var whenFalse := new AssignmentState(state.Value());
        AnalyzeBlock(falseBlock, whenFalse);
        MergeBranches(whenTrue, whenFalse, state);
      case For(list, loop) => AnalyzeLoop(list, loop, state);
      case While(condition, loop) => AnalyzeLoop(condition, loop, state);
      case Match(test, branches) => AnalyzeMatch(test, branches, state);
      case Return(result) =>
        CheckReads(result, state.definite);
        if ctx.scope != LocalScope {
          diagnostics := diagnostics + set v | v in ctx.finals && v !in state.definite :: UnassignedAtReturn(v);
        }
        state.reachable := false;
      case Break => state.reachable := false;
      case Continue => state.reachable := false;
      case Declare(variable, initializer) =>
        if initializer.Some? {
          CheckReads(initializer.value, state.definite);
          if ctx.scope == LocalScope && variable.isFinal && variable in ctx.finals {
            state.Assign({variable});
          }
        }
      case Destructure(bindings, initializer) =>
        if initializer.Some? {
          CheckReads(initializer.value, state.definite);
          if ctx.scope == LocalScope {
            DeclareBindings(bindings, state);
          }
        }
      case Assert(condition, message) =>
        CheckReads(condition, state.definite);
        CheckReads(message, state.definite);
      case Suite(statements) => AnalyzeBlock(statements, state);
      case Evaluate(e) =>
        CheckReads(e, state.definite);
        if NeverReturns(e) {
          state.reachable := false;
        }
      case Pass =>
    }

    method AnalyzeBlock(ss: seq<Stmt>, state: AssignmentState)
      requires !ctx.late
      modifies this, state
      ensures var r := AnalyzeSuite(ctx, ss, old(state.Value()));
              state.Value() == r.facts && diagnostics == old(diagnostics) + r.diagnostics
      decreases ss, 1
    {
      ghost var r := AnalyzeSuite(ctx, ss, state.Value());
      for i := 0 to |ss|
        invariant var rest := AnalyzeSuite(ctx, ss[i..], state.Value());
                  rest.facts == r.facts && diagnostics + rest.diagnostics == old(diagnostics) + r.diagnostics
      {
        assert ss[i..][1..] == ss[i + 1..];
        AnalyzeNode(ss[i], state);
      }
    }
  }
}
