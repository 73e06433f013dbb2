/** An accepted body never reads a tracked final before it is written, and never
    returns before all of them are. */
module ReadSoundness {
  import opened Syntax
  import opened FinalResolution
  import opened DefiniteAssignment
  import opened AssignmentRuns

  /** No fault other than a second write. */
  predicate NeverUnassigned(fs: set<Fault>) {
    forall x :: x in fs ==> x.WrittenTwice?
  }

  lemma KnownReadsAreSafe(read: set<Variable>, all: set<Variable>, definite: set<Variable>, written: set<Variable>)
    requires read <= all && definite <= written && Unassigned(all, definite) == {}
    ensures ReadFaults(read, written) == {}
  {
    forall v | v in all
      ensures v in definite
    {
      assert v !in definite ==> UsedBeforeAssignment(v) in Unassigned(all, definite);
    }
  }

  lemma EvaluationIsSafe(ctx: Context, e: Expr, ev: Eval, definite: set<Variable>, written: set<Variable>)
    requires definite <= written && Unassigned(Reads(ctx, e), definite) == {}
    ensures ReadFaults(ReadIn(ctx, e, ev), written) == {}
  {
    EvaluationReadsOnly(ctx, e, ev);
    KnownReadsAreSafe(ReadIn(ctx, e, ev), Reads(ctx, e), definite, written);
  }

  /** Either the final was written before, or the operator reads it unwritten. */
  lemma CompoundAssignmentIsRejected(ctx: Context, assignee: Expr, assignedValue: Expr, f: Facts)
    requires IsSlot(ctx, assignee)
    ensures AnalyzeAssignment(ctx, assignee, true, assignedValue, f).diagnostics != {}
  {
    var target := SlotOf(ctx, assignee).value;
    var diagnostics := AnalyzeAssignment(ctx, assignee, true, assignedValue, f).diagnostics;
    assert AlreadyAssigned(target) in diagnostics || UsedBeforeAssignment(target) in diagnostics;
  }

  lemma StoreIsSafe(ctx: Context, assignee: Expr, compound: bool, assignedValue: Expr, f: Facts, ev: Eval,
                    written: set<Variable>)
    requires f.definite <= written && AnalyzeAssignment(ctx, assignee, compound, assignedValue, f).diagnostics == {}
    ensures NeverUnassigned(StoreFaults(ctx, assignee, compound, ev, written))
  {
    if IsSlot(ctx, assignee) {
      if compound {
        CompoundAssignmentIsRejected(ctx, assignee, assignedValue, f);
      }
    } else {
      var diagnostics := AnalyzeAssignment(ctx, assignee, compound, assignedValue, f).diagnostics;
      assert Unassigned(ReadsBelow(ctx, assignee), f.definite) <= diagnostics;
      assert compound ==> Unassigned(LateSlots(ctx, assignee), f.definite) <= diagnostics;
      PartsReadOnly(ctx, assignee, ev);
      KnownReadsAreSafe(ReadBelow(ctx, assignee, ev), ReadsBelow(ctx, assignee), f.definite, written);
      if compound {
        KnownReadsAreSafe(HitBy(ctx, assignee, ev), LateSlots(ctx, assignee), f.definite, written);
      }
    }
  }

  lemma LeafIsSafe(ctx: Context, s: Stmt, f: Facts, path: Path, written: set<Variable>)
    requires f.Valid() && f.reachable && f.definite <= written && IsLeaf(s) && !path.Stopped?
    requires AnalyzeStatement(ctx, s, f).diagnostics == {}
    ensures var g := AnalyzeStatement(ctx, s, f).facts;
            var r := Exec(ctx, s, path, written);
            NeverUnassigned(r.faults)
            && (r.outcome == Next ==> g.reachable && g.definite <= r.written + Declares(ctx, s))
  {
    match s
    case Assignment(assignee, compound, assignedValue) =>
      EvaluationIsSafe(ctx, assignedValue, EvalAt(path, 0), f.definite, written);
      StoreIsSafe(ctx, assignee, compound, assignedValue, f, EvalAt(path, 1), written);
    case Return(result) =>
      EvaluationIsSafe(ctx, result, EvalAt(path, 0), f.definite, written);
      forall v | v in ctx.finals && ctx.scope != LocalScope
        ensures v in f.definite
      {
        assert v !in f.definite ==> UnassignedAtReturn(v) in AtReturn(ctx, f);
      }
    case Declare(_, initializer) =>
      if initializer.Some? { EvaluationIsSafe(ctx, initializer.value, EvalAt(path, 0), f.definite, written); }
    case Destructure(_, initializer) =>
      if initializer.Some? { EvaluationIsSafe(ctx, initializer.value, EvalAt(path, 0), f.definite, written); }
    case Assert(condition, message) =>
      EvaluationIsSafe(ctx, condition, EvalAt(path, 0), f.definite, written);
      EvaluationIsSafe(ctx, message, EvalAt(path, 1), f.definite, written);
    case Evaluate(e) => EvaluationIsSafe(ctx, e, EvalAt(path, 0), f.definite, written);
    case _ =>
  }

  lemma {:induction false} StatementIsSafe(ctx: Context, s: Stmt, f: Facts, path: Path, written: set<Variable>)
    requires f.Valid() && f.reachable && f.definite <= written
    requires Scoped(ctx, s) && f.definite !! Declares(ctx, s)
    requires AnalyzeStatement(ctx, s, f).diagnostics == {}
    ensures var g := AnalyzeStatement(ctx, s, f).facts;
            var r := Exec(ctx, s, path, written);
            NeverUnassigned(r.faults) && f.definite <= r.written &&
            (r.outcome == Next ==> g.reachable && g.definite <= r.written)
    decreases s, 1, 0
  {
    RunKeeps(ctx, s, path, written);
    if !path.Stopped? {
      match s
      case If(condition, trueBlock, falseBlock) =>
        if path.Branching? {
          EvaluationIsSafe(ctx, condition, EvalAt(path, 0), f.definite, written);
          SuiteIsSafe(ctx, if path.taken then trueBlock else falseBlock, f, path.body, written);
        }
      case For(list, loop) =>
        if path.Looping? {
          EvaluationIsSafe(ctx, list, EvalAt(path, 0), f.definite, written);
          LoopIsSafe(ctx, Literal, loop, f, path.rounds, written);
        }
      case While(condition, loop) =>
        if path.Looping? {
          EvaluationIsSafe(ctx, condition, EvalAt(path, 0), f.definite, written);
          LoopIsSafe(ctx, condition, loop, f, path.rounds, written);
        }
      case Match(test, branches) =>
        if path.Matching? {
          EvaluationIsSafe(ctx, test, EvalAt(path, 0), f.definite, written);
          BranchesAreSafe(ctx, branches, f, Facts({}, {}, false), false, path.arms, written);
        }
      case Suite(statements) =>
        if path.Branching? { SuiteIsSafe(ctx, statements, f, path.body, written); }
      case _ => LeafIsSafe(ctx, s, f, path, written);
    }
  }

  /** Read soundness of a whole suite: for an accepted suite, along every path,
      no tracked final is read before it is written, every return finds all of
      them written, and a run that falls through has written at least what the
      analysis calls definite. */
  lemma {:induction false} SuiteIsSafe(ctx: Context, ss: seq<Stmt>, f: Facts, paths: seq<Path>, written: set<Variable>)
    requires f.Valid() && f.reachable && f.definite <= written
    requires ScopedSuite(ctx, ss) && f.definite !! DeclaresOfAll(ctx, ss)
    requires AnalyzeSuite(ctx, ss, f).diagnostics == {}
    ensures var g := AnalyzeSuite(ctx, ss, f).facts;
            var r := ExecSuite(ctx, ss, paths, written);
            NeverUnassigned(r.faults) && f.definite <= r.written &&
            (r.outcome == Next ==> g.reachable && g.definite <= r.written)
    decreases ss, 1, 0
  {
    if ss != [] && paths != [] {
      var first := AnalyzeStatement(ctx, ss[0], f);
      var rest := AnalyzeSuite(ctx, ss[1..], first.facts);
      assert first.diagnostics == {} && rest.diagnostics == {} by {
        assert first.diagnostics + rest.diagnostics == {};
      }
      StatementIsSafe(ctx, ss[0], f, paths[0], written);
      AnalysisGrows(ctx, ss[0], f);
      var r := Exec(ctx, ss[0], paths[0], written);
      if r.outcome == Next {
        SuiteIsSafe(ctx, ss[1..], first.facts, paths[1..], r.written);
      }
    }
  }

  lemma {:induction false} LoopIsSafe(ctx: Context, test: Expr, loop: seq<Stmt>, f: Facts, rounds: seq<Round>,
                                      written: set<Variable>)
    requires f.Valid() && f.reachable && f.definite <= written
    requires ScopedSuite(ctx, loop) && f.definite !! DeclaresOfAll(ctx, loop)
    requires AnalyzeSuite(ctx, loop, f).diagnostics == {} && Unassigned(Reads(ctx, test), f.definite) == {}
    ensures var r := ExecLoop(ctx, test, loop, rounds, written);
            NeverUnassigned(r.faults) && f.definite <= r.written
    decreases loop, 2, |rounds|
  {
    if rounds != [] {
      SuiteIsSafe(ctx, loop, f, rounds[0].body, written);
      var body := ExecSuite(ctx, loop, rounds[0].body, written);
      EvaluationIsSafe(ctx, test, rounds[0].test, f.definite, body.written);
      LoopIsSafe(ctx, test, loop, f, rounds[1..], body.written);
    }
  }

  /** Joining more branches never adds a definite assignment. */
  lemma {:induction false} JoiningLoses(ctx: Context, bs: seq<Branch>, f: Facts, merged: Facts)
    requires merged.reachable
    ensures var m := AnalyzeBranches(ctx, bs, f, merged, true);
            m.hasBranch && m.merged.reachable && m.merged.definite <= merged.definite
    decreases bs
  {
    if bs != [] && !CatchAll(bs[0]) {
      JoiningLoses(ctx, bs[1..], f, Merge(merged, AnalyzeBranch(ctx, bs[0], f).facts));
    }
  }

  /** Trying the patterns and the guard of a branch makes no fault. */
  lemma TrialIsSafe(ctx: Context, b: Branch, f: Facts, arm: Arm, written: set<Variable>)
    requires f.reachable && f.definite <= written && AnalyzeBranch(ctx, b, f).diagnostics == {}
    ensures TriedPatterns(ctx, b, arm, written).faults == {}
    ensures b.guard.Some? ==> ExecExpression(ctx, b.guard.value, arm.guard, written).faults == {}
  {
    PatternsReadOnly(ctx, b.patterns, arm.patterns);
    KnownReadsAreSafe(ReadInPatterns(ctx, b.patterns, arm.patterns), PatternsRead(ctx, b.patterns), f.definite,
                      written);
    if b.guard.Some? {
      EvaluationIsSafe(ctx, b.guard.value, arm.guard, f.definite, written);
    }
  }

  lemma {:induction false} BlockIsSafe(ctx: Context, b: Branch, f: Facts, paths: seq<Path>, written: set<Variable>)
    requires f.Valid() && f.reachable && f.definite <= written && AnalyzeBranch(ctx, b, f).diagnostics == {}
    requires ScopedSuite(ctx, b.block) && f.definite !! DeclaresOfAll(ctx, b.block)
    requires b.guard.None? || !NeverReturns(b.guard.value)
    ensures var g := AnalyzeBranch(ctx, b, f).facts;
            var r := ExecSuite(ctx, b.block, paths, written);
            NeverUnassigned(r.faults) && (r.outcome == Next ==> g.reachable && g.definite <= r.written)
    decreases b, 1, 0
  {
    assert f.(reachable := true) == f;
    SuiteIsSafe(ctx, b.block, f, paths, written);
  }

  lemma AcceptedBranches(ctx: Context, bs: seq<Branch>, f: Facts, merged: Facts, hasBranch: bool)
    requires bs != [] && AnalyzeBranches(ctx, bs, f, merged, hasBranch).diagnostics == {}
    ensures var branch := AnalyzeBranch(ctx, bs[0], f);
            && branch.diagnostics == {}
            && (!CatchAll(bs[0]) ==>
                AnalyzeBranches(ctx, bs[1..], f, if hasBranch then Merge(merged, branch.facts) else branch.facts, true)
                .diagnostics == {})
  {
  }

  lemma {:induction false} BranchesAreSafe(ctx: Context, bs: seq<Branch>, f: Facts, merged: Facts, hasBranch: bool,
                                           arms: seq<Arm>, written: set<Variable>)
    requires f.Valid() && f.reachable && f.definite <= written
    requires ScopedBranches(ctx, bs) && f.definite !! DeclaresOfBranches(ctx, bs)
    requires AnalyzeBranches(ctx, bs, f, merged, hasBranch).diagnostics == {}
    ensures var g := AfterMatch(AnalyzeBranches(ctx, bs, f, merged, hasBranch), f);
            var r := ExecBranches(ctx, bs, arms, written);
            NeverUnassigned(r.faults) && (r.outcome == Next ==> g.reachable && g.definite <= r.written)
    decreases bs, 1, 0
  {
    if bs != [] && arms != [] {
      var branch := AnalyzeBranch(ctx, bs[0], f);
      var joined := if hasBranch then Merge(merged, branch.facts) else branch.facts;
      AcceptedBranches(ctx, bs, f, merged, hasBranch);
      TrialIsSafe(ctx, bs[0], f, arms[0], written);
      if !CatchAll(bs[0]) {
        BranchesAreSafe(ctx, bs[1..], f, joined, true, arms[1..], written);
      }
      if bs[0].guard.None? || !NeverReturns(bs[0].guard.value) {
        BlockIsSafe(ctx, bs[0], f, arms[0].body, written);
        if branch.facts.reachable && !CatchAll(bs[0]) {
          JoiningLoses(ctx, bs[1..], f, joined);
        }
      }
    }
  }
}
