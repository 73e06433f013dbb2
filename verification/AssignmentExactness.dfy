/** The definite-assignment analysis is exact: when no loop writes a tracked
    final, a body is accepted if and only if no run of it goes wrong.  Every
    rejection is backed by a run that reads too early, returns too early or
    writes twice. */
module AssignmentExactness {
  import opened Options
  import opened Syntax
  import opened FinalResolution
  import opened DefiniteAssignment
  import opened AssignmentRuns
  import opened ReadSoundness
  import opened WriteOnce

  /** Loop bodies neither write nor declare a tracked final. */
  predicate QuietLoops(ctx: Context, s: Stmt)
    decreases s, 0
  {
    match s
    case If(_, trueBlock, falseBlock) => QuietSuite(ctx, trueBlock) && QuietSuite(ctx, falseBlock)
    case For(_, loop) => QuietLoop(ctx, loop) && QuietSuite(ctx, loop)
    case While(_, loop) => QuietLoop(ctx, loop) && QuietSuite(ctx, loop)
    case Match(_, branches) => QuietBranches(ctx, branches)
    case Suite(statements) => QuietSuite(ctx, statements)
    case _ => true
  }

  predicate QuietLoop(ctx: Context, loop: seq<Stmt>) {
    WritesOfAll(ctx, loop) == {} && DeclaresOfAll(ctx, loop) == {}
  }

  predicate QuietSuite(ctx: Context, ss: seq<Stmt>)
    decreases ss, 0
  {
    ss == [] || (QuietLoops(ctx, ss[0]) && QuietSuite(ctx, ss[1..]))
  }

  predicate QuietBranches(ctx: Context, bs: seq<Branch>)
    decreases bs, 0
  {
    bs == [] || (QuietSuite(ctx, bs[0].block) && QuietBranches(ctx, bs[1..]))
  }

  lemma {:induction false} QuietLoopsDeclareNothing(ctx: Context, s: Stmt)
    requires QuietLoops(ctx, s)
    ensures LoopsDeclareNothing(ctx, s)
    decreases s, 0
  {
    match s
    case If(_, trueBlock, falseBlock) =>
      QuietSuitesDeclareNothing(ctx, trueBlock);
      QuietSuitesDeclareNothing(ctx, falseBlock);
    case For(_, loop) => QuietSuitesDeclareNothing(ctx, loop);
    case While(_, loop) => QuietSuitesDeclareNothing(ctx, loop);
    case Match(_, branches) => QuietBranchesDeclareNothing(ctx, branches);
    case Suite(statements) => QuietSuitesDeclareNothing(ctx, statements);
    case _ =>
  }

  lemma {:induction false} QuietSuitesDeclareNothing(ctx: Context, ss: seq<Stmt>)
    requires QuietSuite(ctx, ss)
    ensures SuiteLoopsDeclareNothing(ctx, ss)
    decreases ss, 0
  {
    if ss != [] {
      QuietLoopsDeclareNothing(ctx, ss[0]);
      QuietSuitesDeclareNothing(ctx, ss[1..]);
    }
  }

  lemma {:induction false} QuietBranchesDeclareNothing(ctx: Context, bs: seq<Branch>)
    requires QuietBranches(ctx, bs)
    ensures BranchLoopsDeclareNothing(ctx, bs)
    decreases bs, 0
  {
    if bs != [] {
      QuietSuitesDeclareNothing(ctx, bs[0].block);
      QuietBranchesDeclareNothing(ctx, bs[1..]);
    }
  }

  // ---------------------------------------------------------------------------
  // Second writes: the analysis and `Flow` agree.
  // ---------------------------------------------------------------------------

  function Possible(f: Facts): Option<set<Variable>> {
    if f.reachable then Some(f.possible) else None
  }

  ghost predicate Agrees(flow: Flow, facts: Facts, diagnostics: set<Diagnostic>) {
    flow.next == Possible(facts) && forall v :: v in flow.twice <==> AlreadyAssigned(v) in diagnostics
  }

  lemma StoreAgreesWithFlow(ctx: Context, assignee: Expr, compound: bool, assignedValue: Expr, f: Facts)
    requires f.Valid() && f.reachable
    ensures var r := AnalyzeAssignment(ctx, assignee, compound, assignedValue, f);
            Agrees(FlowStatement(ctx, Assignment(assignee, compound, assignedValue), f.possible), r.facts,
                   r.diagnostics)
  {
    var late, parts := LateSlots(ctx, assignee), PartSlots(ctx, assignee);
    if IsSlot(ctx, assignee) {
      assert late == {} && parts == {};
      assert Slot(ctx, assignee) + late == {SlotOf(ctx, assignee).value} == Touched(ctx, assignee);
    } else {
      assert Slot(ctx, assignee) + late == late && Touched(ctx, assignee) == late + parts;
      assert f.possible * (late + parts) == (late + parts) * f.possible;
    }
  }

  lemma {:induction false} AnalysisAgreesWithFlow(ctx: Context, s: Stmt, f: Facts)
    requires f.Valid() && f.reachable && QuietLoops(ctx, s)
    ensures var r := AnalyzeStatement(ctx, s, f);
            Agrees(FlowStatement(ctx, s, f.possible), r.facts, r.diagnostics)
    decreases s, 0
  {
    match s
    case If(_, trueBlock, falseBlock) =>
      SuiteAgreesWithFlow(ctx, trueBlock, f);
      SuiteAgreesWithFlow(ctx, falseBlock, f);
    case For(list, loop) => LoopAgreesWithFlow(ctx, list, loop, f);
    case While(condition, loop) => LoopAgreesWithFlow(ctx, condition, loop, f);
    case Match(_, branches) => BranchesAgreeWithFlow(ctx, branches, f, Facts({}, {}, false), false);
    case Suite(statements) => SuiteAgreesWithFlow(ctx, statements, f);
    case Assignment(assignee, compound, assignedValue) =>
      StoreAgreesWithFlow(ctx, assignee, compound, assignedValue, f);
    case _ =>
  }

  lemma {:induction false} SuiteAgreesWithFlow(ctx: Context, ss: seq<Stmt>, f: Facts)
    requires f.Valid() && f.reachable && QuietSuite(ctx, ss)
    ensures var r := AnalyzeSuite(ctx, ss, f);
            Agrees(FlowSuite(ctx, ss, f.possible), r.facts, r.diagnostics)
    decreases ss, 0
  {
    if ss != [] {
      AnalysisAgreesWithFlow(ctx, ss[0], f);
      AnalysisGrows(ctx, ss[0], f);
      var first := AnalyzeStatement(ctx, ss[0], f);
      if first.facts.reachable {
        SuiteAgreesWithFlow(ctx, ss[1..], first.facts);
      } else {
        UnreachableSuite(ctx, ss[1..], first.facts);
      }
    }
  }

  lemma {:induction false} UnreachableSuite(ctx: Context, ss: seq<Stmt>, f: Facts)
    requires !f.reachable
    ensures AnalyzeSuite(ctx, ss, f) == Report(f, {})
    decreases ss, 0
  {
    if ss != [] {
      UnreachableSuite(ctx, ss[1..], f);
    }
  }

  lemma {:induction false} LoopAgreesWithFlow(ctx: Context, head: Expr, loop: seq<Stmt>, f: Facts)
    requires f.Valid() && f.reachable && QuietLoop(ctx, loop) && QuietSuite(ctx, loop)
    ensures var r := AnalyzeStatement(ctx, While(head, loop), f);
            Agrees(FlowLoop(ctx, loop, f.possible), r.facts, r.diagnostics)
    decreases loop, 1
  {
    SuiteAgreesWithFlow(ctx, loop, f);
    SuiteAnalysisGrows(ctx, loop, f);
    SuiteFlowGrows(ctx, loop, f.possible);
    var once := FlowSuite(ctx, loop, f.possible);
    assert AtHead(once, f.possible) == f.possible;
    assert f.possible + Elements(once.broke) == f.possible;
    assert f.possible + AnalyzeSuite(ctx, loop, f).facts.possible == f.possible;
  }

  lemma JoinIsAssociative(a: Option<set<Variable>>, b: Option<set<Variable>>, c: Option<set<Variable>>)
    ensures Join(Join(a, b), c) == Join(a, Join(b, c))
  {
    if a.Some? && b.Some? && c.Some? {
      assert a.value + b.value + c.value == a.value + (b.value + c.value);
    }
  }

  lemma {:induction false} BranchesAgreeWithFlow(ctx: Context, bs: seq<Branch>, f: Facts, merged: Facts,
                                                 hasBranch: bool)
    requires f.Valid() && f.reachable && QuietBranches(ctx, bs)
    ensures var m := AnalyzeBranches(ctx, bs, f, merged, hasBranch);
            var flow := FlowBranches(ctx, bs, f.possible);
            Possible(AfterMatch(m, f)) == Join(if hasBranch then Possible(merged) else None, flow.next) &&
            forall v :: v in flow.twice <==> AlreadyAssigned(v) in m.diagnostics
    decreases bs, 0
  {
    if bs != [] {
      var branch := AnalyzeBranch(ctx, bs[0], f);
      var guarded := if bs[0].guard.None? then f else AnalyzeExpression(ctx, bs[0].guard.value, f).facts;
      if guarded.reachable {
        assert guarded == f;
        SuiteAgreesWithFlow(ctx, bs[0].block, f);
      } else {
        UnreachableSuite(ctx, bs[0].block, guarded);
      }
      assert Agrees(FlowBlock(ctx, bs[0], f.possible), branch.facts, branch.diagnostics);
      if !CatchAll(bs[0]) {
        BranchesAgreeWithFlow(ctx, bs[1..], f, if hasBranch then Merge(merged, branch.facts) else branch.facts, true);
        JoinIsAssociative(if hasBranch then Possible(merged) else None, Possible(branch.facts),
                          FlowBranches(ctx, bs[1..], f.possible).next);
      }
    }
  }

  // ---------------------------------------------------------------------------
  // Early reads and returns: every diagnostic is backed by a run.
  // ---------------------------------------------------------------------------

  /** A final that is not definite after a statement is missing in some run. */
  lemma {:induction false} MissingFinalHappens(ctx: Context, s: Stmt, f: Facts, v: Variable, written: set<Variable>)
    returns (path: Path)
    requires f.Valid() && f.reachable && v !in written
    requires var g := AnalyzeStatement(ctx, s, f).facts; g.reachable && v !in g.definite
    ensures Once(path)
    ensures var r := Exec(ctx, s, path, written); r.outcome == Next && v !in r.written
    decreases s, 0
  {
    path := Simple([]);
    match s
    case If(_, trueBlock, falseBlock) =>
      var t := AnalyzeSuite(ctx, trueBlock, f).facts;
      if t.reachable && v !in t.definite {
        var body := MissingFinalInSuite(ctx, trueBlock, f, v, written);
        path := Branching([], true, body);
      } else {
        var body := MissingFinalInSuite(ctx, falseBlock, f, v, written);
        path := Branching([], false, body);
      }
    case For(_, loop) => path := Looping([], []);
    case While(_, loop) => path := Looping([], []);
    case Match(_, branches) =>
      var arms := MissingFinalInBranches(ctx, branches, f, Facts({}, {}, false), false, v, written);
      path := Matching([], arms);
    case Suite(statements) =>
      var body := MissingFinalInSuite(ctx, statements, f, v, written);
      path := Branching([], true, body);
    case _ =>
  }

  lemma {:induction false} MissingFinalInSuite(ctx: Context, ss: seq<Stmt>, f: Facts, v: Variable,
                                               written: set<Variable>)
    returns (paths: seq<Path>)
    requires f.Valid() && f.reachable && v !in written
    requires var g := AnalyzeSuite(ctx, ss, f).facts; g.reachable && v !in g.definite
    ensures AllOnce(paths)
    ensures var r := ExecSuite(ctx, ss, paths, written); r.outcome == Next && v !in r.written
    decreases ss, 0
  {
    paths := [];
    if ss != [] {
      var first := AnalyzeStatement(ctx, ss[0], f).facts;
      AnalysisGrows(ctx, ss[0], f);
      SuiteAnalysisGrows(ctx, ss[1..], first);
      var head := MissingFinalHappens(ctx, ss[0], f, v, written);
      var tail := MissingFinalInSuite(ctx, ss[1..], first, v, Exec(ctx, ss[0], head, written).written);
      paths := [head] + tail;
    }
  }

  lemma {:induction false} MissingFinalInBranches(ctx: Context, bs: seq<Branch>, f: Facts, merged: Facts,
                                                  hasBranch: bool,
                                                  v: Variable, written: set<Variable>)
    returns (arms: seq<Arm>)
    requires f.Valid() && f.reachable && v !in written
    requires var g := AfterMatch(AnalyzeBranches(ctx, bs, f, merged, hasBranch), f); g.reachable && v !in g.definite
    requires hasBranch && merged.reachable ==> v in merged.definite
    ensures forall i :: 0 <= i < |arms| ==> AllOnce(arms[i].body)
    ensures var r := ExecBranches(ctx, bs, arms, written); r.outcome == Next && v !in r.written
    decreases bs, 0
  {
    arms := [];
    if bs != [] {
      var branch := AnalyzeBranch(ctx, bs[0], f).facts;
      if branch.reachable && v !in branch.definite {
        var guarded := if bs[0].guard.None? then f else AnalyzeExpression(ctx, bs[0].guard.value, f).facts;
        if !guarded.reachable {
          UnreachableSuite(ctx, bs[0].block, guarded);
        }
        assert guarded == f;
        var body := MissingFinalInSuite(ctx, bs[0].block, f, v, written);
        arms := [SKIPPED_ARM.(matches := true, guardHolds := true, body := body)];
      } else {
        var joined := if hasBranch then Merge(merged, branch) else branch;
        var rest := MissingFinalInBranches(ctx, bs[1..], f, joined, true, v, written);
        arms := [SKIPPED_ARM] + rest;
        assert arms[1..] == rest;
      }
    }
  }

  predicate IsEarly(d: Diagnostic) {
    d.UsedBeforeAssignment? || d.UnassignedAtReturn?
  }

  ghost predicate GoesWrong(v: Variable, fs: set<Fault>) {
    ReadUnassigned(v) in fs || ReturnedWithout(v) in fs
  }

  /** Early diagnostics name finals that are not definite on entry. */
  lemma {:induction false} DiagnosedIsIndefinite(ctx: Context, s: Stmt, f: Facts, d: Diagnostic)
    requires f.Valid() && IsEarly(d) && d in AnalyzeStatement(ctx, s, f).diagnostics
    ensures f.reachable && d.variable !in f.definite
    decreases s, 0
  {
    match s
    case If(condition, trueBlock, falseBlock) =>
      if d in AnalyzeSuite(ctx, trueBlock, f).diagnostics {
        DiagnosedInSuiteIsIndefinite(ctx, trueBlock, f, d);
      } else if d in AnalyzeSuite(ctx, falseBlock, f).diagnostics {
        DiagnosedInSuiteIsIndefinite(ctx, falseBlock, f, d);
      }
    case For(_, loop) =>
      if d in AnalyzeSuite(ctx, loop, f).diagnostics { DiagnosedInSuiteIsIndefinite(ctx, loop, f, d); }
    case While(_, loop) =>
      if d in AnalyzeSuite(ctx, loop, f).diagnostics { DiagnosedInSuiteIsIndefinite(ctx, loop, f, d); }
    case Match(_, branches) =>
      if d in AnalyzeBranches(ctx, branches, f, Facts({}, {}, false), false).diagnostics {
        DiagnosedInBranchesIsIndefinite(ctx, branches, f, Facts({}, {}, false), false, d);
      }
    case Suite(statements) => DiagnosedInSuiteIsIndefinite(ctx, statements, f, d);
    case _ =>
  }

  lemma {:induction false} DiagnosedInSuiteIsIndefinite(ctx: Context, ss: seq<Stmt>, f: Facts, d: Diagnostic)
    requires f.Valid() && IsEarly(d) && d in AnalyzeSuite(ctx, ss, f).diagnostics
    ensures f.reachable && d.variable !in f.definite
    decreases ss, 0
  {
    AnalysisGrows(ctx, ss[0], f);
    if d in AnalyzeStatement(ctx, ss[0], f).diagnostics {
      DiagnosedIsIndefinite(ctx, ss[0], f, d);
    } else {
      DiagnosedInSuiteIsIndefinite(ctx, ss[1..], AnalyzeStatement(ctx, ss[0], f).facts, d);
    }
  }

  lemma {:induction false} DiagnosedInBranchesIsIndefinite(ctx: Context, bs: seq<Branch>, f: Facts, merged: Facts,
                                                           hasBranch: bool, d: Diagnostic)
    requires f.Valid() && f.reachable && IsEarly(d) && d in AnalyzeBranches(ctx, bs, f, merged, hasBranch).diagnostics
    ensures d.variable !in f.definite
    decreases bs, 0
  {
    var branch := AnalyzeBranch(ctx, bs[0], f);
    var guarded := if bs[0].guard.None? then f else AnalyzeExpression(ctx, bs[0].guard.value, f).facts;
    if d in AnalyzeSuite(ctx, bs[0].block, guarded).diagnostics {
      DiagnosedInSuiteIsIndefinite(ctx, bs[0].block, guarded, d);
    } else if d !in branch.diagnostics {
      DiagnosedInBranchesIsIndefinite(ctx, bs[1..], f, if hasBranch then Merge(merged, branch.facts)
                                                       else branch.facts, true, d);
    }
  }

  lemma LeafFaultHappens(ctx: Context, s: Stmt, f: Facts, d: Diagnostic, written: set<Variable>)
    returns (path: Path)
    requires IsLeaf(s) && IsEarly(d) && d in AnalyzeStatement(ctx, s, f).diagnostics && d.variable !in written
    ensures Once(path)
    ensures GoesWrong(d.variable, Exec(ctx, s, path, written).faults)
  {
    var v := d.variable;
    match s
    case Assignment(assignee, compound, assignedValue) =>
      path := EarlyStoreHappens(ctx, assignee, compound, assignedValue, f, d, written);
    case Return(result) => path := Simple([ReadIfPossible(ctx, result, v)]);
    case Declare(_, initializer) => path := Simple([ReadIfPossible(ctx, initializer.value, v)]);
    case Destructure(_, initializer) => path := Simple([ReadIfPossible(ctx, initializer.value, v)]);
    case Assert(condition, message) =>
      path := Simple([ReadIfPossible(ctx, condition, v), ReadIfPossible(ctx, message, v)]);
    case Evaluate(e) => path := Simple([ReadIfPossible(ctx, e, v)]);
    case _ => path := Stopped;
  }

  /** Every early diagnostic is backed by a run that reads, or returns without,
      the final it names. */
  lemma {:induction false} DiagnosedFaultHappens(ctx: Context, s: Stmt, f: Facts, d: Diagnostic, written: set<Variable>)
    returns (path: Path)
    requires f.Valid() && IsEarly(d) && d in AnalyzeStatement(ctx, s, f).diagnostics && d.variable !in written
    ensures Once(path)
    ensures GoesWrong(d.variable, Exec(ctx, s, path, written).faults)
    decreases s, 0
  {
    var v := d.variable;
    match s
    case If(condition, trueBlock, falseBlock) =>
      var ev := ReadIfPossible(ctx, condition, v);
      path := Branching([ev], true, []);
      if d in AnalyzeSuite(ctx, trueBlock, f).diagnostics {
        var body := DiagnosedFaultInSuite(ctx, trueBlock, f, d, written);
        path := Branching([ev], true, body);
      } else if d in AnalyzeSuite(ctx, falseBlock, f).diagnostics {
        var body := DiagnosedFaultInSuite(ctx, falseBlock, f, d, written);
        path := Branching([ev], false, body);
      }
    case For(list, loop) =>
      var ev := ReadIfPossible(ctx, list, v);
      path := Looping([ev], []);
      if d in AnalyzeSuite(ctx, loop, f).diagnostics {
        var body := DiagnosedFaultInSuite(ctx, loop, f, d, written);
        path := Looping([ev], [Round(ev, body)]);
      }
    case While(condition, loop) =>
      var ev := ReadIfPossible(ctx, condition, v);
      path := Looping([ev], []);
      if d in AnalyzeSuite(ctx, loop, f).diagnostics {
        var body := DiagnosedFaultInSuite(ctx, loop, f, d, written);
        path := Looping([ev], [Round(ev, body)]);
      }
    case Match(test, branches) =>
      var ev := ReadIfPossible(ctx, test, v);
      path := Matching([ev], []);
      if d in AnalyzeBranches(ctx, branches, f, Facts({}, {}, false), false).diagnostics {
        var arms := DiagnosedFaultInBranches(ctx, branches, f, Facts({}, {}, false), false, d, written);
        path := Matching([ev], arms);
      }
    case Suite(statements) =>
      var body := DiagnosedFaultInSuite(ctx, statements, f, d, written);
      path := Branching([], true, body);
    case _ => path := LeafFaultHappens(ctx, s, f, d, written);
  }

  lemma EarlyStoreHappens(ctx: Context, assignee: Expr, compound: bool, assignedValue: Expr, f: Facts, d: Diagnostic,
                          written: set<Variable>)
    returns (path: Path)
    requires IsEarly(d) && d in AnalyzeAssignment(ctx, assignee, compound, assignedValue, f).diagnostics
             && d.variable !in written
    ensures Once(path)
    ensures !path.Stopped? && GoesWrong(d.variable,
                                        ExecAssignment(ctx, assignee, compound, assignedValue, path, written).faults)
  {
    var v := d.variable;
    var first, second := ReadIfPossible(ctx, assignedValue, v), Eval(false, [], Some(v));
    if !IsSlot(ctx, assignee) && v in ReadsBelow(ctx, assignee) {
      second := EveryPartReadHappens(ctx, assignee, v);
    }
    path := Simple([first, second]);
  }

  ghost function ReadIfPossible(ctx: Context, e: Expr, v: Variable): (ev: Eval)
    ensures v in Reads(ctx, e) ==> v in ReadIn(ctx, e, ev)
  {
    if v in Reads(ctx, e) then
      assert exists ev :: v in ReadIn(ctx, e, ev) by { var ev := EveryReadHappens(ctx, e, v); }
      var ev :| v in ReadIn(ctx, e, ev);
      ev
    else Eval(false, [])
  }

  lemma {:induction false} DiagnosedFaultInSuite(ctx: Context, ss: seq<Stmt>, f: Facts, d: Diagnostic,
                                                 written: set<Variable>)
    returns (paths: seq<Path>)
    requires f.Valid() && IsEarly(d) && d in AnalyzeSuite(ctx, ss, f).diagnostics && d.variable !in written
    ensures AllOnce(paths)
    ensures GoesWrong(d.variable, ExecSuite(ctx, ss, paths, written).faults)
    decreases ss, 0
  {
    AnalysisGrows(ctx, ss[0], f);
    var first := AnalyzeStatement(ctx, ss[0], f);
    if d in first.diagnostics {
      var head := DiagnosedFaultHappens(ctx, ss[0], f, d, written);
      paths := [head];
      assert Exec(ctx, ss[0], paths[0], written).faults <= ExecSuite(ctx, ss, paths, written).faults;
    } else {
      DiagnosedInSuiteIsIndefinite(ctx, ss[1..], first.facts, d);
      var head := MissingFinalHappens(ctx, ss[0], f, d.variable, written);
      var tail := DiagnosedFaultInSuite(ctx, ss[1..], first.facts, d, Exec(ctx, ss[0], head, written).written);
      paths := [head] + tail;
    }
  }

  lemma {:induction false} DiagnosedFaultInBranches(ctx: Context, bs: seq<Branch>, f: Facts, merged: Facts,
                                                    hasBranch: bool,
                                                    d: Diagnostic, written: set<Variable>)
    returns (arms: seq<Arm>)
    requires f.Valid() && f.reachable && IsEarly(d) && d.variable !in written
    requires d in AnalyzeBranches(ctx, bs, f, merged, hasBranch).diagnostics
    ensures forall i :: 0 <= i < |arms| ==> AllOnce(arms[i].body)
    ensures GoesWrong(d.variable, ExecBranches(ctx, bs, arms, written).faults)
    decreases bs, 0
  {
    var branch := AnalyzeBranch(ctx, bs[0], f);
    var guarded := if bs[0].guard.None? then f else AnalyzeExpression(ctx, bs[0].guard.value, f).facts;
    var entered := SKIPPED_ARM.(matches := true, guardHolds := true);
    if d !in branch.diagnostics {
      var rest := DiagnosedFaultInBranches(ctx, bs[1..], f, if hasBranch then Merge(merged, branch.facts)
                                                            else branch.facts, true, d, written);
      arms := [SKIPPED_ARM] + rest;
      assert arms[1..] == rest;
    } else if d.variable in PatternsRead(ctx, bs[0].patterns)
              && d in Unassigned(PatternsRead(ctx, bs[0].patterns), f.definite) {
      var ev := EveryPatternsReadHappens(ctx, bs[0].patterns, d.variable);
      arms := [entered.(patterns := ev)];
    } else if d in AnalyzeSuite(ctx, bs[0].block, guarded).diagnostics {
      if !guarded.reachable {
        UnreachableSuite(ctx, bs[0].block, guarded);
      }
      assert guarded == f;
      var body := DiagnosedFaultInSuite(ctx, bs[0].block, f, d, written);
      arms := [entered.(body := body)];
    } else {
      var ev := ReadIfPossible(ctx, bs[0].guard.value, d.variable);
      arms := [entered.(guard := ev)];
    }
  }

  // ---------------------------------------------------------------------------
  // The main results.
  // ---------------------------------------------------------------------------

  ghost predicate NeverFaults(ctx: Context, ss: seq<Stmt>, written: set<Variable>) {
    forall paths :: ExecSuite(ctx, ss, paths, written).faults == {}
  }

  lemma RunsOfAcceptedSuiteAreClean(ctx: Context, ss: seq<Stmt>, f: Facts, paths: seq<Path>)
    requires QuietSuite(ctx, ss) && ScopedSuite(ctx, ss) && f.reachable && f.Valid() && f.definite == f.possible
    requires f.definite !! DeclaresOfAll(ctx, ss)
    requires AnalyzeSuite(ctx, ss, f).diagnostics == {}
    ensures ExecSuite(ctx, ss, paths, f.definite).faults == {}
  {
    SuiteIsSafe(ctx, ss, f, paths, f.definite);
    SuiteAgreesWithFlow(ctx, ss, f);
    SuiteCovers(ctx, ss, f.possible, paths, f.definite);
    var faults := ExecSuite(ctx, ss, paths, f.definite).faults;
    assert forall x :: x in faults ==> x == WrittenTwice(x.variable);
  }

  /** A suite whose loops write no tracked final is accepted if and only if no
      run of it, from the finals written so far, goes wrong in any way. */
  lemma AcceptedIffNoRunFaults(ctx: Context, ss: seq<Stmt>, written: set<Variable>)
    requires QuietSuite(ctx, ss) && ScopedSuite(ctx, ss) && written !! DeclaresOfAll(ctx, ss)
    ensures AnalyzeSuite(ctx, ss, Facts(written, written, true)).diagnostics == {} <==> NeverFaults(ctx, ss, written)
  {
    var f := Facts(written, written, true);
    var report := AnalyzeSuite(ctx, ss, f);
    QuietSuitesDeclareNothing(ctx, ss);
    if report.diagnostics == {} {
      forall paths
        ensures ExecSuite(ctx, ss, paths, written).faults == {}
      {
        RunsOfAcceptedSuiteAreClean(ctx, ss, f, paths);
      }
    } else {
      var d :| d in report.diagnostics;
      DiagnosticsAreOfThreeKinds(ctx, ss, f);
      if IsEarly(d) {
        DiagnosedInSuiteIsIndefinite(ctx, ss, f, d);
        var paths := DiagnosedFaultInSuite(ctx, ss, f, d, written);
        assert ExecSuite(ctx, ss, paths, written).faults != {};
      } else {
        SuiteAgreesWithFlow(ctx, ss, f);
        var paths := SecondWriteInSuite(ctx, ss, written, d.variable, written);
        assert ExecSuite(ctx, ss, paths, written).faults != {};
      }
    }
  }

  predicate OfThreeKinds(d: Diagnostic) {
    IsEarly(d) || d.AlreadyAssigned?
  }

  lemma {:induction false} DiagnosticsAreOfThreeKinds(ctx: Context, ss: seq<Stmt>, f: Facts)
    ensures forall d :: d in AnalyzeSuite(ctx, ss, f).diagnostics ==> OfThreeKinds(d)
    decreases ss, 0
  {
    if ss != [] {
      var s := ss[0];
      match s {
        case If(_, trueBlock, falseBlock) =>
          DiagnosticsAreOfThreeKinds(ctx, trueBlock, f);
          DiagnosticsAreOfThreeKinds(ctx, falseBlock, f);
        case For(_, loop) => DiagnosticsAreOfThreeKinds(ctx, loop, f);
        case While(_, loop) => DiagnosticsAreOfThreeKinds(ctx, loop, f);
        case Match(_, branches) => BranchDiagnosticsAreOfThreeKinds(ctx, branches, f, Facts({}, {}, false), false);
        case Suite(statements) => DiagnosticsAreOfThreeKinds(ctx, statements, f);
        case _ =>
      }
      DiagnosticsAreOfThreeKinds(ctx, ss[1..], AnalyzeStatement(ctx, s, f).facts);
    }
  }

  lemma {:induction false} BranchDiagnosticsAreOfThreeKinds(ctx: Context, bs: seq<Branch>, f: Facts, merged: Facts,
                                                            hasBranch: bool)
    ensures forall d :: d in AnalyzeBranches(ctx, bs, f, merged, hasBranch).diagnostics ==> OfThreeKinds(d)
    decreases bs, 0
  {
    if bs != [] {
      var branch := AnalyzeBranch(ctx, bs[0], f).facts;
      var guarded := if bs[0].guard.None? then f else AnalyzeExpression(ctx, bs[0].guard.value, f).facts;
      DiagnosticsAreOfThreeKinds(ctx, bs[0].block, guarded);
      BranchDiagnosticsAreOfThreeKinds(ctx, bs[1..], f, if hasBranch then Merge(merged, branch) else branch, true);
    }
  }

  /** With loops of any kind, an accepted suite is free of every fault if and
      only if `Flow` finds no second write.  Acceptance alone always rules out
      early reads and returns. */
  lemma AcceptedWithLoops(ctx: Context, ss: seq<Stmt>, written: set<Variable>)
    requires ScopedSuite(ctx, ss) && SuiteLoopsDeclareNothing(ctx, ss) && written !! DeclaresOfAll(ctx, ss)
    requires AnalyzeSuite(ctx, ss, Facts(written, written, true)).diagnostics == {}
    ensures forall paths :: NeverUnassigned(ExecSuite(ctx, ss, paths, written).faults)
    ensures NeverFaults(ctx, ss, written) <==> FlowSuite(ctx, ss, written).twice == {}
  {
    forall paths
      ensures NeverUnassigned(ExecSuite(ctx, ss, paths, written).faults)
    {
      SuiteIsSafe(ctx, ss, Facts(written, written, true), paths, written);
    }
    WritesOnceIffFlowSaysSo(ctx, ss, written);
    if FlowSuite(ctx, ss, written).twice == {} {
      forall paths
        ensures ExecSuite(ctx, ss, paths, written).faults == {}
      {
        var faults := ExecSuite(ctx, ss, paths, written).faults;
        assert forall x :: x in faults ==> x == WrittenTwice(x.variable);
      }
    }
  }

  /** After a suite, the definite finals are exactly those that every run that
      falls through has written, and the suite is reachable to its end exactly
      when some run falls through. */
  lemma DefiniteIsExact(ctx: Context, ss: seq<Stmt>, written: set<Variable>, v: Variable)
    requires ScopedSuite(ctx, ss) && written !! DeclaresOfAll(ctx, ss)
    requires AnalyzeSuite(ctx, ss, Facts(written, written, true)).diagnostics == {}
    ensures var g := AnalyzeSuite(ctx, ss, Facts(written, written, true)).facts;
            (g.reachable ==> v in g.definite) <==>
            forall paths :: ExecSuite(ctx, ss, paths, written).outcome == Next ==>
              v in ExecSuite(ctx, ss, paths, written).written
  {
    var f := Facts(written, written, true);
    var g := AnalyzeSuite(ctx, ss, f).facts;
    forall paths
      ensures ExecSuite(ctx, ss, paths, written).outcome == Next ==>
              g.reachable && g.definite <= ExecSuite(ctx, ss, paths, written).written
    {
      SuiteIsSafe(ctx, ss, f, paths, written);
    }
    if g.reachable && v !in g.definite {
      SuiteAnalysisGrows(ctx, ss, f);
      var paths := MissingFinalInSuite(ctx, ss, f, v, written);
      assert ExecSuite(ctx, ss, paths, written).outcome == Next && v !in ExecSuite(ctx, ss, paths, written).written;
    }
  }

  // ---------------------------------------------------------------------------
  // Outside the condition on loops both directions fail.
  // ---------------------------------------------------------------------------

  const X := Variable(0, "x", true, false)

  const X_SLOT := Identifier("x", MemberVariable, Some(X))

  const WRITE_X := Assignment(X_SLOT, false, Literal)

  const MEMBERS := Context({X}, map["x" := X], InstanceMember, false, {}, map[], false)

  /** `for i in list: x = 0` is accepted, yet two rounds write `x` twice. */
  lemma LoopCanWriteTwice()
    ensures AnalyzeSuite(MEMBERS, [For(Literal, [WRITE_X])], Facts({}, {}, true)).diagnostics == {}
    ensures exists paths :: WrittenTwice(X) in ExecSuite(MEMBERS, [For(Literal, [WRITE_X])], paths, {}).faults
    ensures !QuietSuite(MEMBERS, [For(Literal, [WRITE_X])])
  {
    var round := Round(Eval(false, []), [Simple([])]);
    var body := [WRITE_X];
    assert body[1..] == [] && [round, round][1..] == [round] && [round][1..] == [];
    assert Slot(MEMBERS, X_SLOT) == {X};
    var once := ExecSuite(MEMBERS, body, round.body, {});
    assert once.written == {X} && once.outcome == Next by {
      var first := Exec(MEMBERS, WRITE_X, Simple([]), {});
      assert Stored(MEMBERS, X_SLOT, Eval(false, [])) == {X};
      assert first.written == {X} && first.outcome == Next;
      assert body[0] == WRITE_X && round.body[0] == Simple([]) && round.body[1..] == [];
      assert ExecSuite(MEMBERS, body[1..], [], {X}) == Ends({X}, Next);
    }
    assert WrittenTwice(X) in ExecSuite(MEMBERS, body, round.body, {X}).faults by {
      assert WrittenTwice(X) in Exec(MEMBERS, WRITE_X, Simple([]), {X}).faults;
    }
    assert WrittenTwice(X) in ExecLoop(MEMBERS, Literal, body, [round], {X}).faults;
    assert WrittenTwice(X) in ExecLoop(MEMBERS, Literal, body, [round, round], {}).faults;
    var path := Looping([], [round, round]);
    assert WrittenTwice(X) in Exec(MEMBERS, For(Literal, body), path, {}).faults;
    assert WrittenTwice(X) in ExecSuite(MEMBERS, [For(Literal, body)], [path], {}).faults;
    assert AnalyzeSuite(MEMBERS, body, Facts({}, {}, true)).diagnostics == {};
    assert WritesOfAll(MEMBERS, body) == {X};
  }

  const RETURNING_LOOP := [For(Literal, [WRITE_X, Return(Literal)]), WRITE_X]

  /** `for i in list: x = 0; return` followed by `x = 0` is rejected, although
      every run writes `x` once. */
  lemma LoopCanBeRejectedNeedlessly()
    ensures AlreadyAssigned(X) in AnalyzeSuite(MEMBERS, RETURNING_LOOP, Facts({}, {}, true)).diagnostics
    ensures FlowSuite(MEMBERS, RETURNING_LOOP, {}).twice == {}
    ensures forall paths, v :: WrittenTwice(v) !in ExecSuite(MEMBERS, RETURNING_LOOP, paths, {}).faults
  {
    var body := [WRITE_X, Return(Literal)];
    var loop := For(Literal, body);
    assert Slot(MEMBERS, X_SLOT) == {X};
    assert body[1..] == [Return(Literal)] && RETURNING_LOOP[1..] == [WRITE_X];
    assert FlowSuite(MEMBERS, [Return(Literal)], {X}) == NOWHERE;
    assert FlowSuite(MEMBERS, body, {}) == NOWHERE;
    assert FlowStatement(MEMBERS, loop, {}) == NOWHERE.(next := Some({})) by {
      assert AtHead(FlowSuite(MEMBERS, body, {}), {}) == {};
    }
    assert FlowSuite(MEMBERS, [WRITE_X], {}).twice == {} by {
      assert Slot(MEMBERS, X_SLOT) + LateSlots(MEMBERS, X_SLOT) == {X};
      assert FlowStatement(MEMBERS, WRITE_X, {})
             == NOWHERE.(next := Some({} + {X}), twice := {} * Touched(MEMBERS, X_SLOT));
      assert FlowSuite(MEMBERS, [], {} + {X}).twice == {};
    }
    MemberSuitesAreScoped(MEMBERS, RETURNING_LOOP);
    MemberLoopsDeclareNothing(MEMBERS, RETURNING_LOOP);
    WritesOnceIffFlowSaysSo(MEMBERS, RETURNING_LOOP, {});
    var afterBody := AnalyzeSuite(MEMBERS, body, Facts({}, {}, true)).facts;
    assert afterBody.possible == {X} by {
      var once := AnalyzeStatement(MEMBERS, WRITE_X, Facts({}, {}, true)).facts;
      assert once == Facts({X}, {X}, true);
      assert AnalyzeStatement(MEMBERS, Return(Literal), once).facts == Facts({X}, {X}, false);
      assert AnalyzeSuite(MEMBERS, [Return(Literal)], once).facts == Facts({X}, {X}, false);
    }
    var afterLoop := AnalyzeStatement(MEMBERS, loop, Facts({}, {}, true)).facts;
    assert afterLoop == Facts({}, {X}, true);
    assert AlreadyAssigned(X) in AnalyzeStatement(MEMBERS, WRITE_X, afterLoop).diagnostics;
  }

  lemma {:induction false} MemberLoopsDeclareNothing(ctx: Context, ss: seq<Stmt>)
    requires DeclaresNone(ctx)
    ensures SuiteLoopsDeclareNothing(ctx, ss)
    decreases ss, 0
  {
    if ss != [] {
      match ss[0] {
        case If(_, trueBlock, falseBlock) =>
          MemberLoopsDeclareNothing(ctx, trueBlock);
          MemberLoopsDeclareNothing(ctx, falseBlock);
        case For(_, loop) =>
          MemberLoopsDeclareNothing(ctx, loop);
          MemberSuitesAreScoped(ctx, loop);
        case While(_, loop) =>
          MemberLoopsDeclareNothing(ctx, loop);
          MemberSuitesAreScoped(ctx, loop);
        case Match(_, branches) => MemberBranchLoopsDeclareNothing(ctx, branches);
        case Suite(statements) => MemberLoopsDeclareNothing(ctx, statements);
        case _ =>
      }
      MemberLoopsDeclareNothing(ctx, ss[1..]);
    }
  }

  lemma {:induction false} MemberBranchLoopsDeclareNothing(ctx: Context, bs: seq<Branch>)
    requires DeclaresNone(ctx)
    ensures BranchLoopsDeclareNothing(ctx, bs)
    decreases bs, 0
  {
    if bs != [] {
      MemberLoopsDeclareNothing(ctx, bs[0].block);
      MemberBranchLoopsDeclareNothing(ctx, bs[1..]);
    }
  }
}
