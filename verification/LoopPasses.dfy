/** Loops that write tracked finals.  The analysis looks at a loop body once, so
    it is compared here with runs in which no loop goes round twice, and what it
    calls possible is compared with what any run has written. */
module LoopPasses {
  import opened Options
  import opened Syntax
  import opened FinalResolution
  import opened DefiniteAssignment
  import opened AssignmentRuns
  import opened ReadSoundness
  import opened WriteOnce
  import opened AssignmentExactness

  /** Where a statement stands: in no loop, in the body of one, or in a branch
      within the body of one. */
  datatype Place = Outside | InLoop | InBranch

  function Branched(place: Place): Place {
    if place.Outside? then Outside else InBranch
  }

  /** Loops are left and continued only at the end of their bodies, not from a
      branch inside, and if `through` holds, nothing in them returns or halts. */
  predicate Regular(s: Stmt, place: Place, through: bool)
    decreases s, 0
  {
    match s
    case If(_, trueBlock, falseBlock) =>
      RegularSuite(trueBlock, Branched(place), through) && RegularSuite(falseBlock, Branched(place), through)
    case For(_, loop) => RegularSuite(loop, InLoop, through)
    case While(_, loop) => RegularSuite(loop, InLoop, through)
    case Match(_, branches) => RegularBranches(branches, Branched(place), through)
    case Suite(statements) => RegularSuite(statements, place, through)
    case Break => !place.InBranch?
    case Continue => !place.InBranch?
    case Return(_) => place.Outside? || !through
    case Evaluate(e) => place.Outside? || !through || !NeverReturns(e)
    case _ => true
  }

  predicate RegularSuite(ss: seq<Stmt>, place: Place, through: bool)
    decreases ss, 0
  {
    ss == [] || (Regular(ss[0], place, through) && RegularSuite(ss[1..], place, through))
  }

  predicate RegularBranches(bs: seq<Branch>, place: Place, through: bool)
    decreases bs, 0
  {
    bs == [] ||
    (RegularSuite(bs[0].block, place, through) && RegularBranches(bs[1..], place, through)
     && (place.Outside? || !through || bs[0].guard.None? || !NeverReturns(bs[0].guard.value)))
  }

  // ---------------------------------------------------------------------------
  // What is possible bounds what is written.
  // ---------------------------------------------------------------------------

  /** An exit that exists leaves no more written than the analysis says. */
  ghost predicate Below(exit: Option<set<Variable>>, facts: Facts) {
    exit.Some? ==> exit.value <= facts.possible
  }

  ghost predicate FlowsBelow(flow: Flow, g: Facts, place: Place, through: bool) {
    && (flow.next.Some? <==> g.reachable)
    && Below(flow.next, g)
    && (place.InLoop? ==> Below(flow.broke, g) && Below(flow.continued, g))
    && (place.InLoop? && g.reachable ==> flow.broke.None? && flow.continued.None?)
    && (place.InBranch? ==> flow.broke.None? && flow.continued.None?)
    && (through ==> IsFlow(flow, g, place))
  }

  /** Where loops run through, the analysis loses nothing and adds nothing. */
  ghost predicate IsFlow(flow: Flow, g: Facts, place: Place) {
    && flow.next == Possible(g)
    && (place.InBranch? ==> g.reachable)
    && (place.InLoop? && !g.reachable ==> g.possible == Elements(flow.broke) + Elements(flow.continued))
  }

  lemma {:induction false} PossibleBoundsFlow(ctx: Context, s: Stmt, place: Place, f: Facts, through: bool)
    requires f.Valid() && f.reachable && Regular(s, place, through)
    ensures FlowsBelow(FlowStatement(ctx, s, f.possible), AnalyzeStatement(ctx, s, f).facts, place, through)
    decreases s, 0
  {
    match s
    case If(_, trueBlock, falseBlock) =>
      PossibleBoundsSuite(ctx, trueBlock, Branched(place), f, through);
      PossibleBoundsSuite(ctx, falseBlock, Branched(place), f, through);
    case For(_, loop) => PossibleBoundsLoop(ctx, loop, f, through);
    case While(_, loop) => PossibleBoundsLoop(ctx, loop, f, through);
    case Match(_, branches) =>
      PossibleBoundsBranches(ctx, branches, Branched(place), f, Facts({}, {}, false), false, through);
    case Suite(statements) => PossibleBoundsSuite(ctx, statements, place, f, through);
    case Assignment(assignee, compound, assignedValue) =>
      StoreAgreesWithFlow(ctx, assignee, compound, assignedValue, f);
    case _ =>
  }

  lemma {:induction false} PossibleBoundsSuite(ctx: Context, ss: seq<Stmt>, place: Place, f: Facts, through: bool)
    requires f.Valid() && f.reachable && RegularSuite(ss, place, through)
    ensures FlowsBelow(FlowSuite(ctx, ss, f.possible), AnalyzeSuite(ctx, ss, f).facts, place, through)
    decreases ss, 0
  {
    if ss != [] {
      PossibleBoundsFlow(ctx, ss[0], place, f, through);
      AnalysisGrows(ctx, ss[0], f);
      var g := AnalyzeStatement(ctx, ss[0], f).facts;
      if g.reachable {
        PossibleBoundsSuite(ctx, ss[1..], place, g, through);
        var less := FlowStatement(ctx, ss[0], f.possible).next.value;
        FlowIsMonotone(ctx, ss[1..], less, g.possible);
      } else {
        UnreachableSuite(ctx, ss[1..], g);
      }
    }
  }

  /** What was written earlier only adds. */
  lemma FlowIsMonotone(ctx: Context, ss: seq<Stmt>, before: set<Variable>, more: set<Variable>)
    requires before <= more
    ensures var narrow, wide := FlowSuite(ctx, ss, before), FlowSuite(ctx, ss, more);
            Distributes(narrow, wide, more)
  {
    SuiteDistributes(ctx, ss, before, more);
    assert before + more == more;
  }

  lemma {:induction false} PossibleBoundsLoop(ctx: Context, loop: seq<Stmt>, f: Facts, through: bool)
    requires f.Valid() && f.reachable && RegularSuite(loop, InLoop, through)
    ensures var leaving, behind := FlowLoop(ctx, loop, f.possible).next.value,
            f.possible + AnalyzeSuite(ctx, loop, f).facts.possible;
            leaving <= behind && (through ==> leaving == behind)
    decreases loop, 1
  {
    PossibleBoundsSuite(ctx, loop, InLoop, f, through);
    HeadIsStable(ctx, loop, f.possible);
  }

  lemma {:induction false} PossibleBoundsBranches(ctx: Context, bs: seq<Branch>, place: Place, f: Facts, merged: Facts,
                                                  hasBranch: bool, through: bool)
    requires f.Valid() && f.reachable && RegularBranches(bs, place, through) && !place.InLoop?
    ensures var g := AfterMatch(AnalyzeBranches(ctx, bs, f, merged, hasBranch), f);
            var flow := FlowBranches(ctx, bs, f.possible);
            && (g.reachable <==> flow.next.Some? || (hasBranch && merged.reachable))
            && Below(flow.next, g)
            && (hasBranch && merged.reachable ==> merged.possible <= g.possible)
            && (place.InBranch? ==> flow.broke.None? && flow.continued.None?)
            && (through ==> Possible(g) == Join(if hasBranch then Possible(merged) else None, flow.next))
            && (through && place.InBranch? ==> flow.next.Some?)
    decreases bs, 0
  {
    if bs != [] {
      var branch := AnalyzeBranch(ctx, bs[0], f);
      var guarded := if bs[0].guard.None? then f else AnalyzeExpression(ctx, bs[0].guard.value, f).facts;
      if guarded.reachable {
        assert guarded == f;
        PossibleBoundsSuite(ctx, bs[0].block, place, f, through);
      } else {
        UnreachableSuite(ctx, bs[0].block, guarded);
      }
      if !CatchAll(bs[0]) {
        PossibleBoundsBranches(ctx, bs[1..], place, f,
                               if hasBranch then Merge(merged, branch.facts) else branch.facts, true, through);
        JoinIsAssociative(if hasBranch then Possible(merged) else None, Possible(branch.facts),
                          FlowBranches(ctx, bs[1..], f.possible).next);
      }
    }
  }

  /** However often loops go round, a run that falls through has written no
      tracked final but those that the analysis calls possible, unless a loop is
      left or continued from a branch inside. */
  lemma WrittenIsPossible(ctx: Context, ss: seq<Stmt>, paths: seq<Path>, written: set<Variable>)
    requires RegularSuite(ss, Outside, false)
    ensures var r := ExecSuite(ctx, ss, paths, written);
            var g := AnalyzeSuite(ctx, ss, Facts(written, written, true)).facts;
            r.outcome == Next ==> g.reachable && r.written <= g.possible
  {
    PossibleBoundsSuite(ctx, ss, Outside, Facts(written, written, true), false);
    SuiteCovers(ctx, ss, written, paths, written);
  }

  // ---------------------------------------------------------------------------
  // Runs in which no loop goes round twice.
  // ---------------------------------------------------------------------------

  ghost predicate WritesOnce(fs: set<Fault>) {
    forall v :: WrittenTwice(v) !in fs
  }

  lemma RunStaysPossible(ctx: Context, s: Stmt, place: Place, f: Facts, path: Path, written: set<Variable>)
    requires f.Valid() && f.reachable && written <= f.possible && Regular(s, place, false)
    requires Exec(ctx, s, path, written).outcome == Next
    ensures var g := AnalyzeStatement(ctx, s, f).facts;
            g.Valid() && g.reachable && Exec(ctx, s, path, written).written <= g.possible
  {
    AnalysisGrows(ctx, s, f);
    PossibleBoundsFlow(ctx, s, place, f, false);
    FlowCovers(ctx, s, f.possible, path, written);
  }

  lemma {:induction false} OnePassWritesOnce(ctx: Context, s: Stmt, place: Place, f: Facts, path: Path,
                                             written: set<Variable>)
    requires f.Valid() && f.reachable && written <= f.possible && Regular(s, place, false) && Once(path)
    requires AnalyzeStatement(ctx, s, f).diagnostics == {}
    ensures WritesOnce(Exec(ctx, s, path, written).faults)
    decreases s, 0
  {
    if !path.Stopped? {
      match s
      case If(_, trueBlock, falseBlock) =>
        if path.Branching? {
          OnePassInSuite(ctx, if path.taken then trueBlock else falseBlock, Branched(place), f, path.body, written);
        }
      case For(_, loop) => if path.Looping? { OnePassInLoop(ctx, Literal, loop, f, path.rounds, written); }
      case While(condition, loop) =>
        if path.Looping? { OnePassInLoop(ctx, condition, loop, f, path.rounds, written); }
      case Match(_, branches) =>
        if path.Matching? {
          OnePassInBranches(ctx, branches, Branched(place), f, Facts({}, {}, false), false, path.arms, written);
        }
      case Suite(statements) =>
        if path.Branching? { OnePassInSuite(ctx, statements, place, f, path.body, written); }
      case Assignment(assignee, compound, assignedValue) =>
        AcceptedStoreWritesOnce(ctx, assignee, compound, assignedValue, f, path, written);
      case _ =>
    }
  }

  lemma AcceptedStoreWritesOnce(ctx: Context, assignee: Expr, compound: bool, assignedValue: Expr, f: Facts, path: Path,
                                written: set<Variable>)
    requires f.Valid() && f.reachable && written <= f.possible
    requires AnalyzeAssignment(ctx, assignee, compound, assignedValue, f).diagnostics == {}
    ensures WritesOnce(ExecAssignment(ctx, assignee, compound, assignedValue, path, written).faults)
  {
    StoreAgreesWithFlow(ctx, assignee, compound, assignedValue, f);
    StoreCovers(ctx, assignee, compound, assignedValue, f.possible, path, written);
  }

  lemma {:induction false} OnePassInSuite(ctx: Context, ss: seq<Stmt>, place: Place, f: Facts, paths: seq<Path>,
                                          written: set<Variable>)
    requires f.Valid() && f.reachable && written <= f.possible && RegularSuite(ss, place, false) && AllOnce(paths)
    requires AnalyzeSuite(ctx, ss, f).diagnostics == {}
    ensures WritesOnce(ExecSuite(ctx, ss, paths, written).faults)
    decreases ss, 0
  {
    if ss != [] && paths != [] {
      var first := AnalyzeStatement(ctx, ss[0], f);
      var rest := AnalyzeSuite(ctx, ss[1..], first.facts);
      assert first.diagnostics == {} && rest.diagnostics == {} by {
        assert first.diagnostics + rest.diagnostics == {};
      }
      OnePassWritesOnce(ctx, ss[0], place, f, paths[0], written);
      var r := Exec(ctx, ss[0], paths[0], written);
      if r.outcome == Next {
        RunStaysPossible(ctx, ss[0], place, f, paths[0], written);
        OnePassInSuite(ctx, ss[1..], place, first.facts, paths[1..], r.written);
      }
    }
  }

  lemma OnePassInLoop(ctx: Context, test: Expr, loop: seq<Stmt>, f: Facts, rounds: seq<Round>, written: set<Variable>)
    requires f.Valid() && f.reachable && written <= f.possible && RegularSuite(loop, InLoop, false)
    requires |rounds| <= 1 && (|rounds| == 1 ==> AllOnce(rounds[0].body))
    requires AnalyzeSuite(ctx, loop, f).diagnostics == {}
    ensures WritesOnce(ExecLoop(ctx, test, loop, rounds, written).faults)
    decreases loop, 1
  {
    if rounds != [] {
      OnePassInSuite(ctx, loop, InLoop, f, rounds[0].body, written);
      assert rounds[1..] == [];
    }
  }

  lemma {:induction false} OnePassInBranches(ctx: Context, bs: seq<Branch>, place: Place, f: Facts, merged: Facts,
                                             hasBranch: bool, arms: seq<Arm>, written: set<Variable>)
    requires f.Valid() && f.reachable && written <= f.possible && RegularBranches(bs, place, false)
    requires forall i :: 0 <= i < |arms| ==> AllOnce(arms[i].body)
    requires AnalyzeBranches(ctx, bs, f, merged, hasBranch).diagnostics == {}
    ensures WritesOnce(ExecBranches(ctx, bs, arms, written).faults)
    decreases bs, 0
  {
    if bs != [] && arms != [] {
      var branch := AnalyzeBranch(ctx, bs[0], f);
      var joined := if hasBranch then Merge(merged, branch.facts) else branch.facts;
      AcceptedBranches(ctx, bs, f, merged, hasBranch);
      if bs[0].guard.None? || !NeverReturns(bs[0].guard.value) {
        OnePassInBlock(ctx, bs[0], place, f, arms[0].body, written);
      }
      if !CatchAll(bs[0]) {
        OnePassInBranches(ctx, bs[1..], place, f, joined, true, arms[1..], written);
      }
      BranchesWriteOnce(ctx, bs, arms, written);
    }
  }

  lemma BranchesWriteOnce(ctx: Context, bs: seq<Branch>, arms: seq<Arm>, written: set<Variable>)
    requires bs != [] && arms != []
    requires bs[0].guard.None? || !NeverReturns(bs[0].guard.value) ==>
               WritesOnce(ExecSuite(ctx, bs[0].block, arms[0].body, written).faults)
    requires CatchAll(bs[0]) || WritesOnce(ExecBranches(ctx, bs[1..], arms[1..], written).faults)
    ensures WritesOnce(ExecBranches(ctx, bs, arms, written).faults)
  {
  }

  lemma OnePassInBlock(ctx: Context, b: Branch, place: Place, f: Facts, paths: seq<Path>, written: set<Variable>)
    requires f.Valid() && f.reachable && written <= f.possible && RegularSuite(b.block, place, false) && AllOnce(paths)
    requires AnalyzeBranch(ctx, b, f).diagnostics == {} && (b.guard.None? || !NeverReturns(b.guard.value))
    ensures WritesOnce(ExecSuite(ctx, b.block, paths, written).faults)
    decreases b, 0
  {
    assert f.(reachable := true) == f;
    OnePassInSuite(ctx, b.block, place, f, paths, written);
  }

  lemma BlockFaultsShow(ctx: Context, s: Stmt, taken: bool, body: seq<Path>, written: set<Variable>)
    requires s.If?
    ensures ExecSuite(ctx, if taken then s.trueBlock else s.falseBlock, body, written).faults
            <= Exec(ctx, s, Branching([], taken, body), written).faults
  {
  }

  lemma RoundFaultsShow(ctx: Context, s: Stmt, body: seq<Path>, written: set<Variable>)
    requires s.For? || s.While?
    ensures ExecSuite(ctx, s.loop, body, written).faults
            <= Exec(ctx, s, Looping([], [Round(Eval(false, []), body)]), written).faults
  {
  }

  /** Every report of a second write is backed by a run that makes it, without
      going round any loop twice. */
  lemma {:induction false} ReportedWriteHappens(ctx: Context, s: Stmt, place: Place, f: Facts, v: Variable,
                                                written: set<Variable>)
    returns (path: Path)
    requires f.Valid() && Regular(s, place, true) && (v in f.possible ==> v in written)
    requires Scoped(ctx, s) && LoopsDeclareNothing(ctx, s) && f.possible !! Declares(ctx, s)
    requires AlreadyAssigned(v) in AnalyzeStatement(ctx, s, f).diagnostics
    ensures Once(path) && WrittenTwice(v) in Exec(ctx, s, path, written).faults
    decreases s, 0
  {
    path := Simple([Eval(false, []), Eval(false, [], Some(v))]);
    match s
    case If(_, trueBlock, falseBlock) =>
      if AlreadyAssigned(v) in AnalyzeSuite(ctx, trueBlock, f).diagnostics {
        var body := ReportedWriteInSuite(ctx, trueBlock, Branched(place), f, v, written);
        path := Branching([], true, body);
        BlockFaultsShow(ctx, s, true, body, written);
      } else {
        var body := ReportedWriteInSuite(ctx, falseBlock, Branched(place), f, v, written);
        path := Branching([], false, body);
        BlockFaultsShow(ctx, s, false, body, written);
      }
    case For(_, loop) =>
      var body := ReportedWriteInSuite(ctx, loop, InLoop, f, v, written);
      path := Looping([], [Round(Eval(false, []), body)]);
      RoundFaultsShow(ctx, s, body, written);
    case While(_, loop) =>
      var body := ReportedWriteInSuite(ctx, loop, InLoop, f, v, written);
      path := Looping([], [Round(Eval(false, []), body)]);
      RoundFaultsShow(ctx, s, body, written);
    case Match(_, branches) =>
      var arms := ReportedWriteInBranches(ctx, branches, Branched(place), f, Facts({}, {}, false), false, v, written);
      path := Matching([], arms);
    case Suite(statements) =>
      var body := ReportedWriteInSuite(ctx, statements, place, f, v, written);
      path := Branching([], true, body);
    case Assignment(assignee, compound, assignedValue) =>
      ReportedStoreHappens(ctx, assignee, compound, assignedValue, f, v, written, path);
    case _ =>
  }

  lemma ReportedStoreHappens(ctx: Context, assignee: Expr, compound: bool, assignedValue: Expr, f: Facts, v: Variable,
                             written: set<Variable>, path: Path)
    requires f.Valid() && f.reachable && (v in f.possible ==> v in written)
    requires AlreadyAssigned(v) in AnalyzeAssignment(ctx, assignee, compound, assignedValue, f).diagnostics
    requires path == Simple([Eval(false, []), Eval(false, [], Some(v))])
    ensures WrittenTwice(v) in ExecAssignment(ctx, assignee, compound, assignedValue, path, written).faults
  {
    StoreAgreesWithFlow(ctx, assignee, compound, assignedValue, f);
    StoreWritesTwice(ctx, assignee, compound, assignedValue, path, written);
  }

  lemma {:induction false} ReportedWriteInSuite(ctx: Context, ss: seq<Stmt>, place: Place, f: Facts, v: Variable,
                                                written: set<Variable>)
    returns (paths: seq<Path>)
    requires f.Valid() && RegularSuite(ss, place, true) && (v in f.possible ==> v in written)
    requires ScopedSuite(ctx, ss) && SuiteLoopsDeclareNothing(ctx, ss) && f.possible !! DeclaresOfAll(ctx, ss)
    requires AlreadyAssigned(v) in AnalyzeSuite(ctx, ss, f).diagnostics
    ensures AllOnce(paths) && WrittenTwice(v) in ExecSuite(ctx, ss, paths, written).faults
    decreases ss, 0
  {
    var first := AnalyzeStatement(ctx, ss[0], f);
    AnalysisGrows(ctx, ss[0], f);
    if AlreadyAssigned(v) in first.diagnostics {
      var head := ReportedWriteHappens(ctx, ss[0], place, f, v, written);
      paths := [head];
      assert Exec(ctx, ss[0], paths[0], written).faults <= ExecSuite(ctx, ss, paths, written).faults;
    } else {
      if !first.facts.reachable {
        UnreachableSuite(ctx, ss[1..], first.facts);
      }
      PossibleBoundsFlow(ctx, ss[0], place, f, true);
      var head := ExitIsReached(ctx, ss[0], f.possible, Next, v, written);
      var tail := ReportedWriteInSuite(ctx, ss[1..], place, first.facts, v, Exec(ctx, ss[0], head, written).written);
      paths := [head] + tail;
    }
  }

  lemma {:induction false} ReportedWriteInBranches(ctx: Context, bs: seq<Branch>, place: Place, f: Facts, merged: Facts,
                                                   hasBranch: bool, v: Variable, written: set<Variable>)
    returns (arms: seq<Arm>)
    requires f.Valid() && f.reachable && RegularBranches(bs, place, true) && (v in f.possible ==> v in written)
    requires ScopedBranches(ctx, bs) && BranchLoopsDeclareNothing(ctx, bs) && f.possible !! DeclaresOfBranches(ctx, bs)
    requires AlreadyAssigned(v) in AnalyzeBranches(ctx, bs, f, merged, hasBranch).diagnostics
    ensures forall i :: 0 <= i < |arms| ==> AllOnce(arms[i].body)
    ensures WrittenTwice(v) in ExecBranches(ctx, bs, arms, written).faults
    decreases bs, 0
  {
    var branch := AnalyzeBranch(ctx, bs[0], f);
    var guarded := if bs[0].guard.None? then f else AnalyzeExpression(ctx, bs[0].guard.value, f).facts;
    if AlreadyAssigned(v) in branch.diagnostics {
      if !guarded.reachable {
        UnreachableSuite(ctx, bs[0].block, guarded);
      }
      assert guarded == f;
      var body := ReportedWriteInSuite(ctx, bs[0].block, place, f, v, written);
      arms := [SKIPPED_ARM.(matches := true, guardHolds := true, body := body)];
    } else {
      var rest := ReportedWriteInBranches(ctx, bs[1..], place, f,
                                          if hasBranch then Merge(merged, branch.facts) else branch.facts, true, v,
                                          written);
      arms := [SKIPPED_ARM] + rest;
      assert arms[1..] == rest;
    }
  }

  // ---------------------------------------------------------------------------
  // The main results.
  // ---------------------------------------------------------------------------

  ghost predicate OnePassNeverFaults(ctx: Context, ss: seq<Stmt>, written: set<Variable>) {
    forall paths :: AllOnce(paths) ==> ExecSuite(ctx, ss, paths, written).faults == {}
  }

  /** An accepted suite goes well as long as no loop goes round twice, also where
      loops write tracked finals. */
  lemma AcceptedOnePassIsClean(ctx: Context, ss: seq<Stmt>, written: set<Variable>)
    requires RegularSuite(ss, Outside, false) && ScopedSuite(ctx, ss) && written !! DeclaresOfAll(ctx, ss)
    requires AnalyzeSuite(ctx, ss, Facts(written, written, true)).diagnostics == {}
    ensures OnePassNeverFaults(ctx, ss, written)
  {
    forall paths | AllOnce(paths)
      ensures ExecSuite(ctx, ss, paths, written).faults == {}
    {
      SuiteIsSafe(ctx, ss, Facts(written, written, true), paths, written);
      OnePassInSuite(ctx, ss, Outside, Facts(written, written, true), paths, written);
      var faults := ExecSuite(ctx, ss, paths, written).faults;
      assert forall x :: x in faults ==> x == WrittenTwice(x.variable);
    }
  }

  /** One pass over each loop body is what the analysis decides: a suite whose
      loops run through is accepted if and only if no run goes wrong in which no
      loop goes round twice. */
  lemma OnePassIsExact(ctx: Context, ss: seq<Stmt>, written: set<Variable>)
    requires RegularSuite(ss, Outside, true) && ScopedSuite(ctx, ss) && SuiteLoopsDeclareNothing(ctx, ss)
    requires written !! DeclaresOfAll(ctx, ss)
    ensures AnalyzeSuite(ctx, ss, Facts(written, written, true)).diagnostics == {} <==>
            OnePassNeverFaults(ctx, ss, written)
  {
    var f := Facts(written, written, true);
    ThroughIsRegular(ss, Outside);
    if AnalyzeSuite(ctx, ss, f).diagnostics == {} {
      AcceptedOnePassIsClean(ctx, ss, written);
    } else {
      var d :| d in AnalyzeSuite(ctx, ss, f).diagnostics;
      DiagnosticsAreOfThreeKinds(ctx, ss, f);
      var paths;
      if IsEarly(d) {
        DiagnosedInSuiteIsIndefinite(ctx, ss, f, d);
        paths := DiagnosedFaultInSuite(ctx, ss, f, d, written);
      } else {
        paths := ReportedWriteInSuite(ctx, ss, Outside, f, d.variable, written);
      }
      assert AllOnce(paths) && ExecSuite(ctx, ss, paths, written).faults != {};
    }
  }

  lemma {:induction false} ThroughIsRegular(ss: seq<Stmt>, place: Place)
    requires RegularSuite(ss, place, true)
    ensures RegularSuite(ss, place, false)
    decreases ss, 0
  {
    if ss != [] {
      match ss[0] {
        case If(_, trueBlock, falseBlock) =>
          ThroughIsRegular(trueBlock, Branched(place));
          ThroughIsRegular(falseBlock, Branched(place));
        case For(_, loop) => ThroughIsRegular(loop, InLoop);
        case While(_, loop) => ThroughIsRegular(loop, InLoop);
        case Match(_, branches) => ThroughBranchesAreRegular(branches, Branched(place));
        case Suite(statements) => ThroughIsRegular(statements, place);
        case _ =>
      }
      ThroughIsRegular(ss[1..], place);
    }
  }

  lemma {:induction false} ThroughBranchesAreRegular(bs: seq<Branch>, place: Place)
    requires RegularBranches(bs, place, true)
    ensures RegularBranches(bs, place, false)
    decreases bs, 0
  {
    if bs != [] {
      ThroughIsRegular(bs[0].block, place);
      ThroughBranchesAreRegular(bs[1..], place);
    }
  }

  // ---------------------------------------------------------------------------
  // Leaving a loop from a branch breaks the bound.
  // ---------------------------------------------------------------------------

  const LEAVING_LOOP := For(Literal, [If(Literal, [WRITE_X, Break], [])])

  const LEFT_LOOP := [LEAVING_LOOP, WRITE_X]

  lemma LeavingLoopHidesWrite()
    ensures AnalyzeStatement(MEMBERS, LEAVING_LOOP, Facts({}, {}, true)) == Report(Facts({}, {}, true), {})
  {
    var start, branch, body := Facts({}, {}, true), [WRITE_X, Break], LEAVING_LOOP.loop;
    assert branch[1..] == [Break] && [Break][1..] == [] && body[1..] == [];
    assert AnalyzeStatement(MEMBERS, WRITE_X, start) == Report(Facts({X}, {X}, true), {}) by {
      assert Slot(MEMBERS, X_SLOT) == {X} && start.Assign({X}) == Facts({X}, {X}, true);
    }
    assert AnalyzeSuite(MEMBERS, [Break], Facts({X}, {X}, true)) == Report(Facts({X}, {X}, false), {});
    assert AnalyzeSuite(MEMBERS, branch, start) == Report(Facts({X}, {X}, false), {});
    assert AnalyzeStatement(MEMBERS, body[0], start) == Report(start, {});
    assert AnalyzeSuite(MEMBERS, body, start) == Report(start, {});
  }

  const LEAVING_PATH := Looping([], [Round(Eval(false, []), [Branching([], true, [Simple([]), Simple([])])])])

  lemma LeavingLoopWrites()
    ensures var r := Exec(MEMBERS, LEAVING_LOOP, LEAVING_PATH, {}); r.outcome == Next && r.written == {X}
  {
    var body, round := LEAVING_LOOP.loop, LEAVING_PATH.rounds[0];
    BranchWritesAndLeaves();
    assert Exec(MEMBERS, body[0], round.body[0], {}).outcome == Broke;
    assert ExecSuite(MEMBERS, body, round.body, {}).outcome == Broke;
  }

  lemma BranchWritesAndLeaves()
    ensures var r := ExecSuite(MEMBERS, [WRITE_X, Break], [Simple([]), Simple([])], {});
            r.outcome == Broke && r.written == {X}
  {
    var branch, inside := [WRITE_X, Break], [Simple([]), Simple([])];
    assert branch[1..] == [Break] && inside[1..] == [Simple([])];
    assert Stored(MEMBERS, X_SLOT, Eval(false, [])) == {X};
    assert Exec(MEMBERS, WRITE_X, inside[0], {}).written == {X};
    assert ExecSuite(MEMBERS, [Break], [Simple([])], {X}).outcome == Broke;
  }

  lemma LeftLoopIsAccepted()
    ensures AnalyzeSuite(MEMBERS, LEFT_LOOP, Facts({}, {}, true)).diagnostics == {}
  {
    LeavingLoopHidesWrite();
    assert LEFT_LOOP[1..] == [WRITE_X] && [WRITE_X][1..] == [];
    assert AnalyzeStatement(MEMBERS, WRITE_X, Facts({}, {}, true)).diagnostics == {};
    assert AnalyzeSuite(MEMBERS, [WRITE_X], Facts({}, {}, true)).diagnostics == {};
  }

  lemma LeftLoopIsIrregular()
    ensures !RegularSuite(LEFT_LOOP, Outside, false)
  {
    var branch, body := [WRITE_X, Break], LEAVING_LOOP.loop;
    assert branch[1..] == [Break];
    assert !RegularSuite([Break], InBranch, false) && !RegularSuite(branch, InBranch, false);
    assert !RegularSuite(body, InLoop, false);
  }

  /** `for i in list: if c: x = 0; break` followed by `x = 0` is accepted, although
      a run that leaves the loop from the branch writes `x` twice. */
  lemma LeavingFromBranchWritesTwice()
    ensures AnalyzeSuite(MEMBERS, LEFT_LOOP, Facts({}, {}, true)).diagnostics == {}
    ensures exists paths :: AllOnce(paths) && WrittenTwice(X) in ExecSuite(MEMBERS, LEFT_LOOP, paths, {}).faults
    ensures !RegularSuite(LEFT_LOOP, Outside, false)
  {
    LeftLoopIsAccepted();
    LeftLoopIsIrregular();
    LeavingLoopWrites();
    var paths := [LEAVING_PATH, Simple([])];
    assert LEFT_LOOP[1..] == [WRITE_X] && paths[1..] == [Simple([])] && AllOnce(paths);
    assert WrittenTwice(X) in Exec(MEMBERS, WRITE_X, Simple([]), {X}).faults;
    assert WrittenTwice(X) in ExecSuite(MEMBERS, [WRITE_X], [Simple([])], {X}).faults;
    assert WrittenTwice(X) in ExecSuite(MEMBERS, LEFT_LOOP, paths, {}).faults;
  }
}
