/** What really happens to tracked finals when a body runs, and the proof that
    the definite-assignment analysis misses no read and no early return.

    A `Path` settles everything a run may do differently: which branch a
    condition takes, how often a loop goes round, which patterns match, how
    operators short-circuit, and whether the run is cut short.  A statement
    about all runs is therefore a statement about all paths. */
module AssignmentRuns {
  import opened Options
  import opened Syntax
  import opened FinalResolution
  import opened DefiniteAssignment
  import opened Effects

  datatype Path =
    | Stopped
    | Simple(evals: seq<Eval>)
    | Branching(evals: seq<Eval>, taken: bool, body: seq<Path>)
    | Looping(evals: seq<Eval>, rounds: seq<Round>)
    | Matching(evals: seq<Eval>, arms: seq<Arm>)

  datatype Round = Round(test: Eval, body: seq<Path>)

  datatype Arm = Arm(patterns: Eval, matches: bool, guard: Eval, guardHolds: bool, body: seq<Path>)

  datatype Outcome = Next | Broke | Continued | Returned | Halted

  datatype Fault =
    | ReadUnassigned(variable: Variable)
    | WrittenTwice(variable: Variable)
    | ReturnedWithout(variable: Variable)

  datatype Run = Run(written: set<Variable>, outcome: Outcome, faults: set<Fault>, effects: set<Effect>)

  function EvalAt(path: Path, i: nat): Eval {
    if !path.Stopped? && i < |path.evals| then path.evals[i] else Eval(false, [])
  }

  function ReadFaults(read: set<Variable>, written: set<Variable>): set<Fault> {
    set v | v in read && v !in written :: ReadUnassigned(v)
  }

  function SecondWrites(vs: set<Variable>): set<Fault> {
    set v | v in vs :: WrittenTwice(v)
  }

  /** What an evaluation adds to the run that contains it. */
  datatype Seen = Seen(faults: set<Fault>, effects: set<Effect>)

  function Evaluated(ctx: Context, e: Expr, ev: Eval, written: set<Variable>): Seen {
    Seen(ReadFaults(ReadIn(ctx, e, ev), written), EffectsIn(e, ev))
  }

  function After(seen: Seen, r: Run): Run {
    r.(faults := seen.faults + r.faults, effects := seen.effects + r.effects)
  }

  function Ends(written: set<Variable>, outcome: Outcome): Run {
    Run(written, outcome, {}, {})
  }

  /** The tracked finals among variables that are declared. */
  function DeclaredFinals(ctx: Context, vs: set<Variable>): set<Variable> {
    set v | v in vs && v in ctx.finals && ctx.scope.LocalScope?
  }

  /** A declaration makes a new, blank variable; its initializer then writes it. */
  function ExecDeclaration(ctx: Context, vs: set<Variable>, initializer: Option<Expr>, ev: Eval,
                           written: set<Variable>): Run {
    if initializer.None? then Ends(written - DeclaredFinals(ctx, vs), Next)
    else After(Evaluated(ctx, initializer.value, ev, written), Ends(written + DeclaredFinals(ctx, vs), Next))
  }

  /** The final that an assignment writes: the one that its target stands for, or
      else the one that the target reaches in this run. */
  function Stored(ctx: Context, assignee: Expr, ev: Eval): set<Variable> {
    if IsSlot(ctx, assignee) then Slot(ctx, assignee) else HitBy(ctx, assignee, ev)
  }

  /** The final that an assignment changes in part.  It has then been read, as the
      base of the target, and it is no less unassigned than before. */
  function Altered(ctx: Context, assignee: Expr, ev: Eval): set<Variable> {
    if ev.hit.Some? && ev.hit.value in PartSlots(ctx, assignee) then {ev.hit.value} else {}
  }

  function StoreFaults(ctx: Context, assignee: Expr, compound: bool, ev: Eval, written: set<Variable>): set<Fault> {
    var stored := Stored(ctx, assignee, ev);
    (if IsSlot(ctx, assignee) then {} else ReadFaults(ReadBelow(ctx, assignee, ev), written))
    + (if compound then ReadFaults(stored, written) else {})
    + SecondWrites((stored + Altered(ctx, assignee, ev)) * written)
  }

  function ExecAssignment(ctx: Context, assignee: Expr, compound: bool, assignedValue: Expr, path: Path,
                          written: set<Variable>): Run {
    var ev := EvalAt(path, 1);
    After(Evaluated(ctx, assignedValue, EvalAt(path, 0), written),
          Run(written + Stored(ctx, assignee, ev), Next, StoreFaults(ctx, assignee, compound, ev, written),
              {Stores(assignee)} + EffectsIn(assignee, ev)))
  }

  lemma StoreWritesTwice(ctx: Context, assignee: Expr, compound: bool, assignedValue: Expr, path: Path,
                         written: set<Variable>)
    ensures var stored, altered := Stored(ctx, assignee, EvalAt(path, 1)), Altered(ctx, assignee, EvalAt(path, 1));
            var r := ExecAssignment(ctx, assignee, compound, assignedValue, path, written);
            && r.written == written + stored && r.outcome == Next
            && forall v :: WrittenTwice(v) in r.faults <==> v in (stored + altered) * written
  {
  }

  function ReturnFaults(ctx: Context, written: set<Variable>): set<Fault> {
    if ctx.scope == LocalScope then {}
    else set v | v in ctx.finals && v !in written :: ReturnedWithout(v)
  }

  function ExecExpression(ctx: Context, e: Expr, ev: Eval, written: set<Variable>): Run {
    After(Evaluated(ctx, e, ev, written),
          Ends(written, match e case Operation(Call(true, _), _) => Halted case _ => Next))
  }

  /** Whether the branch is taken is settled by the path, except that a wildcard or
      an irrefutable test without a guard always matches. */
  predicate IsTaken(b: Branch, arm: Arm) {
    || arm.matches
    || (b.guard.None?
        && (b.hasWildcard || exists i ::
            0 <= i < |b.patterns| && b.patterns[i].Test? && b.patterns[i].irrefutableTypeTest))
  }

  /** The run of statement `s` along `path` when `written` are the finals
      written so far. */
  function Exec(ctx: Context, s: Stmt, path: Path, written: set<Variable>): Run
    decreases s, 1, 0
  {
    if path.Stopped? then Ends(written, Halted) else
    match s
    case Assignment(assignee, compound, assignedValue) =>
      ExecAssignment(ctx, assignee, compound, assignedValue, path, written)
    case If(condition, trueBlock, falseBlock) =>
      if !path.Branching? then Ends(written, Halted) else
      var tested := Evaluated(ctx, condition, EvalAt(path, 0), written);
      if path.taken
      then After(tested, ExecSuite(ctx, trueBlock, path.body, written))
      else After(tested, ExecSuite(ctx, falseBlock, path.body, written))
    case For(list, loop) =>
      if !path.Looping? then Ends(written, Halted) else
      After(Evaluated(ctx, list, EvalAt(path, 0), written), ExecLoop(ctx, Literal, loop, path.rounds, written))
    case While(condition, loop) =>
      if !path.Looping? then Ends(written, Halted) else
      After(Evaluated(ctx, condition, EvalAt(path, 0), written), ExecLoop(ctx, condition, loop, path.rounds, written))
    case Match(test, branches) =>
      if !path.Matching? then Ends(written, Halted) else
      After(Evaluated(ctx, test, EvalAt(path, 0), written), ExecBranches(ctx, branches, path.arms, written))
    case Return(result) =>
      After(Evaluated(ctx, result, EvalAt(path, 0), written), Run(written, Returned, ReturnFaults(ctx, written), {}))
    case Break => Ends(written, Broke)
    case Continue => Ends(written, Continued)
    case Declare(variable, initializer) =>
      ExecDeclaration(ctx, if variable.isFinal then {variable} else {}, initializer, EvalAt(path, 0), written)
    case Destructure(bindings, initializer) =>
      ExecDeclaration(ctx, AsSet(bindings), initializer, EvalAt(path, 0), written)
    case Assert(condition, message) =>
      var holds := path.Branching? && path.taken;
      After(Evaluated(ctx, condition, EvalAt(path, 0), written),
            if holds then Ends(written, Next)
            else After(Evaluated(ctx, message, EvalAt(path, 1), written), Ends(written, Next)))
    case Suite(statements) =>
      if !path.Branching? then Ends(written, Halted) else ExecSuite(ctx, statements, path.body, written)
    case Evaluate(e) => ExecExpression(ctx, e, EvalAt(path, 0), written)
    case Pass => Ends(written, Next)
  }

  function ExecSuite(ctx: Context, ss: seq<Stmt>, paths: seq<Path>, written: set<Variable>): Run
    decreases ss, 1, 0
  {
    if ss == [] then Ends(written, Next)
    else if paths == [] then Ends(written, Halted)
    else
      var first := Exec(ctx, ss[0], paths[0], written);
      if first.outcome != Next then first
      else After(Seen(first.faults, first.effects), ExecSuite(ctx, ss[1..], paths[1..], first.written))
  }

  /** A loop whose test has already been evaluated once: it either ends here or
      runs its body, tests again and goes on. */
  function ExecLoop(ctx: Context, test: Expr, loop: seq<Stmt>, rounds: seq<Round>, written: set<Variable>): Run
    decreases loop, 2, |rounds|
  {
    if rounds == [] then Ends(written, Next) else
    var body := ExecSuite(ctx, loop, rounds[0].body, written);
    match body.outcome
    case Broke => body.(outcome := Next)
    case Returned => body
    case Halted => body
    case _ =>
      After(Seen(body.faults, body.effects),
            After(Evaluated(ctx, test, rounds[0].test, body.written),
                  ExecLoop(ctx, test, loop, rounds[1..], body.written)))
  }

  function TriedPatterns(ctx: Context, b: Branch, arm: Arm, written: set<Variable>): Seen {
    Seen(ReadFaults(ReadInPatterns(ctx, b.patterns, arm.patterns), written),
         EffectsInPatterns(b.patterns, arm.patterns))
  }

  function ExecBranches(ctx: Context, bs: seq<Branch>, arms: seq<Arm>, written: set<Variable>): Run
    decreases bs, 1, 0
  {
    if bs == [] then Ends(written, Next)
    else if arms == [] then Ends(written, Halted)
    else
      var arm := arms[0];
      var tried := TriedPatterns(ctx, bs[0], arm, written);
      if !IsTaken(bs[0], arm) then After(tried, ExecBranches(ctx, bs[1..], arms[1..], written))
      else if bs[0].guard.None? then After(tried, ExecSuite(ctx, bs[0].block, arm.body, written))
      else
        var guarded := ExecExpression(ctx, bs[0].guard.value, arm.guard, written);
        if guarded.outcome != Next then After(tried, guarded)
        else
          var guardSeen := Seen(tried.faults + guarded.faults, tried.effects + guarded.effects);
          if !arm.guardHolds then After(guardSeen, ExecBranches(ctx, bs[1..], arms[1..], written))
          else After(guardSeen, ExecSuite(ctx, bs[0].block, arm.body, written))
  }

  /** No loop goes round twice. */
  predicate Once(path: Path)
    decreases path
  {
    match path
    case Branching(_, _, body) => AllOnce(body)
    case Looping(_, rounds) => |rounds| <= 1 && (|rounds| == 1 ==> AllOnce(rounds[0].body))
    case Matching(_, arms) => forall i :: 0 <= i < |arms| ==> AllOnce(arms[i].body)
    case _ => true
  }

  predicate AllOnce(paths: seq<Path>)
    decreases paths
  {
    forall i :: 0 <= i < |paths| ==> Once(paths[i])
  }

  /** The tracked finals that a statement can write. */
  function Writes(ctx: Context, s: Stmt): set<Variable>
    decreases s
  {
    match s
    case Assignment(assignee, _, _) => Slot(ctx, assignee) + LateSlots(ctx, assignee)
    case If(_, trueBlock, falseBlock) => WritesOfAll(ctx, trueBlock) + WritesOfAll(ctx, falseBlock)
    case For(_, loop) => WritesOfAll(ctx, loop)
    case While(_, loop) => WritesOfAll(ctx, loop)
    case Match(_, branches) => WritesOfBranches(ctx, branches)
    case Suite(statements) => WritesOfAll(ctx, statements)
    case Declare(variable, initializer) =>
      if initializer.Some? then Declared(ctx, if variable.isFinal then {variable} else {}) else {}
    case Destructure(bindings, initializer) => if initializer.Some? then Declared(ctx, AsSet(bindings)) else {}
    case _ => {}
  }

  function WritesOfAll(ctx: Context, ss: seq<Stmt>): set<Variable>
    decreases ss
  {
    if ss == [] then {} else Writes(ctx, ss[0]) + WritesOfAll(ctx, ss[1..])
  }

  function WritesOfBranches(ctx: Context, bs: seq<Branch>): set<Variable>
    decreases bs
  {
    if bs == [] then {} else WritesOfAll(ctx, bs[0].block) + WritesOfBranches(ctx, bs[1..])
  }

  /** The tracked finals that are declared inside a statement; only the check of
      local finals has any. */
  function Declares(ctx: Context, s: Stmt): set<Variable>
    decreases s
  {
    match s
    case If(_, trueBlock, falseBlock) => DeclaresOfAll(ctx, trueBlock) + DeclaresOfAll(ctx, falseBlock)
    case For(_, loop) => DeclaresOfAll(ctx, loop)
    case While(_, loop) => DeclaresOfAll(ctx, loop)
    case Match(_, branches) => DeclaresOfBranches(ctx, branches)
    case Suite(statements) => DeclaresOfAll(ctx, statements)
    case Declare(variable, _) => Declared(ctx, if variable.isFinal then {variable} else {})
    case Destructure(bindings, _) => Declared(ctx, AsSet(bindings))
    case _ => {}
  }

  function DeclaresOfAll(ctx: Context, ss: seq<Stmt>): set<Variable>
    decreases ss
  {
    if ss == [] then {} else Declares(ctx, ss[0]) + DeclaresOfAll(ctx, ss[1..])
  }

  function DeclaresOfBranches(ctx: Context, bs: seq<Branch>): set<Variable>
    decreases bs
  {
    if bs == [] then {} else DeclaresOfAll(ctx, bs[0].block) + DeclaresOfBranches(ctx, bs[1..])
  }

  /** Name resolution finds a local variable only after its declaration, so no
      statement writes a final that a later statement declares. */
  predicate Scoped(ctx: Context, s: Stmt)
    decreases s
  {
    match s
    case If(_, trueBlock, falseBlock) => ScopedSuite(ctx, trueBlock) && ScopedSuite(ctx, falseBlock)
    case For(_, loop) => ScopedSuite(ctx, loop)
    case While(_, loop) => ScopedSuite(ctx, loop)
    case Match(_, branches) => ScopedBranches(ctx, branches)
    case Suite(statements) => ScopedSuite(ctx, statements)
    case _ => true
  }

  predicate ScopedSuite(ctx: Context, ss: seq<Stmt>)
    decreases ss
  {
    ss == [] ||
    (Scoped(ctx, ss[0]) && ScopedSuite(ctx, ss[1..]) && Writes(ctx, ss[0]) !! DeclaresOfAll(ctx, ss[1..]))
  }

  predicate ScopedBranches(ctx: Context, bs: seq<Branch>)
    decreases bs
  {
    bs == [] || (ScopedSuite(ctx, bs[0].block) && ScopedBranches(ctx, bs[1..]))
  }

  predicate DeclaresNone(ctx: Context) {
    ctx.scope != LocalScope || ctx.finals == {}
  }

  /** Outside the check of local finals nothing is declared, so scoping holds. */
  lemma {:induction false} MembersAreScoped(ctx: Context, s: Stmt)
    requires DeclaresNone(ctx)
    ensures Declares(ctx, s) == {} && Scoped(ctx, s)
    decreases s
  {
    match s
    case If(_, trueBlock, falseBlock) =>
      MemberSuitesAreScoped(ctx, trueBlock);
      MemberSuitesAreScoped(ctx, falseBlock);
    case For(_, loop) => MemberSuitesAreScoped(ctx, loop);
    case While(_, loop) => MemberSuitesAreScoped(ctx, loop);
    case Match(_, branches) => MemberBranchesAreScoped(ctx, branches);
    case Suite(statements) => MemberSuitesAreScoped(ctx, statements);
    case _ =>
  }

  lemma {:induction false} MemberSuitesAreScoped(ctx: Context, ss: seq<Stmt>)
    requires DeclaresNone(ctx)
    ensures DeclaresOfAll(ctx, ss) == {} && ScopedSuite(ctx, ss)
    decreases ss
  {
    if ss != [] {
      MembersAreScoped(ctx, ss[0]);
      MemberSuitesAreScoped(ctx, ss[1..]);
    }
  }

  lemma {:induction false} MemberBranchesAreScoped(ctx: Context, bs: seq<Branch>)
    requires DeclaresNone(ctx)
    ensures DeclaresOfBranches(ctx, bs) == {} && ScopedBranches(ctx, bs)
    decreases bs
  {
    if bs != [] {
      MemberSuitesAreScoped(ctx, bs[0].block);
      MemberBranchesAreScoped(ctx, bs[1..]);
    }
  }

  /** The analysis only adds what a statement writes. */
  lemma {:induction false} AnalysisGrows(ctx: Context, s: Stmt, f: Facts)
    requires f.Valid()
    ensures var g := AnalyzeStatement(ctx, s, f).facts;
            g.Valid() &&
            g.possible <= f.possible + Writes(ctx, s) &&
            g.definite <= f.definite + Writes(ctx, s) &&
            (g.reachable ==> f.reachable && f.definite <= g.definite && f.possible <= g.possible)
    decreases s
  {
    if f.reachable {
      match s
      case If(_, trueBlock, falseBlock) =>
        SuiteAnalysisGrows(ctx, trueBlock, f);
        SuiteAnalysisGrows(ctx, falseBlock, f);
      case For(_, loop) => SuiteAnalysisGrows(ctx, loop, f);
      case While(_, loop) => SuiteAnalysisGrows(ctx, loop, f);
      case Match(_, branches) => BranchesAnalysisGrows(ctx, branches, f, Facts({}, {}, false), false, {});
      case Suite(statements) => SuiteAnalysisGrows(ctx, statements, f);
      case _ =>
    }
  }

  lemma {:induction false} SuiteAnalysisGrows(ctx: Context, ss: seq<Stmt>, f: Facts)
    requires f.Valid()
    ensures var g := AnalyzeSuite(ctx, ss, f).facts;
            g.Valid() &&
            g.possible <= f.possible + WritesOfAll(ctx, ss) &&
            g.definite <= f.definite + WritesOfAll(ctx, ss) &&
            (g.reachable ==> f.reachable && f.definite <= g.definite && f.possible <= g.possible)
    decreases ss
  {
    if ss != [] {
      AnalysisGrows(ctx, ss[0], f);
      SuiteAnalysisGrows(ctx, ss[1..], AnalyzeStatement(ctx, ss[0], f).facts);
    }
  }

  lemma {:induction false} BranchAnalysisGrows(ctx: Context, b: Branch, f: Facts)
    requires f.Valid() && f.reachable
    ensures var g := AnalyzeBranch(ctx, b, f).facts;
            g.Valid() &&
            g.possible <= f.possible + WritesOfAll(ctx, b.block) &&
            g.definite <= f.definite + WritesOfAll(ctx, b.block) &&
            (g.reachable ==> f.definite <= g.definite && f.possible <= g.possible)
    decreases b
  {
    SuiteAnalysisGrows(ctx, b.block, if b.guard.None? then f else AnalyzeExpression(ctx, b.guard.value, f).facts);
  }

  /** `seen` bounds what the branches joined so far write. */
  lemma {:induction false} BranchesAnalysisGrows(ctx: Context, bs: seq<Branch>, f: Facts, merged: Facts,
                                                 hasBranch: bool, seen: set<Variable>)
    requires f.Valid() && f.reachable && merged.Valid()
    requires merged.possible <= f.possible + seen && merged.definite <= f.definite + seen
    requires merged.reachable ==> hasBranch && f.definite <= merged.definite && f.possible <= merged.possible
    ensures var m := AnalyzeBranches(ctx, bs, f, merged, hasBranch);
            var writes := seen + WritesOfBranches(ctx, bs);
            m.merged.Valid() &&
            m.merged.possible <= f.possible + writes && m.merged.definite <= f.definite + writes &&
            (m.merged.reachable ==> m.hasBranch && f.definite <= m.merged.definite && f.possible <= m.merged.possible)
    decreases bs
  {
    if bs != [] {
      BranchAnalysisGrows(ctx, bs[0], f);
      var branch := AnalyzeBranch(ctx, bs[0], f).facts;
      var joined := if hasBranch then Merge(merged, branch) else branch;
      if !CatchAll(bs[0]) {
        BranchesAnalysisGrows(ctx, bs[1..], f, joined, true, seen + WritesOfAll(ctx, bs[0].block));
      }
    }
  }

  /** A run keeps what was written, except finals it declares anew, and adds
      only what the statement can write. */
  lemma {:induction false} RunKeeps(ctx: Context, s: Stmt, path: Path, written: set<Variable>)
    ensures var r := Exec(ctx, s, path, written);
            written - Declares(ctx, s) <= r.written <= written + Writes(ctx, s)
    decreases s, 1, 0
  {
    match s
    case If(_, trueBlock, falseBlock) =>
      if path.Branching? {
        SuiteRunKeeps(ctx, if path.taken then trueBlock else falseBlock, path.body, written);
      }
    case For(_, loop) => if path.Looping? { LoopRunKeeps(ctx, Literal, loop, path.rounds, written); }
    case While(condition, loop) => if path.Looping? { LoopRunKeeps(ctx, condition, loop, path.rounds, written); }
    case Match(_, branches) => if path.Matching? { BranchesRunKeeps(ctx, branches, path.arms, written); }
    case Suite(statements) => if path.Branching? { SuiteRunKeeps(ctx, statements, path.body, written); }
    case _ =>
  }

  lemma {:induction false} SuiteRunKeeps(ctx: Context, ss: seq<Stmt>, paths: seq<Path>, written: set<Variable>)
    ensures var r := ExecSuite(ctx, ss, paths, written);
            written - DeclaresOfAll(ctx, ss) <= r.written <= written + WritesOfAll(ctx, ss)
    decreases ss, 1, 0
  {
    if ss != [] && paths != [] {
      RunKeeps(ctx, ss[0], paths[0], written);
      SuiteRunKeeps(ctx, ss[1..], paths[1..], Exec(ctx, ss[0], paths[0], written).written);
    }
  }

  lemma {:induction false} LoopRunKeeps(ctx: Context, test: Expr, loop: seq<Stmt>, rounds: seq<Round>,
                                        written: set<Variable>)
    ensures var r := ExecLoop(ctx, test, loop, rounds, written);
            written - DeclaresOfAll(ctx, loop) <= r.written <= written + WritesOfAll(ctx, loop)
    decreases loop, 2, |rounds|
  {
    if rounds != [] {
      SuiteRunKeeps(ctx, loop, rounds[0].body, written);
      LoopRunKeeps(ctx, test, loop, rounds[1..], ExecSuite(ctx, loop, rounds[0].body, written).written);
    }
  }

  lemma {:induction false} BranchesRunKeeps(ctx: Context, bs: seq<Branch>, arms: seq<Arm>, written: set<Variable>)
    ensures var r := ExecBranches(ctx, bs, arms, written);
            written - DeclaresOfBranches(ctx, bs) <= r.written <= written + WritesOfBranches(ctx, bs)
    decreases bs, 1, 0
  {
    if bs != [] && arms != [] {
      SuiteRunKeeps(ctx, bs[0].block, arms[0].body, written);
      BranchesRunKeeps(ctx, bs[1..], arms[1..], written);
    }
  }
}
