/** Where assignments to finals stand.  What the scan finds is compared with the
    assignments that histories of calls make: which final each one denotes, on
    whose object, and in which body. */
module FinalStores {
  import opened Options
  import opened Syntax
  import opened FinalResolution
  import opened Effects
  import opened AssignmentRuns
  import opened FinalWrites

  /** Nobody calls the initializing function again. */
  const NOBODY := Initializer("", None)

  /** The assignment denotes no final, or one of the object itself, of this very
      class, in the body that construction runs.  A final local is assigned in
      the function that declares it, not in a lambda. */
  predicate StandsWell(c: Callable, assignee: Expr) {
    match TargetOf(c.ctx, assignee)
    case NoTarget => true
    case Final(variable, onSelf) =>
      if c.ctx.scope == LocalScope then variable in c.ctx.finals ==> c.constructing
      else onSelf && variable in c.ctx.finals && c.constructing
  }

  ghost predicate AllStandWell(steps: seq<Step>) {
    forall i, assignee :: 0 <= i < |steps| && Stores(assignee) in Done(steps[i]) ==>
      StandsWell(steps[i].actor, assignee)
  }

  /** A misplaced assignment that some call makes is found in one of the bodies
      that there were to begin with, whichever lambda makes it. */
  lemma {:induction false} MisplacedStoreIsFound(callables: set<Callable>, steps: seq<Step>, i: nat, assignee: Expr)
    returns (c: Callable)
    requires History(callables, NOBODY, steps) && i < |steps| && Stores(assignee) in Done(steps[i])
    requires !StandsWell(steps[i].actor, assignee)
    ensures c in callables && TargetOf(steps[i].actor.ctx, assignee).variable in ScanOf(c, RESOLVED)
    decreases steps
  {
    var actor := steps[0].actor;
    SuiteIsScanned(actor.ctx, actor.body, steps[0].paths, {}, actor.constructing, RESOLVED);
    c := actor;
    if i == 0 {
      assert Found(actor.ctx, Stores(assignee), actor.constructing, RESOLVED) <= ScanOf(actor, RESOLVED);
    } else {
      var later := MisplacedStoreIsFound(callables + Created(steps[0], NOBODY), steps[1..], i - 1, assignee);
      if later in callables {
        c := later;
      } else {
        assert Found(actor.ctx, Creates(later.body), actor.constructing, RESOLVED) <= ScanOf(actor, RESOLVED);
      }
    }
  }

  /** What such a scan finds, some call assigns where it may not. */
  lemma FoundStoreIsMisplaced(c: Callable, v: Variable) returns (steps: seq<Step>, i: nat, assignee: Expr)
    requires v in ScanOf(c, RESOLVED)
    ensures History({c}, NOBODY, steps) && i < |steps| && Stores(assignee) in Done(steps[i])
    ensures TargetOf(steps[i].actor.ctx, assignee).Final? && TargetOf(steps[i].actor.ctx, assignee).variable == v
    ensures !StandsWell(steps[i].actor, assignee)
  {
    steps := FoundCallHappens(c, RESOLVED, NOBODY, v);
    var k :| 0 <= k < |steps| && Hits(steps[k], RESOLVED, v);
    var x :| x in Done(steps[k]) && !x.Creates?
      && v in Found(steps[k].actor.ctx, x, steps[k].actor.constructing, RESOLVED);
    i, assignee := k, x.assignee;
  }

  /** No history of calls assigns a final where it may not be assigned if and only
      if a scan that looks everywhere finds nothing.  This holds of local finals
      as well. */
  lemma AllStandWellIffNothingIsFound(callables: set<Callable>)
    ensures (forall steps :: History(callables, NOBODY, steps) ==> AllStandWell(steps)) <==>
            forall c :: c in callables ==> ScanOf(c, RESOLVED) == {}
  {
    if c, v :| c in callables && v in ScanOf(c, RESOLVED) {
      var steps, i, assignee := FoundStoreIsMisplaced(c, v);
      MoreCallablesKeepHistory({c}, callables, NOBODY, steps);
      assert !AllStandWell(steps);
    } else {
      forall steps: seq<Step> | History(callables, NOBODY, steps)
        ensures AllStandWell(steps)
      {
        forall i, assignee | 0 <= i < |steps| && Stores(assignee) in Done(steps[i])
          ensures StandsWell(steps[i].actor, assignee)
        {
          if !StandsWell(steps[i].actor, assignee) {
            var c := MisplacedStoreIsFound(callables, steps, i, assignee);
          }
        }
      }
    }
  }

  // ---------------------------------------------------------------------------
  // The scan of the source reports nothing that does not happen, dead code aside.
  // ---------------------------------------------------------------------------

  /** Some run reaches each statement, in lambdas too. */
  predicate Live(ctx: Context, e: Expr)
    decreases e, 0
  {
    match e
    case Attribute(base, _, _, _, _) => Live(ctx, base)
    case Operation(_, parts) => AllLive(ctx, parts)
    case Lambda(body) => LiveSuite(ctx, body)
    case _ => true
  }

  predicate AllLive(ctx: Context, es: seq<Expr>)
    decreases es, 0
  {
    es == [] || (Live(ctx, es[0]) && AllLive(ctx, es[1..]))
  }

  predicate LiveOptional(ctx: Context, e: Option<Expr>)
    decreases e, 1
  {
    e.None? || Live(ctx, e.value)
  }

  predicate LiveStatement(ctx: Context, s: Stmt)
    decreases s, 0
  {
    match s
    case Assignment(assignee, _, assignedValue) => Live(ctx, assignee) && Live(ctx, assignedValue)
    case If(condition, trueBlock, falseBlock) =>
      Live(ctx, condition) && LiveSuite(ctx, trueBlock) && LiveSuite(ctx, falseBlock)
    case For(list, loop) => Live(ctx, list) && LiveSuite(ctx, loop)
    case While(condition, loop) => Live(ctx, condition) && LiveSuite(ctx, loop)
    case Match(test, branches) => Live(ctx, test) && LiveBranches(ctx, branches)
    case Return(result) => Live(ctx, result)
    case Declare(_, initializer) => LiveOptional(ctx, initializer)
    case Destructure(_, initializer) => LiveOptional(ctx, initializer)
    case Assert(condition, message) => Live(ctx, condition) && Live(ctx, message)
    case Suite(statements) => LiveSuite(ctx, statements)
    case Evaluate(e) => Live(ctx, e)
    case _ => true
  }

  predicate LiveSuite(ctx: Context, ss: seq<Stmt>)
    decreases ss, 0
  {
    ss == [] || (LiveStatement(ctx, ss[0]) && (|ss| == 1 || Falls(ctx, ss[0])) && LiveSuite(ctx, ss[1..]))
  }

  predicate LiveBranches(ctx: Context, bs: seq<Branch>)
    decreases bs, 0
  {
    bs == [] ||
    (LiveOptional(ctx, bs[0].guard) && LiveSuite(ctx, bs[0].block) && LiveBranches(ctx, bs[1..])
     && (bs[0].guard.Some? && NeverReturns(bs[0].guard.value) ==> bs[0].block == [])
     && (|bs| == 1 || !CatchAll(bs[0])))
  }

  lemma {:induction false} LiveScanIsReal(ctx: Context, e: Expr, inInit: bool)
    requires Live(ctx, e)
    ensures Scan(ctx, e, inInit, AsSource) <= Scan(ctx, e, inInit, RESOLVED)
    decreases e, 0
  {
    match e
    case Attribute(base, _, _, _, _) => LiveScanIsReal(ctx, base, inInit);
    case Operation(_, parts) => LiveScansAreReal(ctx, parts, inInit);
    case Lambda(body) => LiveSuiteScanIsReal(ctx, body, false);
    case _ =>
  }

  lemma {:induction false} LiveScansAreReal(ctx: Context, es: seq<Expr>, inInit: bool)
    requires AllLive(ctx, es)
    ensures ScanAll(ctx, es, inInit, AsSource) <= ScanAll(ctx, es, inInit, RESOLVED)
    decreases es, 0
  {
    if es != [] {
      LiveScanIsReal(ctx, es[0], inInit);
      LiveScansAreReal(ctx, es[1..], inInit);
    }
  }

  lemma {:induction false} LiveStatementScanIsReal(ctx: Context, s: Stmt, inInit: bool)
    requires LiveStatement(ctx, s)
    ensures ScanStatement(ctx, s, inInit, AsSource) <= ScanStatement(ctx, s, inInit, RESOLVED)
    decreases s, 0
  {
    match s
    case Assignment(assignee, _, assignedValue) =>
      LiveScanIsReal(ctx, assignee, inInit);
      LiveScanIsReal(ctx, assignedValue, inInit);
    case If(condition, trueBlock, falseBlock) =>
      LiveScanIsReal(ctx, condition, inInit);
      LiveSuiteScanIsReal(ctx, trueBlock, inInit);
      LiveSuiteScanIsReal(ctx, falseBlock, inInit);
    case For(list, loop) =>
      LiveScanIsReal(ctx, list, inInit);
      LiveSuiteScanIsReal(ctx, loop, inInit);
    case While(condition, loop) =>
      LiveScanIsReal(ctx, condition, inInit);
      LiveSuiteScanIsReal(ctx, loop, inInit);
    case Match(test, branches) =>
      LiveScanIsReal(ctx, test, inInit);
      LiveBranchScansAreReal(ctx, branches, inInit);
    case Return(result) => LiveScanIsReal(ctx, result, inInit);
    case Declare(_, initializer) => if initializer.Some? { LiveScanIsReal(ctx, initializer.value, inInit); }
    case Destructure(_, initializer) => if initializer.Some? { LiveScanIsReal(ctx, initializer.value, inInit); }
    case Assert(condition, message) =>
      LiveScanIsReal(ctx, condition, inInit);
      LiveScanIsReal(ctx, message, inInit);
    case Suite(statements) => LiveSuiteScanIsReal(ctx, statements, inInit);
    case Evaluate(e) => LiveScanIsReal(ctx, e, inInit);
    case _ =>
  }

  /** Without dead code the scan of the source finds no more than a scan that looks
      everywhere, so that every report is backed by a history of calls. */
  lemma {:induction false} LiveSuiteScanIsReal(ctx: Context, ss: seq<Stmt>, inInit: bool)
    requires LiveSuite(ctx, ss)
    ensures ScanSuite(ctx, ss, inInit, AsSource) <= ScanSuite(ctx, ss, inInit, RESOLVED)
    decreases ss, 0
  {
    if ss != [] {
      LiveStatementScanIsReal(ctx, ss[0], inInit);
      LiveSuiteScanIsReal(ctx, ss[1..], inInit);
      assert |ss| == 1 ==> ss[1..] == [];
    }
  }

  lemma {:induction false} LiveBranchScansAreReal(ctx: Context, bs: seq<Branch>, inInit: bool)
    requires LiveBranches(ctx, bs)
    ensures ScanBranches(ctx, bs, inInit, AsSource) <= ScanBranches(ctx, bs, inInit, RESOLVED)
    decreases bs, 0
  {
    if bs != [] {
      if bs[0].guard.Some? { LiveScanIsReal(ctx, bs[0].guard.value, inInit); }
      LiveSuiteScanIsReal(ctx, bs[0].block, inInit);
      LiveBranchScansAreReal(ctx, bs[1..], inInit);
      assert |bs| == 1 ==> bs[1..] == [];
      assert ScanBranch(ctx, bs[0], inInit, AsSource) <= ScanBranch(ctx, bs[0], inInit, RESOLVED);
    }
  }

  // ---------------------------------------------------------------------------
  // Local finals.
  // ---------------------------------------------------------------------------

  /** The lambda assigns no tracked final. */
  ghost predicate LeavesFinals(step: Step) {
    forall assignee :: Stores(assignee) in Done(step) && TargetOf(step.actor.ctx, assignee).Final? ==>
      TargetOf(step.actor.ctx, assignee).variable !in step.actor.ctx.finals
  }

  /** For a function whose lambdas are in sight and that has no dead code: its scan
      for local finals is clean if and only if no lambda that any call creates
      ever assigns one of them. */
  lemma LocalFinalsStayInTheirFunction(ctx: Context, body: seq<Stmt>)
    requires ctx.scope == LocalScope && SuiteInSight(body) && LiveSuite(ctx, body)
    ensures ScanSuite(ctx, body, true, AsSource) == {} <==>
            forall steps: seq<Step>, i :: History({Callable(ctx, body, true)}, NOBODY, steps) && 0 <= i < |steps| ==>
              steps[i].actor.constructing || LeavesFinals(steps[i])
  {
    var c := Callable(ctx, body, true);
    ScanSeesSuiteInSight(ctx, body, true);
    LiveSuiteScanIsReal(ctx, body, true);
    if v :| v in ScanOf(c, RESOLVED) {
      var steps, i, assignee := FoundStoreIsMisplaced(c, v);
      CallsKeepContext({c}, ctx, steps, i);
      assert !steps[i].actor.constructing && !LeavesFinals(steps[i]);
    } else {
      AllStandWellIffNothingIsFound({c});
      forall steps: seq<Step>, i | History({c}, NOBODY, steps) && 0 <= i < |steps|
        ensures steps[i].actor.constructing || LeavesFinals(steps[i])
      {
        CallsKeepContext({c}, ctx, steps, i);
        assert AllStandWell(steps);
      }
    }
  }

  lemma {:induction false} CallsKeepContext(callables: set<Callable>, ctx: Context, steps: seq<Step>, i: nat)
    requires (forall c :: c in callables ==> c.ctx == ctx) && History(callables, NOBODY, steps) && i < |steps|
    ensures steps[i].actor.ctx == ctx
    decreases steps
  {
    if i > 0 {
      CallsKeepContext(callables + Created(steps[0], NOBODY), ctx, steps[1..], i - 1);
    }
  }
}
