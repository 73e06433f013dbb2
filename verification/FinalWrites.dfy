/** The scan for writes to final variables outside the initializing function,
    and the calls that can happen around and after the construction of an
    object. */
module FinalWrites {
  import opened Options
  import opened Syntax
  import opened FinalResolution
  import opened Effects
  import opened AssignmentRuns
  import opened WriteOnce
  import opened AssignmentExactness

  /** An assignment is legal if it targets no final, or the class's own final on
      `self` inside the initializing function. */
  function IllegalTarget(ctx: Context, assignee: Expr, inInit: bool): set<Variable> {
    var target := TargetOf(ctx, assignee);
    if target.NoTarget? then {}
    else if ctx.scope == LocalScope then
      if target.variable in ctx.finals && !inInit then {target.variable} else {}
    else if target.variable in ctx.finals && target.onSelf && inInit then {}
    else {target.variable}
  }

  /** What a scan looks at and what it counts.  The scan of the source stops at
      some nodes and counts assignments to finals that it can resolve.  A scan
      that looked everywhere would cover every node of every statement that can
      be reached, and might count illegal targets, writes that reach a final
      without denoting it, and, wherever the initializing function is named, what
      calling it again would write. */
  datatype Look =
    | AsSource
    | Everywhere(resolved: bool, late: bool, init: string, again: set<Variable>)

  const RESOLVED := Everywhere(true, false, "", {})
  const LATE := Everywhere(false, true, "", {})

  function Again(init: string, again: set<Variable>): Look {
    Everywhere(false, false, init, again)
  }

  /** The source's scan does not look below these nodes, nor into match patterns. */
  predicate ScanStopsAt(k: Kind) {
    k in {TypeTest, Cast, Await, TupleLiteral}
  }

  /** The finals of the object, tracked or inherited, that a key may name. */
  function SetByKey(ctx: Context, key: Key): set<Variable> {
    if ctx.scope == LocalScope then {} else
    KeyTargets(ctx, key) +
    (match key
     case NoKey => {}
     case Literally(name) => if name in ctx.inherited && name !in ctx.byName then {ctx.inherited[name]} else {}
     case AnyKey => ctx.inherited.Values)
  }

  /** The finals that an assignment writes without denoting them.  Those that
      construction may write are counted in its own run. */
  function LateWrites(ctx: Context, assignee: Expr, inInit: bool): set<Variable> {
    if ctx.scope == LocalScope then {} else
    var reached := (if Denotes(ctx, assignee) then {} else SetByKey(ctx, LookedUp(assignee)))
      + PartTargets(ctx, assignee);
    if inInit then reached - ctx.finals else reached
  }

  function StoreFound(ctx: Context, assignee: Expr, inInit: bool, look: Look): set<Variable> {
    (if look.AsSource? || look.resolved then IllegalTarget(ctx, assignee, inInit) else {}) +
    (if look.Everywhere? && look.late then LateWrites(ctx, assignee, inInit) else {})
  }

  function NameFound(key: Key, look: Look): set<Variable> {
    if look.Everywhere? && MayName(key, look.init) then look.again else {}
  }

  function SetFound(ctx: Context, key: Key, look: Look): set<Variable> {
    if look.Everywhere? && look.late then SetByKey(ctx, key) else {}
  }

  function KindFound(ctx: Context, kind: Kind, look: Look): set<Variable> {
    match kind
    case Call(_, reflection) => NameFound(reflection.called, look) + SetFound(ctx, reflection.written, look)
    case _ => {}
  }

  function Scan(ctx: Context, e: Expr, inInit: bool, look: Look): set<Variable>
    decreases e, 0
  {
    match e
    case Identifier(name, source, _) => if IsLocalSource(source) then {} else NameFound(Literally(name), look)
    case Attribute(base, name, _, _, receiver) =>
      Scan(ctx, base, inInit, look) +
      (if base == SelfReference || receiver.mayBeObject then NameFound(Literally(name), look) else {})
    case Operation(kind, parts) =>
      KindFound(ctx, kind, look) +
      (if ScanStopsAt(kind) && look.AsSource? then {} else ScanAll(ctx, parts, inInit, look))
    case Lambda(body) => ScanSuite(ctx, body, false, look)
    case _ => {}
  }

  function ScanAll(ctx: Context, es: seq<Expr>, inInit: bool, look: Look): set<Variable>
    decreases es, 0
  {
    if es == [] then {} else Scan(ctx, es[0], inInit, look) + ScanAll(ctx, es[1..], inInit, look)
  }

  function ScanOptional(ctx: Context, e: Option<Expr>, inInit: bool, look: Look): set<Variable>
    decreases e, 1
  {
    if e.None? then {} else Scan(ctx, e.value, inInit, look)
  }

  function ScanPattern(ctx: Context, p: Pattern, inInit: bool, look: Look): set<Variable>
    decreases p, 0
  {
    match p
    case Leaf => {}
    case Test(e, _) => Scan(ctx, e, inInit, look)
    case Group(parts) => ScanPatterns(ctx, parts, inInit, look)
  }

  function ScanPatterns(ctx: Context, ps: seq<Pattern>, inInit: bool, look: Look): set<Variable>
    decreases ps, 0
  {
    if ps == [] then {} else ScanPattern(ctx, ps[0], inInit, look) + ScanPatterns(ctx, ps[1..], inInit, look)
  }

  function ScanStatement(ctx: Context, s: Stmt, inInit: bool, look: Look): set<Variable>
    decreases s, 0
  {
    match s
    case Assignment(assignee, _, assignedValue) =>
      StoreFound(ctx, assignee, inInit, look) + Scan(ctx, assignee, inInit, look)
      + Scan(ctx, assignedValue, inInit, look)
    case If(condition, trueBlock, falseBlock) =>
      Scan(ctx, condition, inInit, look) + ScanSuite(ctx, trueBlock, inInit, look)
      + ScanSuite(ctx, falseBlock, inInit, look)
    case For(list, loop) => Scan(ctx, list, inInit, look) + ScanSuite(ctx, loop, inInit, look)
    case While(condition, loop) => Scan(ctx, condition, inInit, look) + ScanSuite(ctx, loop, inInit, look)
    case Match(test, branches) => Scan(ctx, test, inInit, look) + ScanBranches(ctx, branches, inInit, look)
    case Return(result) => Scan(ctx, result, inInit, look)
    case Declare(_, initializer) => ScanOptional(ctx, initializer, inInit, look)
    case Destructure(_, initializer) => ScanOptional(ctx, initializer, inInit, look)
    case Assert(condition, message) => Scan(ctx, condition, inInit, look) + Scan(ctx, message, inInit, look)
    case Suite(statements) => ScanSuite(ctx, statements, inInit, look)
    case Evaluate(e) => Scan(ctx, e, inInit, look)
    case _ => {}
  }

  /** Some run of the statement reaches its end. */
  predicate Falls(ctx: Context, s: Stmt) {
    FlowStatement(ctx, s, {}).next.Some?
  }

  function ScanSuite(ctx: Context, ss: seq<Stmt>, inInit: bool, look: Look): set<Variable>
    decreases ss, 0
  {
    if ss == [] then {} else
    ScanStatement(ctx, ss[0], inInit, look) +
    (if look.AsSource? || Falls(ctx, ss[0]) then ScanSuite(ctx, ss[1..], inInit, look) else {})
  }

  function ScanBranch(ctx: Context, b: Branch, inInit: bool, look: Look): set<Variable>
    decreases b, 0
  {
    (if look.AsSource? then {} else ScanPatterns(ctx, b.patterns, inInit, look)) +
    ScanOptional(ctx, b.guard, inInit, look) +
    (if look.Everywhere? && b.guard.Some? && NeverReturns(b.guard.value) then {}
     else ScanSuite(ctx, b.block, inInit, look))
  }

  function ScanBranches(ctx: Context, bs: seq<Branch>, inInit: bool, look: Look): set<Variable>
    decreases bs, 0
  {
    if bs == [] then {} else
    ScanBranch(ctx, bs[0], inInit, look) +
    (if look.Everywhere? && CatchAll(bs[0]) then {} else ScanBranches(ctx, bs[1..], inInit, look))
  }

  /** The scan as the source performs it, collecting into a shared set. */
  class Scanner {
    const ctx: Context
    var illegal: set<Variable>

    constructor (ctx: Context)
      ensures this.ctx == ctx && illegal == {}
    {
      this.ctx := ctx;
      illegal := {};
    }

    method VisitExpression(e: Expr, inInit: bool)
      modifies this
      ensures illegal == old(illegal) + Scan(ctx, e, inInit, AsSource)
      decreases e, 0
    {
      match e
      case Attribute(base, _, _, _, _) => VisitExpression(base, inInit);
      case Operation(kind, parts) =>
        if !ScanStopsAt(kind) {
          for i := 0 to |parts|
            invariant illegal + ScanAll(ctx, parts[i..], inInit, AsSource)
                      == old(illegal) + ScanAll(ctx, parts, inInit, AsSource)
          {
            VisitExpression(parts[i], inInit);
            assert parts[i..][1..] == parts[i + 1..];
          }
        }
      case Lambda(body) => VisitSuite(body, false);
      case _ =>
    }

    method VisitOptional(e: Option<Expr>, inInit: bool)
      modifies this
      ensures illegal == old(illegal) + ScanOptional(ctx, e, inInit, AsSource)
      decreases e, 1
    {
      if e.Some? {
        VisitExpression(e.value, inInit);
      }
    }

    method VisitStatement(s: Stmt, inInit: bool)
      modifies this
      ensures illegal == old(illegal) + ScanStatement(ctx, s, inInit, AsSource)
      decreases s, 0
    {
      match s
      case Assignment(assignee, _, assignedValue) =>
        var target := TargetOf(ctx, assignee);
        if ctx.scope == LocalScope {
          if target.Final? && target.variable in ctx.finals && !inInit {
            illegal := illegal + {target.variable};
          }
        } else if target.Final? && !(target.variable in ctx.finals && target.onSelf && inInit) {
          illegal := illegal + {target.variable};
        }
        VisitExpression(assignee, inInit);
        VisitExpression(assignedValue, inInit);
      case If(condition, trueBlock, falseBlock) =>
        VisitExpression(condition, inInit);
        VisitSuite(trueBlock, inInit);
        VisitSuite(falseBlock, inInit);
      case For(list, loop) =>
        VisitExpression(list, inInit);
        VisitSuite(loop, inInit);
      case While(condition, loop) =>
        VisitExpression(condition, inInit);
        VisitSuite(loop, inInit);
      case Match(test, branches) =>
        VisitExpression(test, inInit);
        ghost var before := illegal;
        for i := 0 to |branches|
          invariant illegal + ScanBranches(ctx, branches[i..], inInit, AsSource)
                    == before + ScanBranches(ctx, branches, inInit, AsSource)
        {
          VisitOptional(branches[i].guard, inInit);
          VisitSuite(branches[i].block, inInit);
          assert branches[i..][1..] == branches[i + 1..];
        }
      case Return(result) => VisitExpression(result, inInit);
      case Declare(_, initializer) => VisitOptional(initializer, inInit);
      case Destructure(_, initializer) => VisitOptional(initializer, inInit);
      case Assert(condition, message) =>
        VisitExpression(condition, inInit);
        VisitExpression(message, inInit);
      case Suite(statements) => VisitSuite(statements, inInit);
      case Evaluate(e) => VisitExpression(e, inInit);
      case _ =>
    }

    method VisitSuite(ss: seq<Stmt>, inInit: bool)
      modifies this
      ensures illegal == old(illegal) + ScanSuite(ctx, ss, inInit, AsSource)
      decreases ss, 0
    {
      for i := 0 to |ss|
        invariant illegal + ScanSuite(ctx, ss[i..], inInit, AsSource)
                  == old(illegal) + ScanSuite(ctx, ss, inInit, AsSource)
      {
        VisitStatement(ss[i], inInit);
        assert ss[i..][1..] == ss[i + 1..];
      }
    }
  }

  // ---------------------------------------------------------------------------
  // Calls around and after construction.
  // ---------------------------------------------------------------------------

  /** A function, accessor or lambda body, with the rules that resolve its names.
      `constructing` marks what construction itself runs: there the finals of
      the object may be written. */
  datatype Callable = Callable(ctx: Context, body: seq<Stmt>, constructing: bool)

  /** The name of the initializing function, and the function as anybody may call
      it once more who can name it. */
  datatype Initializer = Initializer(name: string, call: Option<Callable>)

  /** One call: some callable that exists runs along some path, possibly not to
      its end.  Calls made in the middle of another are steps of their own. */
  datatype Step = Step(actor: Callable, paths: seq<Path>)

  predicate AreNamed(effects: set<Effect>, name: string) {
    exists x :: x in effects && x.Names? && MayName(x.key, name)
  }

  function Done(step: Step): set<Effect> {
    ExecSuite(step.actor.ctx, step.actor.body, step.paths, {}).effects
  }

  /** The lambdas that the call created may be called from then on, and the
      initializing function if the call named it. */
  function Created(step: Step, init: Initializer): set<Callable> {
    (set x | x in Done(step) && x.Creates? :: Callable(step.actor.ctx, x.body, false)) +
    (if init.call.Some? && AreNamed(Done(step), init.name) then {init.call.value} else {})
  }

  /** Any interleaving of any calls: methods may call each other, and lambdas may
      be stored and called at any later time. */
  predicate History(callables: set<Callable>, init: Initializer, steps: seq<Step>)
    decreases |steps|
  {
    steps == [] || (steps[0].actor in callables && History(callables + Created(steps[0], init), init, steps[1..]))
  }

  /** What an effect writes besides what the run of construction may write. */
  function EffectWrites(c: Callable, x: Effect): set<Variable> {
    match x
    case Stores(assignee) =>
      IllegalTarget(c.ctx, assignee, c.constructing) + LateWrites(c.ctx, assignee, c.constructing)
    case Sets(key) => SetByKey(c.ctx, key)
    case _ => {}
  }

  predicate StepWrites(step: Step, v: Variable) {
    exists x :: x in Done(step) && v in EffectWrites(step.actor, x)
  }

  predicate SomeStepWrites(steps: seq<Step>, v: Variable) {
    exists i :: 0 <= i < |steps| && StepWrites(steps[i], v)
  }

  /** What a scan of a callable finds. */
  function ScanOf(c: Callable, look: Look): set<Variable> {
    ScanSuite(c.ctx, c.body, c.constructing, look)
  }

  // ---------------------------------------------------------------------------
  // A scan that looks everywhere bounds every run.
  // ---------------------------------------------------------------------------

  /** What a scan finds where a run has the effect `x`. */
  function Found(ctx: Context, x: Effect, inInit: bool, look: Look): set<Variable> {
    match x
    case Stores(assignee) => StoreFound(ctx, assignee, inInit, look)
    case Creates(body) => ScanSuite(ctx, body, false, look)
    case Names(key) => NameFound(key, look)
    case Sets(key) => SetFound(ctx, key, look)
  }

  predicate Bounded(ctx: Context, effects: set<Effect>, inInit: bool, look: Look, found: set<Variable>) {
    forall x :: x in effects ==> Found(ctx, x, inInit, look) <= found
  }

  lemma EvaluationIsScanned(ctx: Context, e: Expr, ev: Eval, inInit: bool, look: Look)
    requires look.Everywhere?
    ensures Bounded(ctx, EffectsIn(e, ev), inInit, look, Scan(ctx, e, inInit, look))
    decreases e, 1
  {
    PartsAreScanned(ctx, e, ev, inInit, look);
  }

  lemma {:induction false} PartsAreScanned(ctx: Context, e: Expr, ev: Eval, inInit: bool, look: Look)
    requires look.Everywhere?
    ensures Bounded(ctx, EffectsBelow(e, ev), inInit, look, Scan(ctx, e, inInit, look))
    decreases e, 0
  {
    match e
    case Attribute(base, _, _, _, _) => EvaluationIsScanned(ctx, base, First(ev), inInit, look);
    case Operation(kind, parts) =>
      if kind == ShortCircuitOperator && |parts| == 2 && ev.skips {
        EvaluationIsScanned(ctx, parts[0], First(ev), inInit, look);
      } else if kind == TernaryOperator && |parts| == 3 {
        EvaluationIsScanned(ctx, parts[0], First(ev), inInit, look);
        EvaluationIsScanned(ctx, parts[1], First(Rest(ev)), inInit, look);
        EvaluationIsScanned(ctx, parts[2], First(Rest(Rest(ev))), inInit, look);
        ScanOfThree(ctx, parts, inInit, look);
      } else {
        EvaluationsAreScanned(ctx, parts, ev, inInit, look);
      }
    case _ =>
  }

  lemma {:induction false} EvaluationsAreScanned(ctx: Context, es: seq<Expr>, ev: Eval, inInit: bool, look: Look)
    requires look.Everywhere?
    ensures Bounded(ctx, EffectsInAll(es, ev), inInit, look, ScanAll(ctx, es, inInit, look))
    decreases es, 0
  {
    if es != [] {
      EvaluationIsScanned(ctx, es[0], First(ev), inInit, look);
      EvaluationsAreScanned(ctx, es[1..], Rest(ev), inInit, look);
    }
  }

  lemma ScanOfThree(ctx: Context, es: seq<Expr>, inInit: bool, look: Look)
    requires |es| == 3
    ensures ScanAll(ctx, es, inInit, look)
            == Scan(ctx, es[0], inInit, look) + Scan(ctx, es[1], inInit, look) + Scan(ctx, es[2], inInit, look)
  {
    var tail := es[1..];
    var last := tail[1..];
    assert ScanAll(ctx, last[1..], inInit, look) == {};
    assert ScanAll(ctx, last, inInit, look) == Scan(ctx, es[2], inInit, look);
    assert ScanAll(ctx, tail, inInit, look) == Scan(ctx, es[1], inInit, look) + ScanAll(ctx, last, inInit, look);
  }

  lemma {:induction false} PatternIsScanned(ctx: Context, p: Pattern, ev: Eval, inInit: bool, look: Look)
    requires look.Everywhere?
    ensures Bounded(ctx, EffectsInPattern(p, ev), inInit, look, ScanPattern(ctx, p, inInit, look))
    decreases p, 0
  {
    match p
    case Leaf =>
    case Test(e, _) => EvaluationIsScanned(ctx, e, First(ev), inInit, look);
    case Group(parts) => PatternsAreScanned(ctx, parts, ev, inInit, look);
  }

  lemma {:induction false} PatternsAreScanned(ctx: Context, ps: seq<Pattern>, ev: Eval, inInit: bool, look: Look)
    requires look.Everywhere?
    ensures Bounded(ctx, EffectsInPatterns(ps, ev), inInit, look, ScanPatterns(ctx, ps, inInit, look))
    decreases ps, 0
  {
    if ps != [] {
      PatternIsScanned(ctx, ps[0], First(ev), inInit, look);
      PatternsAreScanned(ctx, ps[1..], Rest(ev), inInit, look);
    }
  }

  lemma {:induction false} StatementIsScanned(ctx: Context, s: Stmt, path: Path, written: set<Variable>, inInit: bool,
                                              look: Look)
    requires look.Everywhere?
    ensures Bounded(ctx, Exec(ctx, s, path, written).effects, inInit, look, ScanStatement(ctx, s, inInit, look))
    decreases s, 1, 0
  {
    if !path.Stopped? {
      match s
      case Assignment(assignee, _, assignedValue) =>
        EvaluationIsScanned(ctx, assignee, EvalAt(path, 1), inInit, look);
        EvaluationIsScanned(ctx, assignedValue, EvalAt(path, 0), inInit, look);
      case If(condition, trueBlock, falseBlock) =>
        EvaluationIsScanned(ctx, condition, EvalAt(path, 0), inInit, look);
        if path.Branching? {
          SuiteIsScanned(ctx, if path.taken then trueBlock else falseBlock, path.body, written, inInit, look);
        }
      case For(list, loop) =>
        EvaluationIsScanned(ctx, list, EvalAt(path, 0), inInit, look);
        if path.Looping? { LoopIsScanned(ctx, Literal, loop, path.rounds, written, inInit, look); }
      case While(condition, loop) =>
        EvaluationIsScanned(ctx, condition, EvalAt(path, 0), inInit, look);
        if path.Looping? { LoopIsScanned(ctx, condition, loop, path.rounds, written, inInit, look); }
      case Match(test, branches) =>
        EvaluationIsScanned(ctx, test, EvalAt(path, 0), inInit, look);
        if path.Matching? { BranchesAreScanned(ctx, branches, path.arms, written, inInit, look); }
      case Return(result) => EvaluationIsScanned(ctx, result, EvalAt(path, 0), inInit, look);
      case Declare(_, initializer) =>
        if initializer.Some? { EvaluationIsScanned(ctx, initializer.value, EvalAt(path, 0), inInit, look); }
      case Destructure(_, initializer) =>
        if initializer.Some? { EvaluationIsScanned(ctx, initializer.value, EvalAt(path, 0), inInit, look); }
      case Assert(condition, message) =>
        EvaluationIsScanned(ctx, condition, EvalAt(path, 0), inInit, look);
        EvaluationIsScanned(ctx, message, EvalAt(path, 1), inInit, look);
      case Suite(statements) =>
        if path.Branching? { SuiteIsScanned(ctx, statements, path.body, written, inInit, look); }
      case Evaluate(e) => EvaluationIsScanned(ctx, e, EvalAt(path, 0), inInit, look);
      case _ =>
    }
  }

  lemma FallsThrough(ctx: Context, s: Stmt, path: Path, written: set<Variable>)
    requires Exec(ctx, s, path, written).outcome == Next
    ensures Falls(ctx, s)
  {
    FlowCovers(ctx, s, written, path, written);
    FlowDistributes(ctx, s, {}, written);
    assert {} + written == written;
  }

  lemma {:induction false} SuiteIsScanned(ctx: Context, ss: seq<Stmt>, paths: seq<Path>, written: set<Variable>,
                                          inInit: bool, look: Look)
    requires look.Everywhere?
    ensures Bounded(ctx, ExecSuite(ctx, ss, paths, written).effects, inInit, look, ScanSuite(ctx, ss, inInit, look))
    decreases ss, 1, 0
  {
    if ss != [] && paths != [] {
      StatementIsScanned(ctx, ss[0], paths[0], written, inInit, look);
      var first := Exec(ctx, ss[0], paths[0], written);
      if first.outcome == Next {
        FallsThrough(ctx, ss[0], paths[0], written);
        SuiteIsScanned(ctx, ss[1..], paths[1..], first.written, inInit, look);
      }
    }
  }

  lemma {:induction false} LoopIsScanned(ctx: Context, test: Expr, loop: seq<Stmt>, rounds: seq<Round>,
                                         written: set<Variable>, inInit: bool, look: Look)
    requires look.Everywhere?
    ensures Bounded(ctx, ExecLoop(ctx, test, loop, rounds, written).effects, inInit, look,
                    Scan(ctx, test, inInit, look) + ScanSuite(ctx, loop, inInit, look))
    decreases loop, 2, |rounds|
  {
    if rounds != [] {
      SuiteIsScanned(ctx, loop, rounds[0].body, written, inInit, look);
      EvaluationIsScanned(ctx, test, rounds[0].test, inInit, look);
      LoopIsScanned(ctx, test, loop, rounds[1..], ExecSuite(ctx, loop, rounds[0].body, written).written, inInit, look);
    }
  }

  lemma {:induction false} BranchesAreScanned(ctx: Context, bs: seq<Branch>, arms: seq<Arm>, written: set<Variable>,
                                              inInit: bool, look: Look)
    requires look.Everywhere?
    ensures Bounded(ctx, ExecBranches(ctx, bs, arms, written).effects, inInit, look,
                    ScanBranches(ctx, bs, inInit, look))
    decreases bs, 1, 0
  {
    if bs != [] && arms != [] {
      var b, arm := bs[0], arms[0];
      var here, behind := ScanBranch(ctx, b, inInit, look), ScanBranches(ctx, bs, inInit, look);
      assert here <= behind;
      PatternsAreScanned(ctx, b.patterns, arm.patterns, inInit, look);
      assert Bounded(ctx, EffectsInPatterns(b.patterns, arm.patterns), inInit, look, behind);
      if b.guard.Some? {
        EvaluationIsScanned(ctx, b.guard.value, arm.guard, inInit, look);
        assert Scan(ctx, b.guard.value, inInit, look) == ScanOptional(ctx, b.guard, inInit, look) <= here;
        assert Bounded(ctx, EffectsIn(b.guard.value, arm.guard), inInit, look, behind);
      }
      if b.guard.None? || !NeverReturns(b.guard.value) {
        SuiteIsScanned(ctx, b.block, arm.body, written, inInit, look);
        assert Bounded(ctx, ExecSuite(ctx, b.block, arm.body, written).effects, inInit, look, behind);
      }
      if !CatchAll(b) {
        BranchesAreScanned(ctx, bs[1..], arms[1..], written, inInit, look);
        assert Bounded(ctx, ExecBranches(ctx, bs[1..], arms[1..], written).effects, inInit, look, behind);
      }
    }
  }

  // ---------------------------------------------------------------------------
  // Whatever such a scan finds, some calls bring about.
  // ---------------------------------------------------------------------------

  /** The call does itself what the scan found. */
  predicate Hits(step: Step, look: Look, v: Variable) {
    exists x :: x in Done(step) && !x.Creates? && v in Found(step.actor.ctx, x, step.actor.constructing, look)
  }

  predicate SomeStepHits(steps: seq<Step>, look: Look, v: Variable) {
    exists i :: 0 <= i < |steps| && Hits(steps[i], look, v)
  }

  /** A run with the effect `x` does it, or creates a lambda that does it when it
      is called. */
  ghost predicate LeadsTo(ctx: Context, x: Effect, inInit: bool, look: Look, init: Initializer, rest: seq<Step>,
                          v: Variable) {
    if x.Creates? then History({Callable(ctx, x.body, false)}, init, rest) && SomeStepHits(rest, look, v)
    else v in Found(ctx, x, inInit, look)
  }

  /** A callable in which the scan finds `v` can be called so that it happens. */
  lemma {:induction false} FoundCallHappens(c: Callable, look: Look, init: Initializer, v: Variable)
    returns (steps: seq<Step>)
    requires look.Everywhere? && v in ScanOf(c, look)
    ensures History({c}, init, steps) && SomeStepHits(steps, look, v)
    decreases c.body, 2
  {
    var paths, x, rest := FoundInSuiteHappens(c.ctx, c.body, c.constructing, look, init, v, {});
    var first := Step(c, paths);
    steps := [first];
    assert steps[1..] == [] && steps[0] == first;
    if x.Creates? {
      steps := [first] + rest;
      var lambda := Callable(c.ctx, x.body, false);
      assert lambda in Created(first, init);
      MoreCallablesKeepHistory({lambda}, {c} + Created(first, init), init, rest);
      var i :| 0 <= i < |rest| && Hits(rest[i], look, v);
      assert steps[i + 1] == rest[i] && steps[1..] == rest;
    } else {
      assert Hits(steps[0], look, v);
    }
  }

  lemma {:induction false} MoreCallablesKeepHistory(callables: set<Callable>, more: set<Callable>, init: Initializer,
                                                    steps: seq<Step>)
    requires callables <= more && History(callables, init, steps)
    ensures History(more, init, steps)
    decreases steps
  {
    if steps != [] {
      MoreCallablesKeepHistory(callables + Created(steps[0], init), more + Created(steps[0], init), init, steps[1..]);
    }
  }

  lemma {:induction false} FoundInEvaluationHappens(ctx: Context, e: Expr, inInit: bool, look: Look, init: Initializer,
                                                    v: Variable)
    returns (ev: Eval, x: Effect, rest: seq<Step>)
    requires look.Everywhere? && v in Scan(ctx, e, inInit, look)
    ensures x in EffectsIn(e, ev) && LeadsTo(ctx, x, inInit, look, init, rest, v)
    decreases e, 0
  {
    ev, x, rest := Eval(false, []), Names(NoKey), [];
    match e
    case Identifier(name, _, _) => x := Names(Literally(name));
    case Attribute(base, name, _, _, _) =>
      if v in Scan(ctx, base, inInit, look) {
        ev, x, rest := FoundInEvaluationHappens(ctx, base, inInit, look, init, v);
        ev := Eval(false, [ev]);
      } else {
        x := Names(Literally(name));
      }
    case Operation(kind, parts) =>
      if v in ScanAll(ctx, parts, inInit, look) {
        ev, x, rest := FoundInPartsHappens(ctx, kind, parts, inInit, look, init, v);
      } else if v in NameFound(kind.reflection.called, look) {
        x := Names(kind.reflection.called);
      } else {
        x := Sets(kind.reflection.written);
      }
    case Lambda(body) =>
      x := Creates(body);
      rest := FoundCallHappens(Callable(ctx, body, false), look, init, v);
    case _ =>
  }

  lemma {:induction false} FoundInPartsHappens(ctx: Context, kind: Kind, parts: seq<Expr>, inInit: bool, look: Look,
                                               init: Initializer, v: Variable)
    returns (ev: Eval, x: Effect, rest: seq<Step>)
    requires look.Everywhere? && v in ScanAll(ctx, parts, inInit, look)
    ensures x in EffectsBelow(Operation(kind, parts), ev) && LeadsTo(ctx, x, inInit, look, init, rest, v)
    decreases parts, 1
  {
    if kind == TernaryOperator && |parts| == 3 {
      ScanOfThree(ctx, parts, inInit, look);
      if v in Scan(ctx, parts[0], inInit, look) {
        ev, x, rest := FoundInEvaluationHappens(ctx, parts[0], inInit, look, init, v);
        ev := Eval(false, [ev]);
      } else if v in Scan(ctx, parts[1], inInit, look) {
        ev, x, rest := FoundInEvaluationHappens(ctx, parts[1], inInit, look, init, v);
        var inner := ev;
        ev := Eval(false, [Eval(false, []), inner]);
        assert First(Rest(ev)) == inner;
      } else {
        ev, x, rest := FoundInEvaluationHappens(ctx, parts[2], inInit, look, init, v);
        var inner := ev;
        ev := Eval(true, [Eval(false, []), Eval(false, []), inner]);
        assert First(Rest(Rest(ev))) == inner;
      }
    } else {
      ev, x, rest := FoundInAllHappens(ctx, parts, inInit, look, init, v);
    }
  }

  lemma {:induction false} FoundInAllHappens(ctx: Context, es: seq<Expr>, inInit: bool, look: Look, init: Initializer,
                                             v: Variable)
    returns (ev: Eval, x: Effect, rest: seq<Step>)
    requires look.Everywhere? && v in ScanAll(ctx, es, inInit, look)
    ensures !ev.skips && x in EffectsInAll(es, ev) && LeadsTo(ctx, x, inInit, look, init, rest, v)
    decreases es, 0
  {
    if v in Scan(ctx, es[0], inInit, look) {
      ev, x, rest := FoundInEvaluationHappens(ctx, es[0], inInit, look, init, v);
      ev := Eval(false, [ev]);
    } else {
      ev, x, rest := FoundInAllHappens(ctx, es[1..], inInit, look, init, v);
      var inner := ev;
      ev := inner.(parts := [Eval(false, [])] + inner.parts);
      assert Rest(ev) == inner;
    }
  }

  lemma {:induction false} FoundInPatternHappens(ctx: Context, p: Pattern, inInit: bool, look: Look, init: Initializer,
                                                 v: Variable)
    returns (ev: Eval, x: Effect, rest: seq<Step>)
    requires look.Everywhere? && v in ScanPattern(ctx, p, inInit, look)
    ensures !ev.skips && x in EffectsInPattern(p, ev) && LeadsTo(ctx, x, inInit, look, init, rest, v)
    decreases p, 0
  {
    match p
    case Test(e, _) =>
      ev, x, rest := FoundInEvaluationHappens(ctx, e, inInit, look, init, v);
      ev := Eval(false, [ev]);
    case Group(parts) => ev, x, rest := FoundInPatternsHappens(ctx, parts, inInit, look, init, v);
    case Leaf => assert false;
  }

  lemma {:induction false} FoundInPatternsHappens(ctx: Context, ps: seq<Pattern>, inInit: bool, look: Look,
                                                  init: Initializer, v: Variable)
    returns (ev: Eval, x: Effect, rest: seq<Step>)
    requires look.Everywhere? && v in ScanPatterns(ctx, ps, inInit, look)
    ensures !ev.skips && x in EffectsInPatterns(ps, ev) && LeadsTo(ctx, x, inInit, look, init, rest, v)
    decreases ps, 0
  {
    if v in ScanPattern(ctx, ps[0], inInit, look) {
      ev, x, rest := FoundInPatternHappens(ctx, ps[0], inInit, look, init, v);
      ev := Eval(false, [ev]);
    } else {
      ev, x, rest := FoundInPatternsHappens(ctx, ps[1..], inInit, look, init, v);
      var inner := ev;
      ev := inner.(parts := [Eval(false, [])] + inner.parts);
      assert Rest(ev) == inner;
    }
  }

  lemma FoundInLeafHappens(ctx: Context, s: Stmt, inInit: bool, look: Look, init: Initializer, v: Variable,
                           written: set<Variable>)
    returns (path: Path, x: Effect, rest: seq<Step>)
    requires look.Everywhere? && IsLeaf(s) && v in ScanStatement(ctx, s, inInit, look)
    ensures x in Exec(ctx, s, path, written).effects && LeadsTo(ctx, x, inInit, look, init, rest, v)
    decreases s, 0
  {
    var ev, none := Eval(false, []), Eval(false, []);
    path := Simple([]);
    match s
    case Assignment(assignee, _, assignedValue) =>
      if v in StoreFound(ctx, assignee, inInit, look) {
        x, rest := Stores(assignee), [];
      } else if v in Scan(ctx, assignee, inInit, look) {
        ev, x, rest := FoundInEvaluationHappens(ctx, assignee, inInit, look, init, v);
        path := Simple([none, ev]);
      } else {
        ev, x, rest := FoundInEvaluationHappens(ctx, assignedValue, inInit, look, init, v);
        path := Simple([ev]);
      }
    case Assert(condition, message) =>
      if v in Scan(ctx, condition, inInit, look) {
        ev, x, rest := FoundInEvaluationHappens(ctx, condition, inInit, look, init, v);
        path := Simple([ev]);
      } else {
        ev, x, rest := FoundInEvaluationHappens(ctx, message, inInit, look, init, v);
        path := Simple([none, ev]);
      }
    case Return(result) =>
      ev, x, rest := FoundInEvaluationHappens(ctx, result, inInit, look, init, v);
      path := Simple([ev]);
    case Declare(_, initializer) =>
      ev, x, rest := FoundInEvaluationHappens(ctx, initializer.value, inInit, look, init, v);
      path := Simple([ev]);
    case Destructure(_, initializer) =>
      ev, x, rest := FoundInEvaluationHappens(ctx, initializer.value, inInit, look, init, v);
      path := Simple([ev]);
    case Evaluate(e) =>
      ev, x, rest := FoundInEvaluationHappens(ctx, e, inInit, look, init, v);
      path := Simple([ev]);
    case _ => assert false;
  }

  lemma {:induction false} FoundInStatementHappens(ctx: Context, s: Stmt, inInit: bool, look: Look, init: Initializer,
                                                   v: Variable, written: set<Variable>)
    returns (path: Path, x: Effect, rest: seq<Step>)
    requires look.Everywhere? && v in ScanStatement(ctx, s, inInit, look)
    ensures x in Exec(ctx, s, path, written).effects && LeadsTo(ctx, x, inInit, look, init, rest, v)
    decreases s, 1
  {
    var ev, body := Eval(false, []), [];
    match s
    case If(condition, trueBlock, falseBlock) =>
      if v in Scan(ctx, condition, inInit, look) {
        ev, x, rest := FoundInEvaluationHappens(ctx, condition, inInit, look, init, v);
        path := Branching([ev], true, []);
      } else if v in ScanSuite(ctx, trueBlock, inInit, look) {
        body, x, rest := FoundInSuiteHappens(ctx, trueBlock, inInit, look, init, v, written);
        path := Branching([], true, body);
      } else {
        body, x, rest := FoundInSuiteHappens(ctx, falseBlock, inInit, look, init, v, written);
        path := Branching([], false, body);
      }
    case For(list, loop) =>
      if v in Scan(ctx, list, inInit, look) {
        ev, x, rest := FoundInEvaluationHappens(ctx, list, inInit, look, init, v);
        path := Looping([ev], []);
      } else {
        body, x, rest := FoundInSuiteHappens(ctx, loop, inInit, look, init, v, written);
        path := Looping([], [Round(ev, body)]);
      }
    case While(condition, loop) =>
      if v in Scan(ctx, condition, inInit, look) {
        ev, x, rest := FoundInEvaluationHappens(ctx, condition, inInit, look, init, v);
        path := Looping([ev], []);
      } else {
        body, x, rest := FoundInSuiteHappens(ctx, loop, inInit, look, init, v, written);
        path := Looping([], [Round(ev, body)]);
      }
    case Match(test, branches) =>
      if v in Scan(ctx, test, inInit, look) {
        ev, x, rest := FoundInEvaluationHappens(ctx, test, inInit, look, init, v);
        path := Matching([ev], []);
      } else {
        var arms;
        arms, x, rest := FoundInBranchesHappens(ctx, branches, inInit, look, init, v, written);
        path := Matching([], arms);
      }
    case Suite(statements) =>
      body, x, rest := FoundInSuiteHappens(ctx, statements, inInit, look, init, v, written);
      path := Branching([], true, body);
    case _ => path, x, rest := FoundInLeafHappens(ctx, s, inInit, look, init, v, written);
  }

  // Where a run goes, and what it does apart from writing tracked finals, does
  // not depend on which finals are tracked.

  ghost predicate SameCourse(a: Run, b: Run) {
    a.outcome == b.outcome && a.effects == b.effects
  }

  lemma {:induction false} RunsTheSame(a: Context, b: Context, s: Stmt, path: Path, writtenA: set<Variable>,
                                       writtenB: set<Variable>)
    ensures SameCourse(Exec(a, s, path, writtenA), Exec(b, s, path, writtenB))
    decreases s, 1, 0
  {
    match s
    case If(_, trueBlock, falseBlock) =>
      if path.Branching? {
        SuitesRunTheSame(a, b, if path.taken then trueBlock else falseBlock, path.body, writtenA, writtenB);
      }
    case For(_, loop) => if path.Looping? { LoopsRunTheSame(a, b, Literal, loop, path.rounds, writtenA, writtenB); }
    case While(condition, loop) =>
      if path.Looping? { LoopsRunTheSame(a, b, condition, loop, path.rounds, writtenA, writtenB); }
    case Match(_, branches) =>
      if path.Matching? { BranchesRunTheSame(a, b, branches, path.arms, writtenA, writtenB); }
    case Suite(statements) =>
      if path.Branching? { SuitesRunTheSame(a, b, statements, path.body, writtenA, writtenB); }
    case _ =>
  }

  lemma {:induction false} SuitesRunTheSame(a: Context, b: Context, ss: seq<Stmt>, paths: seq<Path>,
                                            writtenA: set<Variable>, writtenB: set<Variable>)
    ensures SameCourse(ExecSuite(a, ss, paths, writtenA), ExecSuite(b, ss, paths, writtenB))
    decreases ss, 1, 0
  {
    if ss != [] && paths != [] {
      RunsTheSame(a, b, ss[0], paths[0], writtenA, writtenB);
      SuitesRunTheSame(a, b, ss[1..], paths[1..], Exec(a, ss[0], paths[0], writtenA).written,
                       Exec(b, ss[0], paths[0], writtenB).written);
    }
  }

  lemma {:induction false} LoopsRunTheSame(a: Context, b: Context, test: Expr, loop: seq<Stmt>, rounds: seq<Round>,
                                           writtenA: set<Variable>, writtenB: set<Variable>)
    ensures SameCourse(ExecLoop(a, test, loop, rounds, writtenA), ExecLoop(b, test, loop, rounds, writtenB))
    decreases loop, 2, |rounds|
  {
    if rounds != [] {
      SuitesRunTheSame(a, b, loop, rounds[0].body, writtenA, writtenB);
      LoopsRunTheSame(a, b, test, loop, rounds[1..], ExecSuite(a, loop, rounds[0].body, writtenA).written,
                      ExecSuite(b, loop, rounds[0].body, writtenB).written);
    }
  }

  lemma {:induction false} BranchesRunTheSame(a: Context, b: Context, bs: seq<Branch>, arms: seq<Arm>,
                                              writtenA: set<Variable>, writtenB: set<Variable>)
    ensures SameCourse(ExecBranches(a, bs, arms, writtenA), ExecBranches(b, bs, arms, writtenB))
    decreases bs, 1, 0
  {
    if bs != [] && arms != [] {
      SuitesRunTheSame(a, b, bs[0].block, arms[0].body, writtenA, writtenB);
      BranchesRunTheSame(a, b, bs[1..], arms[1..], writtenA, writtenB);
    }
  }

  lemma FallingNeedsNoFinals(ctx: Context, s: Stmt)
    requires Falls(ctx, s)
    ensures Falls(ctx.(finals := {}), s)
  {
    SameExits(ctx, ctx.(finals := {}), s, {}, {});
  }

  ghost predicate ExitAlike(a: Flow, b: Flow) {
    a.next.Some? == b.next.Some? && a.broke.Some? == b.broke.Some? && a.continued.Some? == b.continued.Some?
  }

  lemma {:induction false} SameExits(a: Context, b: Context, s: Stmt, beforeA: set<Variable>, beforeB: set<Variable>)
    ensures ExitAlike(FlowStatement(a, s, beforeA), FlowStatement(b, s, beforeB))
    decreases s, 0
  {
    match s
    case If(_, trueBlock, falseBlock) =>
      SuitesExitAlike(a, b, trueBlock, beforeA, beforeB);
      SuitesExitAlike(a, b, falseBlock, beforeA, beforeB);
    case Match(_, branches) => BranchesExitAlike(a, b, branches, beforeA, beforeB);
    case Suite(statements) => SuitesExitAlike(a, b, statements, beforeA, beforeB);
    case _ =>
  }

  lemma {:induction false} SuitesExitAlike(a: Context, b: Context, ss: seq<Stmt>, beforeA: set<Variable>,
                                           beforeB: set<Variable>)
    ensures ExitAlike(FlowSuite(a, ss, beforeA), FlowSuite(b, ss, beforeB))
    decreases ss, 0
  {
    if ss != [] {
      SameExits(a, b, ss[0], beforeA, beforeB);
      SuitesExitAlike(a, b, ss[1..], Elements(FlowStatement(a, ss[0], beforeA).next),
                      Elements(FlowStatement(b, ss[0], beforeB).next));
    }
  }

  lemma {:induction false} BranchesExitAlike(a: Context, b: Context, bs: seq<Branch>, beforeA: set<Variable>,
                                             beforeB: set<Variable>)
    ensures ExitAlike(FlowBranches(a, bs, beforeA), FlowBranches(b, bs, beforeB))
    decreases bs, 0
  {
    if bs != [] {
      SuitesExitAlike(a, b, bs[0].block, beforeA, beforeB);
      BranchesExitAlike(a, b, bs[1..], beforeA, beforeB);
    }
  }

  lemma CanFallThrough(ctx: Context, s: Stmt, written: set<Variable>) returns (path: Path)
    requires Falls(ctx, s)
    ensures Exec(ctx, s, path, written).outcome == Next
  {
    var blank := ctx.(finals := {});
    MembersAreScoped(blank, s);
    MemberLoopsDeclareNothing(blank, [s]);
    FallingNeedsNoFinals(ctx, s);
    path := ExitIsReached(blank, s, {}, Next, Variable(0, "", false, false), written);
    RunsTheSame(blank, ctx, s, path, written, written);
  }

  lemma {:induction false} FoundInSuiteHappens(ctx: Context, ss: seq<Stmt>, inInit: bool, look: Look,
                                               init: Initializer, v: Variable, written: set<Variable>)
    returns (paths: seq<Path>, x: Effect, rest: seq<Step>)
    requires look.Everywhere? && v in ScanSuite(ctx, ss, inInit, look)
    ensures x in ExecSuite(ctx, ss, paths, written).effects && LeadsTo(ctx, x, inInit, look, init, rest, v)
    decreases ss, 1
  {
    if v in ScanStatement(ctx, ss[0], inInit, look) {
      var path;
      path, x, rest := FoundInStatementHappens(ctx, ss[0], inInit, look, init, v, written);
      paths := [path];
      assert Exec(ctx, ss[0], paths[0], written).effects <= ExecSuite(ctx, ss, paths, written).effects;
    } else {
      var head := CanFallThrough(ctx, ss[0], written);
      var tail;
      tail, x, rest := FoundInSuiteHappens(ctx, ss[1..], inInit, look, init, v,
                                           Exec(ctx, ss[0], head, written).written);
      paths := [head] + tail;
    }
  }

  lemma {:induction false} FoundInBranchesHappens(ctx: Context, bs: seq<Branch>, inInit: bool, look: Look,
                                                  init: Initializer, v: Variable, written: set<Variable>)
    returns (arms: seq<Arm>, x: Effect, rest: seq<Step>)
    requires look.Everywhere? && v in ScanBranches(ctx, bs, inInit, look)
    ensures x in ExecBranches(ctx, bs, arms, written).effects && LeadsTo(ctx, x, inInit, look, init, rest, v)
    decreases bs, 1
  {
    var b, ev := bs[0], Eval(false, []);
    var entered := SKIPPED_ARM.(matches := true, guardHolds := true);
    if v in ScanPatterns(ctx, b.patterns, inInit, look) {
      ev, x, rest := FoundInPatternsHappens(ctx, b.patterns, inInit, look, init, v);
      arms := [entered.(patterns := ev)];
    } else if v in ScanOptional(ctx, b.guard, inInit, look) {
      ev, x, rest := FoundInEvaluationHappens(ctx, b.guard.value, inInit, look, init, v);
      arms := [entered.(guard := ev)];
    } else if v in ScanBranch(ctx, b, inInit, look) {
      var body;
      body, x, rest := FoundInSuiteHappens(ctx, b.block, inInit, look, init, v, written);
      arms := [entered.(body := body)];
    } else {
      var others;
      others, x, rest := FoundInBranchesHappens(ctx, bs[1..], inInit, look, init, v, written);
      arms := [SKIPPED_ARM] + others;
      assert arms[1..] == others;
    }
  }

  // ---------------------------------------------------------------------------
  // When is no final ever written again?
  // ---------------------------------------------------------------------------

  /** What calling the initializing function again would write, or have its
      lambdas write. */
  function WrittenAgain(init: Initializer): set<Variable> {
    if init.call.None? then {} else ScanOf(init.call.value, RESOLVED) + ScanOf(init.call.value, LATE)
  }

  /** The callable writes no final that it may not, by resolved access or by late
      access, and does not name an initializing function that writes some. */
  predicate IsClean(c: Callable, init: Initializer) {
    && ScanOf(c, RESOLVED) == {}
    && ScanOf(c, LATE) == {}
    && ScanOf(c, Again(init.name, WrittenAgain(init))) == {}
  }

  /** A scan that counts nothing finds nothing. */
  lemma NothingIsFoundAgain(c: Callable, name: string)
    ensures ScanOf(c, Again(name, {})) == {}
  {
    if v :| v in ScanOf(c, Again(name, {})) {
      var steps := FoundCallHappens(c, Again(name, {}), Initializer(name, None), v);
      assert false;
    }
  }

  lemma CleanCallsStayClean(step: Step, init: Initializer)
    requires IsClean(step.actor, init)
    ensures forall v :: !StepWrites(step, v)
    ensures forall c :: c in Created(step, init) ==> IsClean(c, init)
  {
    var c, again := step.actor, Again(init.name, WrittenAgain(init));
    SuiteIsScanned(c.ctx, c.body, step.paths, {}, c.constructing, RESOLVED);
    SuiteIsScanned(c.ctx, c.body, step.paths, {}, c.constructing, LATE);
    SuiteIsScanned(c.ctx, c.body, step.paths, {}, c.constructing, again);
    forall x | x in Done(step)
      ensures EffectWrites(c, x) == {}
      ensures x.Creates? ==> IsClean(Callable(c.ctx, x.body, false), init)
      ensures x.Names? && MayName(x.key, init.name) ==> WrittenAgain(init) == {}
    {
      assert Found(c.ctx, x, c.constructing, RESOLVED) == {};
      assert Found(c.ctx, x, c.constructing, LATE) == {};
      assert Found(c.ctx, x, c.constructing, again) == {};
    }
    if init.call.Some? && AreNamed(Done(step), init.name) {
      NothingIsFoundAgain(init.call.value, init.name);
    }
  }

  lemma {:induction false} CleanHistoriesWriteNothing(callables: set<Callable>, init: Initializer, steps: seq<Step>,
                                                      v: Variable)
    requires forall c :: c in callables ==> IsClean(c, init)
    requires History(callables, init, steps)
    ensures !SomeStepWrites(steps, v)
    decreases steps
  {
    if steps != [] {
      CleanCallsStayClean(steps[0], init);
      CleanHistoriesWriteNothing(callables + Created(steps[0], init), init, steps[1..], v);
      assert steps == [steps[0]] + steps[1..];
    }
  }

  /** After some call has made `c` available, a history of `c` can follow. */
  lemma {:induction false} HistoriesContinue(callables: set<Callable>, init: Initializer, steps: seq<Step>,
                                             c: Callable, rest: seq<Step>)
    requires History(callables, init, steps) && History({c}, init, rest)
    requires c in callables || exists i :: 0 <= i < |steps| && c in Created(steps[i], init)
    ensures History(callables, init, steps + rest)
    decreases steps
  {
    if steps == [] {
      MoreCallablesKeepHistory({c}, callables, init, rest);
      assert steps + rest == rest;
    } else {
      var available, later := callables + Created(steps[0], init), steps[1..];
      if c !in available {
        var i :| 0 <= i < |steps| && c in Created(steps[i], init);
        assert later[i - 1] == steps[i];
      }
      HistoriesContinue(available, init, later, c, rest);
      assert (steps + rest)[1..] == later + rest && (steps + rest)[0] == steps[0];
      assert History(available, init, (steps + rest)[1..]);
    }
  }

  lemma FoundWriteHappens(c: Callable, look: Look, init: Initializer, v: Variable) returns (steps: seq<Step>)
    requires look == RESOLVED || look == LATE
    requires v in ScanOf(c, look)
    ensures History({c}, init, steps) && SomeStepWrites(steps, v)
  {
    steps := FoundCallHappens(c, look, init, v);
    var i :| 0 <= i < |steps| && Hits(steps[i], look, v);
    var x :| x in Done(steps[i]) && !x.Creates? && v in Found(steps[i].actor.ctx, x, steps[i].actor.constructing, look);
    assert v in EffectWrites(steps[i].actor, x);
    assert StepWrites(steps[i], v);
  }

  /** The initializing function is named, then called, and writes. */
  lemma SecondCallWrites(c: Callable, init: Initializer, v: Variable) returns (steps: seq<Step>, w: Variable)
    requires v in ScanOf(c, Again(init.name, WrittenAgain(init)))
    ensures History({c}, init, steps) && SomeStepWrites(steps, w)
  {
    var look := Again(init.name, WrittenAgain(init));
    var before := FoundCallHappens(c, look, init, v);
    var i :| 0 <= i < |before| && Hits(before[i], look, v);
    var x :| x in Done(before[i]) && !x.Creates?
      && v in Found(before[i].actor.ctx, x, before[i].actor.constructing, look);
    assert x.Names? && MayName(x.key, init.name) && init.call.Some?;
    assert AreNamed(Done(before[i]), init.name);
    var again := init.call.value;
    w := v;
    var after := FoundWriteHappens(again, if v in ScanOf(again, RESOLVED) then RESOLVED else LATE, init, v);
    HistoriesContinue({c}, init, before, again, after);
    steps := before + after;
    var k :| 0 <= k < |after| && StepWrites(after[k], v);
    assert steps[|before| + k] == after[k];
  }

  ghost predicate NeverWritten(callables: set<Callable>, init: Initializer) {
    forall steps, v :: History(callables, init, steps) ==> !SomeStepWrites(steps, v)
  }

  /** No history of calls writes a final if and only if every callable is clean. */
  lemma NeverWrittenIffCallablesAreClean(callables: set<Callable>, init: Initializer)
    ensures NeverWritten(callables, init) <==> forall c :: c in callables ==> IsClean(c, init)
  {
    if c :| c in callables && !IsClean(c, init) {
      var steps, v;
      if ScanOf(c, RESOLVED) != {} {
        v :| v in ScanOf(c, RESOLVED);
        steps := FoundWriteHappens(c, RESOLVED, init, v);
      } else if ScanOf(c, LATE) != {} {
        v :| v in ScanOf(c, LATE);
        steps := FoundWriteHappens(c, LATE, init, v);
      } else {
        v :| v in ScanOf(c, Again(init.name, WrittenAgain(init)));
        steps, v := SecondCallWrites(c, init, v);
      }
      MoreCallablesKeepHistory({c}, callables, init, steps);
      assert SomeStepWrites(steps, v);
    } else {
      forall steps, v | History(callables, init, steps)
        ensures !SomeStepWrites(steps, v)
      {
        CleanHistoriesWriteNothing(callables, init, steps, v);
      }
    }
  }

  // ---------------------------------------------------------------------------
  // When the scan of the source sees as much as one that looks everywhere.
  // ---------------------------------------------------------------------------

  predicate NoLambda(e: Expr)
    decreases e, 0
  {
    match e
    case Attribute(base, _, _, _, _) => NoLambda(base)
    case Operation(_, parts) => NoLambdaInAll(parts)
    case Lambda(_) => false
    case _ => true
  }

  predicate NoLambdaInAll(es: seq<Expr>)
    decreases es, 0
  {
    es == [] || (NoLambda(es[0]) && NoLambdaInAll(es[1..]))
  }

  predicate NoLambdaInPatterns(ps: seq<Pattern>)
    decreases ps, 0
  {
    ps == [] || (NoLambdaInPattern(ps[0]) && NoLambdaInPatterns(ps[1..]))
  }

  predicate NoLambdaInPattern(p: Pattern)
    decreases p, 0
  {
    match p
    case Leaf => true
    case Test(e, _) => NoLambda(e)
    case Group(parts) => NoLambdaInPatterns(parts)
  }

  lemma {:induction false} NothingFoundWithoutLambda(ctx: Context, e: Expr, inInit: bool)
    requires NoLambda(e)
    ensures Scan(ctx, e, inInit, RESOLVED) == {}
    decreases e, 0
  {
    match e
    case Attribute(base, _, _, _, _) => NothingFoundWithoutLambda(ctx, base, inInit);
    case Operation(_, parts) => NothingFoundWithoutLambdas(ctx, parts, inInit);
    case _ =>
  }

  lemma {:induction false} NothingFoundWithoutLambdas(ctx: Context, es: seq<Expr>, inInit: bool)
    requires NoLambdaInAll(es)
    ensures ScanAll(ctx, es, inInit, RESOLVED) == {}
    decreases es, 0
  {
    if es != [] {
      NothingFoundWithoutLambda(ctx, es[0], inInit);
      NothingFoundWithoutLambdas(ctx, es[1..], inInit);
    }
  }

  lemma {:induction false} NothingFoundInPatterns(ctx: Context, ps: seq<Pattern>, inInit: bool)
    requires NoLambdaInPatterns(ps)
    ensures ScanPatterns(ctx, ps, inInit, RESOLVED) == {}
    decreases ps
  {
    if ps != [] {
      match ps[0] {
        case Leaf =>
        case Test(e, _) => NothingFoundWithoutLambda(ctx, e, inInit);
        case Group(parts) => NothingFoundInPatterns(ctx, parts, inInit);
      }
      NothingFoundInPatterns(ctx, ps[1..], inInit);
    }
  }

  /** No lambda stands below a node at which the scan stops. */
  predicate InSight(e: Expr)
    decreases e, 0
  {
    match e
    case Attribute(base, _, _, _, _) => InSight(base)
    case Operation(kind, parts) =>
      if kind in {TypeTest, Cast, Await, TupleLiteral} then NoLambdaInAll(parts) else AllInSight(parts)
    case Lambda(body) => SuiteInSight(body)
    case _ => true
  }

  predicate AllInSight(es: seq<Expr>)
    decreases es, 0
  {
    es == [] || (InSight(es[0]) && AllInSight(es[1..]))
  }

  predicate OptionalInSight(e: Option<Expr>)
    decreases e, 1
  {
    e.None? || InSight(e.value)
  }

  predicate StatementInSight(s: Stmt)
    decreases s, 0
  {
    match s
    case Assignment(assignee, _, assignedValue) => InSight(assignee) && InSight(assignedValue)
    case If(condition, trueBlock, falseBlock) =>
      InSight(condition) && SuiteInSight(trueBlock) && SuiteInSight(falseBlock)
    case For(list, loop) => InSight(list) && SuiteInSight(loop)
    case While(condition, loop) => InSight(condition) && SuiteInSight(loop)
    case Match(test, branches) => InSight(test) && BranchesInSight(branches)
    case Return(result) => InSight(result)
    case Declare(_, initializer) => OptionalInSight(initializer)
    case Destructure(_, initializer) => OptionalInSight(initializer)
    case Assert(condition, message) => InSight(condition) && InSight(message)
    case Suite(statements) => SuiteInSight(statements)
    case Evaluate(e) => InSight(e)
    case _ => true
  }

  predicate SuiteInSight(ss: seq<Stmt>)
    decreases ss, 0
  {
    ss == [] || (StatementInSight(ss[0]) && SuiteInSight(ss[1..]))
  }

  predicate BranchesInSight(bs: seq<Branch>)
    decreases bs, 0
  {
    bs == [] || (NoLambdaInPatterns(bs[0].patterns) && OptionalInSight(bs[0].guard)
                 && SuiteInSight(bs[0].block) && BranchesInSight(bs[1..]))
  }

  /** What the scan of the source can see it finds: where lambdas are in sight, a
      scan that looks everywhere finds no further illegal target. */
  lemma {:induction false} ScanSeesWhatIsInSight(ctx: Context, e: Expr, inInit: bool)
    requires InSight(e)
    ensures Scan(ctx, e, inInit, RESOLVED) <= Scan(ctx, e, inInit, AsSource)
    decreases e, 0
  {
    match e
    case Attribute(base, _, _, _, _) => ScanSeesWhatIsInSight(ctx, base, inInit);
    case Operation(kind, parts) =>
      if ScanStopsAt(kind) {
        NothingFoundWithoutLambdas(ctx, parts, inInit);
      } else {
        ScanSeesAllInSight(ctx, parts, inInit);
      }
    case Lambda(body) => ScanSeesSuiteInSight(ctx, body, false);
    case _ =>
  }

  lemma {:induction false} ScanSeesAllInSight(ctx: Context, es: seq<Expr>, inInit: bool)
    requires AllInSight(es)
    ensures ScanAll(ctx, es, inInit, RESOLVED) <= ScanAll(ctx, es, inInit, AsSource)
    decreases es, 0
  {
    if es != [] {
      ScanSeesWhatIsInSight(ctx, es[0], inInit);
      ScanSeesAllInSight(ctx, es[1..], inInit);
    }
  }

  /** The expressions directly below a statement. */
  function Expressions(s: Stmt): (es: seq<Expr>)
    ensures forall i :: 0 <= i < |es| ==> es[i] < s
  {
    match s
    case Assignment(assignee, _, assignedValue) => [assignee, assignedValue]
    case If(condition, _, _) => [condition]
    case For(list, _) => [list]
    case While(condition, _) => [condition]
    case Match(test, _) => [test]
    case Return(result) => [result]
    case Declare(_, initializer) => if initializer.Some? then [initializer.value] else []
    case Destructure(_, initializer) => if initializer.Some? then [initializer.value] else []
    case Assert(condition, message) => [condition, message]
    case Evaluate(e) => [e]
    case _ => []
  }

  lemma {:induction false} ScanSeesStatementInSight(ctx: Context, s: Stmt, inInit: bool)
    requires StatementInSight(s)
    ensures ScanStatement(ctx, s, inInit, RESOLVED) <= ScanStatement(ctx, s, inInit, AsSource)
    decreases s, 0
  {
    var es := Expressions(s);
    forall i | 0 <= i < |es|
      ensures InSight(es[i]) && Scan(ctx, es[i], inInit, RESOLVED) <= Scan(ctx, es[i], inInit, AsSource)
    {
      ScanSeesWhatIsInSight(ctx, es[i], inInit);
    }
    assert |es| > 0 ==> Scan(ctx, es[0], inInit, RESOLVED) <= Scan(ctx, es[0], inInit, AsSource);
    assert |es| > 1 ==> Scan(ctx, es[1], inInit, RESOLVED) <= Scan(ctx, es[1], inInit, AsSource);
    match s
    case If(_, trueBlock, falseBlock) =>
      ScanSeesSuiteInSight(ctx, trueBlock, inInit);
      ScanSeesSuiteInSight(ctx, falseBlock, inInit);
    case For(_, loop) => ScanSeesSuiteInSight(ctx, loop, inInit);
    case While(_, loop) => ScanSeesSuiteInSight(ctx, loop, inInit);
    case Match(_, branches) => ScanSeesBranchesInSight(ctx, branches, inInit);
    case Suite(statements) => ScanSeesSuiteInSight(ctx, statements, inInit);
    case _ =>
  }

  lemma {:induction false} ScanSeesSuiteInSight(ctx: Context, ss: seq<Stmt>, inInit: bool)
    requires SuiteInSight(ss)
    ensures ScanSuite(ctx, ss, inInit, RESOLVED) <= ScanSuite(ctx, ss, inInit, AsSource)
    decreases ss, 0
  {
    if ss != [] {
      ScanSeesStatementInSight(ctx, ss[0], inInit);
      ScanSeesSuiteInSight(ctx, ss[1..], inInit);
    }
  }

  lemma {:induction false} ScanSeesBranchesInSight(ctx: Context, bs: seq<Branch>, inInit: bool)
    requires BranchesInSight(bs)
    ensures ScanBranches(ctx, bs, inInit, RESOLVED) <= ScanBranches(ctx, bs, inInit, AsSource)
    decreases bs, 0
  {
    if bs != [] {
      NothingFoundInPatterns(ctx, bs[0].patterns, inInit);
      if bs[0].guard.Some? { ScanSeesWhatIsInSight(ctx, bs[0].guard.value, inInit); }
      ScanSeesSuiteInSight(ctx, bs[0].block, inInit);
      ScanSeesBranchesInSight(ctx, bs[1..], inInit);
      assert ScanBranch(ctx, bs[0], inInit, RESOLVED) <= ScanBranch(ctx, bs[0], inInit, AsSource);
    }
  }
}
