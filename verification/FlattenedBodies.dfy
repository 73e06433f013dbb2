/** A body flattened in from a trait keeps the nodes of the trait.  Checking it is
    the same as checking the body that the class itself would have written, with
    every bare or `self` name bound to the class's own slot of that name. */
module FlattenedBodies {
  import opened Options
  import opened Syntax
  import opened FinalResolution
  import opened DefiniteAssignment
  import opened FinalWrites
  import opened FinalMembers

  /** The rules for the class's own bodies. */
  function Own(ctx: Context): Context {
    ctx.(inFlattenedTrait := false)
  }

  ghost predicate AllFinal(byName: map<string, Variable>) {
    forall name :: name in byName ==> byName[name].isFinal
  }

  /** The finals by name are finals of the scope under consideration. */
  ghost predicate NamesSlots(ctx: Context) {
    ctx.scope != LocalScope && AllFinal(ctx.byName)
  }

  function SlotSource(ctx: Context): Source {
    if ctx.scope == StaticMember then StaticVariable else MemberVariable
  }

  predicate IsForeign(ctx: Context, source: Source, variable: Option<Variable>) {
    IsMemberSource(source) && variable.Some? && variable.value in ctx.traitNodes
  }

  function Rebind(ctx: Context, e: Expr): Expr
    decreases e, 0
  {
    match e
    case Identifier(name, source, variable) =>
      if IsLocalSource(source) then e
      else if name in ctx.byName then Identifier(name, SlotSource(ctx), Some(ctx.byName[name]))
      else if IsForeign(ctx, source, variable) then Identifier(name, UndefinedSource, None)
      else e
    case Attribute(base, name, source, variable, receiver) =>
      if base != SelfReference then Attribute(Rebind(ctx, base), name, source, variable, receiver)
      else if name in ctx.byName then Attribute(base, name, SlotSource(ctx), Some(ctx.byName[name]), receiver)
      else if IsForeign(ctx, source, variable) then Attribute(base, name, UndefinedSource, None, receiver)
      else e
    case Operation(kind, parts) => Operation(kind, RebindAll(ctx, parts))
    case Lambda(body) => Lambda(RebindSuite(ctx, body))
    case _ => e
  }

  function RebindAll(ctx: Context, es: seq<Expr>): seq<Expr>
    decreases es, 0
  {
    if es == [] then [] else [Rebind(ctx, es[0])] + RebindAll(ctx, es[1..])
  }

  function RebindOptional(ctx: Context, e: Option<Expr>): Option<Expr>
    decreases e, 1
  {
    if e.None? then None else Some(Rebind(ctx, e.value))
  }

  function RebindPattern(ctx: Context, p: Pattern): Pattern
    decreases p, 0
  {
    match p
    case Leaf => p
    case Test(e, irrefutable) => Test(Rebind(ctx, e), irrefutable)
    case Group(parts) => Group(RebindPatterns(ctx, parts))
  }

  function RebindPatterns(ctx: Context, ps: seq<Pattern>): (r: seq<Pattern>)
    ensures |r| == |ps| && forall i :: 0 <= i < |ps| ==> (AlwaysMatches(r[i]) <==> AlwaysMatches(ps[i]))
    decreases ps, 0
  {
    if ps == [] then [] else [RebindPattern(ctx, ps[0])] + RebindPatterns(ctx, ps[1..])
  }

  function RebindStatement(ctx: Context, s: Stmt): Stmt
    decreases s, 0
  {
    match s
    case Assignment(assignee, compound, assignedValue) =>
      Assignment(Rebind(ctx, assignee), compound, Rebind(ctx, assignedValue))
    case If(condition, trueBlock, falseBlock) =>
      If(Rebind(ctx, condition), RebindSuite(ctx, trueBlock), RebindSuite(ctx, falseBlock))
    case For(list, loop) => For(Rebind(ctx, list), RebindSuite(ctx, loop))
    case While(condition, loop) => While(Rebind(ctx, condition), RebindSuite(ctx, loop))
    case Match(test, branches) => Match(Rebind(ctx, test), RebindBranches(ctx, branches))
    case Return(result) => Return(Rebind(ctx, result))
    case Declare(variable, initializer) => Declare(variable, RebindOptional(ctx, initializer))
    case Destructure(bindings, initializer) => Destructure(bindings, RebindOptional(ctx, initializer))
    case Assert(condition, message) => Assert(Rebind(ctx, condition), Rebind(ctx, message))
    case Suite(statements) => Suite(RebindSuite(ctx, statements))
    case Evaluate(e) => Evaluate(Rebind(ctx, e))
    case _ => s
  }

  function RebindSuite(ctx: Context, ss: seq<Stmt>): seq<Stmt>
    decreases ss, 0
  {
    if ss == [] then [] else [RebindStatement(ctx, ss[0])] + RebindSuite(ctx, ss[1..])
  }

  function RebindBranch(ctx: Context, b: Branch): Branch
    decreases b, 0
  {
    Branch(RebindPatterns(ctx, b.patterns), b.hasWildcard, RebindOptional(ctx, b.guard), RebindSuite(ctx, b.block))
  }

  function RebindBranches(ctx: Context, bs: seq<Branch>): seq<Branch>
    decreases bs, 0
  {
    if bs == [] then [] else [RebindBranch(ctx, bs[0])] + RebindBranches(ctx, bs[1..])
  }

  lemma DenotationsAgree(ctx: Context, e: Expr)
    requires ctx.inFlattenedTrait && NamesSlots(ctx)
    ensures TargetOf(ctx, e) == TargetOf(Own(ctx), Rebind(ctx, e))
  {
  }

  lemma BasesAgree(ctx: Context, e: Expr)
    ensures LookedUp(Rebind(ctx, e)) == LookedUp(e)
    ensures PartBase(Rebind(ctx, e)) == if PartBase(e).None? then None else Some(Rebind(ctx, PartBase(e).value))
    ensures Rebind(ctx, e).Attribute? == e.Attribute?
  {
  }

  lemma NamesAgree(ctx: Context, e: Expr)
    ensures NamedOnSelf(ctx, e) == NamedOnSelf(Own(ctx), Rebind(ctx, e))
  {
    if e.Operation? && e.kind.Index? {
      IndexOnSelfIsKept(ctx, e.parts);
    }
  }

  lemma IndexOnSelfIsKept(ctx: Context, parts: seq<Expr>)
    ensures RebindAll(ctx, parts) == [SelfReference, Literal] <==> parts == [SelfReference, Literal]
  {
    if |parts| > 0 {
      var tail := parts[1..];
      assert parts == [parts[0]] + tail && RebindAll(ctx, parts) == [Rebind(ctx, parts[0])] + RebindAll(ctx, tail);
      if |tail| > 0 {
        var last := tail[1..];
        assert tail == [tail[0]] + last && RebindAll(ctx, tail) == [Rebind(ctx, tail[0])] + RebindAll(ctx, last);
        assert last != [] ==> |RebindAll(ctx, last)| > 0;
      }
    }
  }

  /** The flattened rules give an expression the meaning that its rebound form has
      under the ordinary ones. */
  lemma TargetsAgree(ctx: Context, e: Expr)
    requires ctx.inFlattenedTrait && NamesSlots(ctx)
    ensures TargetOf(ctx, e) == TargetOf(Own(ctx), Rebind(ctx, e))
    ensures SlotOf(ctx, e) == SlotOf(Own(ctx), Rebind(ctx, e))
    ensures LateTargets(ctx, e) == LateTargets(Own(ctx), Rebind(ctx, e))
    ensures PartTargets(ctx, e) == PartTargets(Own(ctx), Rebind(ctx, e))
    ensures DescendsBelow(ctx, e) == DescendsBelow(Own(ctx), Rebind(ctx, e))
  {
    DenotationsAgree(ctx, e);
    BasesAgree(ctx, e);
    NamesAgree(ctx, e);
    if PartBase(e).Some? {
      DenotationsAgree(ctx, PartBase(e).value);
    }
  }

  // ---------------------------------------------------------------------------
  // Reads and the analysis.
  // ---------------------------------------------------------------------------

  lemma ReadsAgree(ctx: Context, e: Expr)
    requires ctx.inFlattenedTrait && NamesSlots(ctx)
    ensures Reads(ctx, e) == Reads(Own(ctx), Rebind(ctx, e))
    decreases e, 1
  {
    TargetsAgree(ctx, e);
    ReadsBelowAgree(ctx, e);
  }

  lemma {:induction false} ReadsBelowAgree(ctx: Context, e: Expr)
    requires ctx.inFlattenedTrait && NamesSlots(ctx)
    ensures ReadsBelow(ctx, e) == ReadsBelow(Own(ctx), Rebind(ctx, e))
    decreases e, 0
  {
    TargetsAgree(ctx, e);
    match e
    case Attribute(base, _, _, _, _) => ReadsAgree(ctx, base);
    case Operation(_, parts) => ReadsOfAllAgree(ctx, parts);
    case _ =>
  }

  lemma {:induction false} ReadsOfAllAgree(ctx: Context, es: seq<Expr>)
    requires ctx.inFlattenedTrait && NamesSlots(ctx)
    ensures ReadsOfAll(ctx, es) == ReadsOfAll(Own(ctx), RebindAll(ctx, es))
    decreases es, 0
  {
    if es != [] {
      ReadsAgree(ctx, es[0]);
      ReadsOfAllAgree(ctx, es[1..]);
      assert RebindAll(ctx, es)[1..] == RebindAll(ctx, es[1..]);
    }
  }

  lemma {:induction false} PatternsReadAgree(ctx: Context, ps: seq<Pattern>)
    requires ctx.inFlattenedTrait && NamesSlots(ctx)
    ensures PatternsRead(ctx, ps) == PatternsRead(Own(ctx), RebindPatterns(ctx, ps))
    decreases ps
  {
    if ps != [] {
      match ps[0] {
        case Leaf =>
        case Test(e, _) => ReadsAgree(ctx, e);
        case Group(parts) => PatternsReadAgree(ctx, parts);
      }
      PatternsReadAgree(ctx, ps[1..]);
      assert RebindPatterns(ctx, ps)[1..] == RebindPatterns(ctx, ps[1..]);
    }
  }

  lemma StoreAnalysesAgree(ctx: Context, assignee: Expr, compound: bool, assignedValue: Expr, f: Facts)
    requires ctx.inFlattenedTrait && NamesSlots(ctx)
    ensures AnalyzeAssignment(ctx, assignee, compound, assignedValue, f)
         == AnalyzeAssignment(Own(ctx), Rebind(ctx, assignee), compound, Rebind(ctx, assignedValue), f)
  {
    TargetsAgree(ctx, assignee);
    ReadsBelowAgree(ctx, assignee);
    ReadsAgree(ctx, assignedValue);
  }

  lemma {:induction false} AnalysesAgree(ctx: Context, s: Stmt, f: Facts)
    requires ctx.inFlattenedTrait && NamesSlots(ctx)
    ensures AnalyzeStatement(ctx, s, f) == AnalyzeStatement(Own(ctx), RebindStatement(ctx, s), f)
    decreases s, 0
  {
    match s
    case Assignment(assignee, compound, assignedValue) => StoreAnalysesAgree(ctx, assignee, compound, assignedValue, f);
    case If(condition, trueBlock, falseBlock) =>
      ReadsAgree(ctx, condition);
      SuiteAnalysesAgree(ctx, trueBlock, f);
      SuiteAnalysesAgree(ctx, falseBlock, f);
    case For(list, loop) =>
      ReadsAgree(ctx, list);
      SuiteAnalysesAgree(ctx, loop, f);
    case While(condition, loop) =>
      ReadsAgree(ctx, condition);
      SuiteAnalysesAgree(ctx, loop, f);
    case Match(test, branches) =>
      ReadsAgree(ctx, test);
      BranchAnalysesAgree(ctx, branches, f, Facts({}, {}, false), false);
    case Return(result) => ReadsAgree(ctx, result);
    case Declare(_, initializer) => if initializer.Some? { ReadsAgree(ctx, initializer.value); }
    case Destructure(_, initializer) => if initializer.Some? { ReadsAgree(ctx, initializer.value); }
    case Assert(condition, message) =>
      ReadsAgree(ctx, condition);
      ReadsAgree(ctx, message);
    case Suite(statements) => SuiteAnalysesAgree(ctx, statements, f);
    case Evaluate(e) => ReadsAgree(ctx, e);
    case _ =>
  }

  /** The analysis of a flattened suite is that of the rebound suite. */
  lemma {:induction false} SuiteAnalysesAgree(ctx: Context, ss: seq<Stmt>, f: Facts)
    requires ctx.inFlattenedTrait && NamesSlots(ctx)
    ensures AnalyzeSuite(ctx, ss, f) == AnalyzeSuite(Own(ctx), RebindSuite(ctx, ss), f)
    decreases ss, 0
  {
    if ss != [] {
      AnalysesAgree(ctx, ss[0], f);
      SuiteAnalysesAgree(ctx, ss[1..], AnalyzeStatement(ctx, ss[0], f).facts);
      assert RebindSuite(ctx, ss)[1..] == RebindSuite(ctx, ss[1..]);
    }
  }

  lemma {:induction false} BranchAnalysisAgrees(ctx: Context, b: Branch, f: Facts)
    requires ctx.inFlattenedTrait && NamesSlots(ctx)
    ensures AnalyzeBranch(ctx, b, f) == AnalyzeBranch(Own(ctx), RebindBranch(ctx, b), f)
    ensures CatchAll(b) == CatchAll(RebindBranch(ctx, b))
    decreases b, 0
  {
    PatternsReadAgree(ctx, b.patterns);
    if b.guard.Some? {
      ReadsAgree(ctx, b.guard.value);
    }
    SuiteAnalysesAgree(ctx, b.block, if b.guard.None? then f else AnalyzeExpression(ctx, b.guard.value, f).facts);
  }

  lemma {:induction false} BranchAnalysesAgree(ctx: Context, bs: seq<Branch>, f: Facts, merged: Facts, hasBranch: bool)
    requires ctx.inFlattenedTrait && NamesSlots(ctx)
    ensures AnalyzeBranches(ctx, bs, f, merged, hasBranch)
            == AnalyzeBranches(Own(ctx), RebindBranches(ctx, bs), f, merged, hasBranch)
    decreases bs, 0
  {
    if bs != [] {
      BranchAnalysisAgrees(ctx, bs[0], f);
      var branch := AnalyzeBranch(ctx, bs[0], f).facts;
      BranchAnalysesAgree(ctx, bs[1..], f, if hasBranch then Merge(merged, branch) else branch, true);
      assert RebindBranches(ctx, bs)[1..] == RebindBranches(ctx, bs[1..]);
    }
  }

  // ---------------------------------------------------------------------------
  // The scan for writes.
  // ---------------------------------------------------------------------------

  lemma {:induction false} ScansAgree(ctx: Context, e: Expr, inInit: bool)
    requires ctx.inFlattenedTrait && NamesSlots(ctx)
    ensures Scan(ctx, e, inInit, AsSource) == Scan(Own(ctx), Rebind(ctx, e), inInit, AsSource)
    decreases e, 0
  {
    match e
    case Attribute(base, _, _, _, _) => ScansAgree(ctx, base, inInit);
    case Operation(_, parts) => ScansOfAllAgree(ctx, parts, inInit);
    case Lambda(body) => SuiteScansAgree(ctx, body, false);
    case _ =>
  }

  lemma {:induction false} ScansOfAllAgree(ctx: Context, es: seq<Expr>, inInit: bool)
    requires ctx.inFlattenedTrait && NamesSlots(ctx)
    ensures ScanAll(ctx, es, inInit, AsSource) == ScanAll(Own(ctx), RebindAll(ctx, es), inInit, AsSource)
    decreases es, 0
  {
    if es != [] {
      ScansAgree(ctx, es[0], inInit);
      ScansOfAllAgree(ctx, es[1..], inInit);
      assert RebindAll(ctx, es)[1..] == RebindAll(ctx, es[1..]);
    }
  }

  lemma {:induction false} StatementScansAgree(ctx: Context, s: Stmt, inInit: bool)
    requires ctx.inFlattenedTrait && NamesSlots(ctx)
    ensures ScanStatement(ctx, s, inInit, AsSource)
            == ScanStatement(Own(ctx), RebindStatement(ctx, s), inInit, AsSource)
    decreases s, 0
  {
    match s
    case Assignment(assignee, _, assignedValue) =>
      TargetsAgree(ctx, assignee);
      ScansAgree(ctx, assignee, inInit);
      ScansAgree(ctx, assignedValue, inInit);
    case If(condition, trueBlock, falseBlock) =>
      ScansAgree(ctx, condition, inInit);
      SuiteScansAgree(ctx, trueBlock, inInit);
      SuiteScansAgree(ctx, falseBlock, inInit);
    case For(list, loop) =>
      ScansAgree(ctx, list, inInit);
      SuiteScansAgree(ctx, loop, inInit);
    case While(condition, loop) =>
      ScansAgree(ctx, condition, inInit);
      SuiteScansAgree(ctx, loop, inInit);
    case Match(test, branches) =>
      ScansAgree(ctx, test, inInit);
      BranchScansAgree(ctx, branches, inInit);
    case Return(result) => ScansAgree(ctx, result, inInit);
    case Declare(_, initializer) => if initializer.Some? { ScansAgree(ctx, initializer.value, inInit); }
    case Destructure(_, initializer) => if initializer.Some? { ScansAgree(ctx, initializer.value, inInit); }
    case Assert(condition, message) =>
      ScansAgree(ctx, condition, inInit);
      ScansAgree(ctx, message, inInit);
    case Suite(statements) => SuiteScansAgree(ctx, statements, inInit);
    case Evaluate(e) => ScansAgree(ctx, e, inInit);
    case _ =>
  }

  /** The scan of a flattened suite is that of the rebound suite. */
  lemma {:induction false} SuiteScansAgree(ctx: Context, ss: seq<Stmt>, inInit: bool)
    requires ctx.inFlattenedTrait && NamesSlots(ctx)
    ensures ScanSuite(ctx, ss, inInit, AsSource) == ScanSuite(Own(ctx), RebindSuite(ctx, ss), inInit, AsSource)
    decreases ss, 0
  {
    if ss != [] {
      StatementScansAgree(ctx, ss[0], inInit);
      SuiteScansAgree(ctx, ss[1..], inInit);
      assert RebindSuite(ctx, ss)[1..] == RebindSuite(ctx, ss[1..]);
    }
  }

  lemma {:induction false} BranchScansAgree(ctx: Context, bs: seq<Branch>, inInit: bool)
    requires ctx.inFlattenedTrait && NamesSlots(ctx)
    ensures ScanBranches(ctx, bs, inInit, AsSource) == ScanBranches(Own(ctx), RebindBranches(ctx, bs), inInit, AsSource)
    decreases bs, 0
  {
    if bs != [] {
      if bs[0].guard.Some? { ScansAgree(ctx, bs[0].guard.value, inInit); }
      SuiteScansAgree(ctx, bs[0].block, inInit);
      assert ScanBranch(ctx, bs[0], inInit, AsSource)
             == ScanBranch(Own(ctx), RebindBranch(ctx, bs[0]), inInit, AsSource);
      BranchScansAgree(ctx, bs[1..], inInit);
      assert RebindBranches(ctx, bs)[1..] == RebindBranches(ctx, bs[1..]);
    }
  }

  // ---------------------------------------------------------------------------
  // The rules that classes use.
  // ---------------------------------------------------------------------------

  lemma {:induction false} NamedAreFinal(scope: Scope, fromTrait: bool, ms: seq<Member>, known: map<string, Variable>)
    requires AllFinal(known)
    ensures AllFinal(ByName(scope, fromTrait, ms, known))
    decreases ms
  {
    if ms != [] {
      NamedAreFinal(scope, fromTrait, ms[1..],
                   if Tracks(scope, fromTrait, ms[0]) then known[ms[0].variable.name := ms[0].variable] else known);
    }
  }

  /** Checking a body that a class receives from a trait is checking it as the
      class's own. */
  lemma ReceivedBodiesAreChecked(c: ClassNode, scope: Scope, body: seq<Stmt>, inInit: bool, f: Facts)
    requires scope != LocalScope
    ensures var flattened, own := ContextOf(c, scope, true, false), ContextOf(c, scope, false, false);
            && AnalyzeSuite(flattened, body, f) == AnalyzeSuite(own, RebindSuite(flattened, body), f)
            && ScanSuite(flattened, body, inInit, AsSource)
               == ScanSuite(own, RebindSuite(flattened, body), inInit, AsSource)
  {
    var flattened := ContextOf(c, scope, true, false);
    NamedAreFinal(scope, false, c.members, map[]);
    NamedAreFinal(scope, true, FlattenedMembers(c), ByName(scope, false, c.members, map[]));
    assert Own(flattened) == ContextOf(c, scope, false, false);
    SuiteAnalysesAgree(flattened, body, f);
    SuiteScansAgree(flattened, body, inInit);
  }
}
