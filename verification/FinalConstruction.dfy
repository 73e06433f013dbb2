/** What construction does to the finals of a class: its initializers, the
    parameter defaults and the body of the initializing function run with late
    accesses followed, and the check of construction is compared with that. */
module FinalConstruction {
  import opened Syntax
  import opened FinalResolution
  import opened DefiniteAssignment
  import opened AssignmentRuns
  import opened ReadSoundness
  import opened WriteOnce
  import opened AssignmentExactness
  import opened LateAccesses
  import opened FinalMembers

  // ---------------------------------------------------------------------------
  // What construction does.
  // ---------------------------------------------------------------------------

  /** Evaluations of the initializers and of the parameter defaults that are
      needed, and the path through the initializing function. */
  datatype Construction = Construction(own: seq<Eval>, received: seq<Eval>, defaults: Eval, body: seq<Path>)

  function EvalOr(evs: seq<Eval>): Eval {
    if evs == [] then Eval(false, []) else evs[0]
  }

  function Drop(evs: seq<Eval>): seq<Eval> {
    if evs == [] then [] else evs[1..]
  }

  /** What is evaluated before the run `r`. */
  function Faults(r: Run, fs: set<Fault>): Run {
    After(Seen(fs, {}), r)
  }

  /** Creating an object evaluates the initializers of all its variables, setting up
      a class those of its static ones. */
  predicate RunsInitializer(scope: Scope, m: Member) {
    match m
    case VariableMember(variable, Some(_), _, _) => scope != StaticMember || variable.isStatic
    case _ => false
  }

  function RunInitializers(ctx: Context, ms: seq<Member>, evs: seq<Eval>, written: set<Variable>): Run {
    if ms == [] then Ends(written, Next) else
    if !RunsInitializer(ctx.scope, ms[0]) then RunInitializers(ctx, ms[1..], evs, written) else
    Faults(RunInitializers(ctx, ms[1..], Drop(evs), written + ({ms[0].variable} * ctx.finals)),
           ReadFaults(ReadIn(ctx, ms[0].initializer.value, EvalOr(evs)), written))
  }

  function RunAllInitializers(c: ClassNode, scope: Scope, k: Construction): Run {
    var own := RunInitializers(ContextOf(c, scope, false, true), c.members, k.own, {});
    Faults(RunInitializers(ContextOf(c, scope, true, true), FlattenedMembers(c), k.received, own.written), own.faults)
  }

  /** A default is evaluated only if its argument is missing. */
  function DefaultsRead(ctx: Context, es: seq<Expr>, ev: Eval): set<Variable> {
    if es == [] then {} else
    (if First(ev).skips then {} else ReadIn(ctx, es[0], First(First(ev)))) + DefaultsRead(ctx, es[1..], Rest(ev))
  }

  function AtEnd(c: ClassNode, scope: Scope, r: Run): Run {
    if r.outcome != Next then r
    else Faults(r, set v | v in Finals(c, scope) && v !in r.written :: ReturnedWithout(v))
  }

  function RunConstruction(c: ClassNode, scope: Scope, k: Construction): Run {
    var initialized := RunAllInitializers(c, scope, k);
    match InitOf(c, scope)
    case None => AtEnd(c, scope, initialized)
    case Some(init) =>
      var ctx := InitContext(c, scope, true);
      var defaults := ReadFaults(DefaultsRead(ctx, init.parameterDefaults, k.defaults), initialized.written);
      Faults(AtEnd(c, scope, ExecSuite(ctx, init.body, k.body, initialized.written)), initialized.faults + defaults)
  }

  // ---------------------------------------------------------------------------
  // Construction is checked exactly.
  // ---------------------------------------------------------------------------

  lemma {:induction false} InitializersAreExact(ctx: Context, ms: seq<Member>, f: Facts, evs: seq<Eval>)
    requires f.definite == f.possible
    ensures var r := AnalyzeInitializers(ctx, ms, f);
            var run := RunInitializers(ctx, ms, evs, f.definite);
            && run.outcome == Next && run.written == r.facts.definite == r.facts.possible
            && r.facts.reachable == f.reachable
            && (r.diagnostics == {} ==> run.faults == {})
    decreases ms
  {
    if ms != [] {
      if IsInitialized(ctx.scope, ms[0]) {
        var f' := f.Assign({ms[0].variable} * ctx.finals);
        InitializersAreExact(ctx, ms[1..], f', Drop(evs));
        if AnalyzeInitializers(ctx, ms, f).diagnostics == {} {
          var early := Unassigned(Reads(ctx, ms[0].initializer.value), f.definite);
          assert early <= AnalyzeInitializers(ctx, ms, f).diagnostics;
          EvaluationIsSafe(ctx, ms[0].initializer.value, EvalOr(evs), f.definite, f.definite);
        }
      } else {
        InitializersAreExact(ctx, ms[1..], f, evs);
      }
    }
  }

  lemma {:induction false} RejectedInitializerFaults(ctx: Context, ms: seq<Member>, f: Facts) returns (evs: seq<Eval>)
    requires AnalyzeInitializers(ctx, ms, f).diagnostics != {}
    ensures RunInitializers(ctx, ms, evs, f.definite).faults != {}
    decreases ms
  {
    evs := [];
    if !IsInitialized(ctx.scope, ms[0]) {
      evs := RejectedInitializerFaults(ctx, ms[1..], f);
    } else {
      var e := ms[0].initializer.value;
      if d :| d in Unassigned(Reads(ctx, e), f.definite) {
        evs := [ReadIfPossible(ctx, e, d.variable)];
        assert ReadUnassigned(d.variable) in RunInitializers(ctx, ms, evs, f.definite).faults;
      } else {
        var rest := RejectedInitializerFaults(ctx, ms[1..], f.Assign({ms[0].variable} * ctx.finals));
        evs := [Eval(false, [])] + rest;
        assert Drop(evs) == rest;
      }
    }
  }

  lemma {:induction false} DefaultsReadOnly(ctx: Context, es: seq<Expr>, ev: Eval)
    ensures DefaultsRead(ctx, es, ev) <= ReadsOfAll(ctx, es)
    decreases es
  {
    if es != [] {
      EvaluationReadsOnly(ctx, es[0], First(First(ev)));
      DefaultsReadOnly(ctx, es[1..], Rest(ev));
    }
  }

  lemma {:induction false} EveryDefaultReadHappens(ctx: Context, es: seq<Expr>, v: Variable) returns (ev: Eval)
    requires v in ReadsOfAll(ctx, es)
    ensures v in DefaultsRead(ctx, es, ev) && !ev.skips
    decreases es
  {
    if v in Reads(ctx, es[0]) {
      ev := Eval(false, [Eval(false, [ReadIfPossible(ctx, es[0], v)])]);
    } else {
      var rest := EveryDefaultReadHappens(ctx, es[1..], v);
      ev := rest.(parts := [Eval(true, [])] + rest.parts);
      assert Rest(ev) == rest;
    }
  }

  lemma AllInitializersAreExact(c: ClassNode, scope: Scope, k: Construction)
    ensures var r := AnalyzeAllInitializers(c, scope, true);
            var run := RunAllInitializers(c, scope, k);
            && run.outcome == Next && run.written == r.facts.definite == r.facts.possible && r.facts.reachable
            && (r.diagnostics == {} ==> run.faults == {})
  {
    var own := AnalyzeInitializers(ContextOf(c, scope, false, true), c.members, Facts({}, {}, true));
    InitializersAreExact(ContextOf(c, scope, false, true), c.members, Facts({}, {}, true), k.own);
    InitializersAreExact(ContextOf(c, scope, true, true), FlattenedMembers(c), own.facts, k.received);
    var received := AnalyzeInitializers(ContextOf(c, scope, true, true), FlattenedMembers(c), own.facts);
    if AnalyzeAllInitializers(c, scope, true).diagnostics == {} {
      assert own.diagnostics <= AnalyzeAllInitializers(c, scope, true).diagnostics;
      assert received.diagnostics <= AnalyzeAllInitializers(c, scope, true).diagnostics;
    }
  }

  /** A tracked final either has an initializer or is blank. */
  lemma {:induction false} TrackedAreInitializedOrBlank(scope: Scope, fromTrait: bool, ctx: Context, ms: seq<Member>,
                                                        f: Facts, v: Variable)
    requires ctx.scope == scope && v in Tracked(scope, fromTrait, ms) && v in ctx.finals
    ensures v in AnalyzeInitializers(ctx, ms, f).facts.definite || v in Blank(ctx, ms)
    decreases ms
  {
    var f' := if IsInitialized(scope, ms[0]) then f.Assign({ms[0].variable} * ctx.finals) else f;
    InitializersOnlyAdd(ctx, ms[1..], f');
    if Tracks(scope, fromTrait, ms[0]) && ms[0].variable == v {
      assert ms[0].initializer.None? ==> v in Blank(ctx, ms);
    } else {
      TrackedAreInitializedOrBlank(scope, fromTrait, ctx, ms[1..], f', v);
      assert forall i :: 0 <= i < |ms[1..]| ==> ms[1..][i] == ms[i + 1];
    }
  }

  lemma {:induction false} InitializersOnlyAdd(ctx: Context, ms: seq<Member>, f: Facts)
    ensures f.definite <= AnalyzeInitializers(ctx, ms, f).facts.definite
    decreases ms
  {
    if ms != [] {
      InitializersOnlyAdd(ctx, ms[1..], if IsInitialized(ctx.scope, ms[0]) then f.Assign({ms[0].variable} * ctx.finals)
                                        else f);
    }
  }

  lemma FinalsAreInitializedOrBlank(c: ClassNode, scope: Scope, v: Variable)
    requires v in Finals(c, scope)
    ensures v in AnalyzeAllInitializers(c, scope, true).facts.definite || v in BlankFinals(c, scope)
  {
    var own, received := ContextOf(c, scope, false, true), ContextOf(c, scope, true, true);
    var f := Facts({}, {}, true);
    var afterOwn := AnalyzeInitializers(own, c.members, f).facts;
    if v in Tracked(scope, false, c.members) {
      TrackedAreInitializedOrBlank(scope, false, own, c.members, f, v);
      InitializersOnlyAdd(received, FlattenedMembers(c), afterOwn);
    } else {
      TrackedAreInitializedOrBlank(scope, true, received, FlattenedMembers(c), afterOwn, v);
      assert Blank(received, FlattenedMembers(c)) == Blank(own, FlattenedMembers(c));
    }
  }

  lemma BlanksAreFinals(c: ClassNode, scope: Scope)
    ensures BlankFinals(c, scope) <= Finals(c, scope)
  {
  }

  /** Every declaration is a node of its own. */
  ghost predicate DistinctNodes(c: ClassNode) {
    var ms := c.members + FlattenedMembers(c);
    forall i, j :: 0 <= i < |ms| && 0 <= j < |ms| && ms[i].VariableMember? && ms[j].VariableMember? ==>
                   (ms[i].variable == ms[j].variable ==> i == j)
  }

  lemma {:induction false} OnlyInitializersWrite(ctx: Context, ms: seq<Member>, f: Facts, v: Variable)
    requires forall i :: 0 <= i < |ms| && ms[i].VariableMember? && ms[i].variable == v ==> ms[i].initializer.None?
    ensures v in AnalyzeInitializers(ctx, ms, f).facts.definite ==> v in f.definite
    decreases ms
  {
    if ms != [] {
      OnlyInitializersWrite(ctx, ms[1..], if IsInitialized(ctx.scope, ms[0])
                                            then f.Assign({ms[0].variable} * ctx.finals) else f, v);
    }
  }

  lemma BlanksAreUnwritten(c: ClassNode, scope: Scope, v: Variable)
    requires DistinctNodes(c) && v in BlankFinals(c, scope)
    ensures v !in AnalyzeAllInitializers(c, scope, true).facts.definite
  {
    var own, received := c.members, FlattenedMembers(c);
    var ms := own + received;
    var k: nat;
    if i :| 0 <= i < |own| && own[i].VariableMember? && own[i].variable == v && own[i].initializer.None? {
      k := i;
    } else {
      var i :| 0 <= i < |received| && received[i].VariableMember? && received[i].variable == v
        && received[i].initializer.None?;
      k := |own| + i;
    }
    assert ms[k].VariableMember? && ms[k].variable == v && ms[k].initializer.None?;
    forall i | 0 <= i < |own| && own[i].VariableMember? && own[i].variable == v
      ensures own[i].initializer.None?
    {
      assert ms[i] == own[i];
    }
    forall i | 0 <= i < |received| && received[i].VariableMember? && received[i].variable == v
      ensures received[i].initializer.None?
    {
      assert ms[|own| + i] == received[i];
    }
    OnlyInitializersWrite(ContextOf(c, scope, false, true), own, Facts({}, {}, true), v);
    OnlyInitializersWrite(ContextOf(c, scope, true, true), received,
                          AnalyzeInitializers(ContextOf(c, scope, false, true), own, Facts({}, {}, true)).facts, v);
  }

  /** For every class accepted by a check that follows late accesses, and every
      construction: no tracked final is read before it is written, and if the
      initializing function returns or falls through, every one of them has been
      written.  Loops may be of any kind. */
  lemma ConstructionAssignsEveryFinal(c: ClassNode, scope: Scope, k: Construction)
    requires scope != LocalScope && Finals(c, scope) != {} && AnalyzeConstruction(c, scope, true) == {}
    ensures var r := RunConstruction(c, scope, k);
            NeverUnassigned(r.faults) && (r.outcome in {Next, Returned} ==> Finals(c, scope) <= r.written)
  {
    var initialized := AnalyzeAllInitializers(c, scope, true);
    AllInitializersAreExact(c, scope, k);
    forall v | v in Finals(c, scope)
      ensures v in initialized.facts.definite || v in BlankFinals(c, scope)
    {
      FinalsAreInitializedOrBlank(c, scope, v);
    }
    assert initialized.diagnostics <= AnalyzeConstruction(c, scope, true);
    match InitOf(c, scope)
    case None =>
      assert forall v :: v in BlankFinals(c, scope) ==> NeverAssigned(v) in AnalyzeConstruction(c, scope, true);
    case Some(init) =>
      var ctx := InitContext(c, scope, true);
      var body := AnalyzeSuite(ctx, init.body, initialized.facts);
      var run := RunAllInitializers(c, scope, k);
      assert Unassigned(ReadsOfAll(ctx, init.parameterDefaults), run.written) <= AnalyzeConstruction(c, scope, true);
      assert body.diagnostics <= AnalyzeConstruction(c, scope, true);
      assert Missing(BlankFinals(c, scope), body.facts) <= AnalyzeConstruction(c, scope, true);
      DefaultsReadOnly(ctx, init.parameterDefaults, k.defaults);
      KnownReadsAreSafe(DefaultsRead(ctx, init.parameterDefaults, k.defaults), ReadsOfAll(ctx, init.parameterDefaults),
                        run.written, run.written);
      MemberSuitesAreScoped(ctx, init.body);
      SuiteIsSafe(ctx, init.body, initialized.facts, k.body, run.written);
      assert body.facts.reachable ==>
          forall v :: v in BlankFinals(c, scope) && v !in body.facts.definite ==>
            NeverAssigned(v) in Missing(BlankFinals(c, scope), body.facts);
      var executed := ExecSuite(ctx, init.body, k.body, run.written);
      ReturnsLeaveNothingUnwritten(ctx, init.body, k.body, run.written);
      assert ctx.finals == Finals(c, scope);
  }

  /** A run that returns without a fault has written every tracked final. */
  lemma {:induction false} ReturnsLeaveNothingUnwritten(ctx: Context, ss: seq<Stmt>, paths: seq<Path>,
                                                        written: set<Variable>)
    requires ctx.scope != LocalScope
    ensures var r := ExecSuite(ctx, ss, paths, written);
            r.outcome == Returned ==> forall v :: v in ctx.finals && v !in r.written ==> ReturnedWithout(v) in r.faults
    decreases ss, 1, 0
  {
    if ss != [] && paths != [] {
      StatementReturnsLeaveNothingUnwritten(ctx, ss[0], paths[0], written);
      ReturnsLeaveNothingUnwritten(ctx, ss[1..], paths[1..], Exec(ctx, ss[0], paths[0], written).written);
    }
  }

  lemma {:induction false} StatementReturnsLeaveNothingUnwritten(ctx: Context, s: Stmt, path: Path,
                                                                 written: set<Variable>)
    requires ctx.scope != LocalScope
    ensures var r := Exec(ctx, s, path, written);
            r.outcome == Returned ==> forall v :: v in ctx.finals && v !in r.written ==> ReturnedWithout(v) in r.faults
    decreases s, 1, 0
  {
    match s
    case If(_, trueBlock, falseBlock) =>
      if path.Branching? {
        ReturnsLeaveNothingUnwritten(ctx, if path.taken then trueBlock else falseBlock, path.body, written);
      }
    case For(_, loop) =>
      if path.Looping? { LoopReturnsLeaveNothingUnwritten(ctx, Literal, loop, path.rounds, written); }
    case While(condition, loop) =>
      if path.Looping? { LoopReturnsLeaveNothingUnwritten(ctx, condition, loop, path.rounds, written); }
    case Match(_, branches) =>
      if path.Matching? { BranchReturnsLeaveNothingUnwritten(ctx, branches, path.arms, written); }
    case Suite(statements) => if path.Branching? { ReturnsLeaveNothingUnwritten(ctx, statements, path.body, written); }
    case _ =>
  }

  lemma {:induction false} LoopReturnsLeaveNothingUnwritten(ctx: Context, test: Expr, loop: seq<Stmt>,
                                                            rounds: seq<Round>, written: set<Variable>)
    requires ctx.scope != LocalScope
    ensures var r := ExecLoop(ctx, test, loop, rounds, written);
            r.outcome == Returned ==> forall v :: v in ctx.finals && v !in r.written ==> ReturnedWithout(v) in r.faults
    decreases loop, 2, |rounds|
  {
    if rounds != [] {
      ReturnsLeaveNothingUnwritten(ctx, loop, rounds[0].body, written);
      LoopReturnsLeaveNothingUnwritten(ctx, test, loop, rounds[1..],
                                       ExecSuite(ctx, loop, rounds[0].body, written).written);
    }
  }

  lemma {:induction false} BranchReturnsLeaveNothingUnwritten(ctx: Context, bs: seq<Branch>, arms: seq<Arm>,
                                                              written: set<Variable>)
    requires ctx.scope != LocalScope
    ensures var r := ExecBranches(ctx, bs, arms, written);
            r.outcome == Returned ==> forall v :: v in ctx.finals && v !in r.written ==> ReturnedWithout(v) in r.faults
    decreases bs, 1, 0
  {
    if bs != [] && arms != [] {
      ReturnsLeaveNothingUnwritten(ctx, bs[0].block, arms[0].body, written);
      BranchReturnsLeaveNothingUnwritten(ctx, bs[1..], arms[1..], written);
    }
  }

  ghost predicate ConstructionNeverFaults(c: ClassNode, scope: Scope) {
    forall k :: RunConstruction(c, scope, k).faults == {}
  }

  /** When the loops of the initializing function write no tracked final, a check
      that followed late accesses would accept the class if and only if the run
      that construction starts never reads a final too early, writes one twice,
      or ends with one unwritten. */
  lemma ConstructionIsExact(c: ClassNode, scope: Scope)
    requires scope != LocalScope && Finals(c, scope) != {} && DistinctNodes(c)
    requires InitOf(c, scope).Some? ==> QuietSuite(InitContext(c, scope, true), InitOf(c, scope).value.body)
    ensures AnalyzeConstruction(c, scope, true) == {} <==> ConstructionNeverFaults(c, scope)
  {
    if AnalyzeConstruction(c, scope, true) == {} {
      forall k
        ensures RunConstruction(c, scope, k).faults == {}
      {
        AcceptedConstructionIsClean(c, scope, k);
      }
    } else {
      var k := RejectedConstructionFaults(c, scope);
      assert RunConstruction(c, scope, k).faults != {};
    }
  }

  /** The only faults left are second writes in the initializing function. */
  lemma OnlySecondWritesAreLeft(c: ClassNode, scope: Scope, k: Construction)
    requires scope != LocalScope && Finals(c, scope) != {} && AnalyzeConstruction(c, scope, true) == {}
             && InitOf(c, scope).Some?
    ensures var r := RunConstruction(c, scope, k);
            var body := ExecSuite(InitContext(c, scope, true), InitOf(c, scope).value.body, k.body,
                                  AnalyzeAllInitializers(c, scope, true).facts.definite);
            NeverUnassigned(r.faults) && forall v :: WrittenTwice(v) in r.faults <==> WrittenTwice(v) in body.faults
  {
    assert AnalyzeAllInitializers(c, scope, true).diagnostics <= AnalyzeConstruction(c, scope, true);
    ConstructionAssignsEveryFinal(c, scope, k);
    AllInitializersAreExact(c, scope, k);
  }

  /** With loops of any kind, such a class constructs its finals exactly once if
      and only if `Flow` finds no second write in the initializing function. */
  lemma AcceptedConstructionWithLoops(c: ClassNode, scope: Scope)
    requires scope != LocalScope && Finals(c, scope) != {} && AnalyzeConstruction(c, scope, true) == {}
             && InitOf(c, scope).Some?
    ensures ConstructionNeverFaults(c, scope) <==>
            FlowSuite(InitContext(c, scope, true), InitOf(c, scope).value.body,
                      AnalyzeAllInitializers(c, scope, true).facts.definite).twice == {}
  {
    var body, ctx := InitOf(c, scope).value.body, InitContext(c, scope, true);
    var written := AnalyzeAllInitializers(c, scope, true).facts.definite;
    MemberSuitesAreScoped(ctx, body);
    MemberLoopsDeclareNothing(ctx, body);
    WritesOnceIffFlowSaysSo(ctx, body, written);
    if FlowSuite(ctx, body, written).twice == {} {
      forall k
        ensures RunConstruction(c, scope, k).faults == {}
      {
        OnlySecondWritesAreLeft(c, scope, k);
        NothingIsLeft(RunConstruction(c, scope, k).faults);
      }
    } else {
      var paths, v :| WrittenTwice(v) in ExecSuite(ctx, body, paths, written).faults;
      var k := Construction([], [], Eval(false, []), paths);
      OnlySecondWritesAreLeft(c, scope, k);
      assert RunConstruction(c, scope, k).faults != {};
    }
  }

  lemma NothingIsLeft(faults: set<Fault>)
    requires NeverUnassigned(faults) && forall v :: WrittenTwice(v) !in faults
    ensures faults == {}
  {
    assert forall x :: x in faults ==> x == WrittenTwice(x.variable);
  }

  lemma AcceptedConstructionIsClean(c: ClassNode, scope: Scope, k: Construction)
    requires scope != LocalScope && Finals(c, scope) != {} && AnalyzeConstruction(c, scope, true) == {}
    requires InitOf(c, scope).Some? ==> QuietSuite(InitContext(c, scope, true), InitOf(c, scope).value.body)
    ensures RunConstruction(c, scope, k).faults == {}
  {
    var r := RunConstruction(c, scope, k);
    ConstructionAssignsEveryFinal(c, scope, k);
    AllInitializersAreExact(c, scope, k);
    var initialized := AnalyzeAllInitializers(c, scope, true);
    assert initialized.diagnostics <= AnalyzeConstruction(c, scope, true);
    if InitOf(c, scope).Some? {
      var init, ctx := InitOf(c, scope).value, InitContext(c, scope, true);
      assert AnalyzeSuite(ctx, init.body, initialized.facts).diagnostics <= AnalyzeConstruction(c, scope, true);
      MemberSuitesAreScoped(ctx, init.body);
      RunsOfAcceptedSuiteAreClean(ctx, init.body, initialized.facts, k.body);
    }
    assert forall x :: x in r.faults ==> x == WrittenTwice(x.variable);
    assert forall v :: WrittenTwice(v) !in r.faults;
  }

  lemma RejectedConstructionFaults(c: ClassNode, scope: Scope) returns (k: Construction)
    requires scope != LocalScope && AnalyzeConstruction(c, scope, true) != {} && DistinctNodes(c)
    requires InitOf(c, scope).Some? ==> QuietSuite(InitContext(c, scope, true), InitOf(c, scope).value.body)
    ensures RunConstruction(c, scope, k).faults != {}
  {
    k := Construction([], [], Eval(false, []), []);
    AllInitializersAreExact(c, scope, k);
    BlanksAreFinals(c, scope);
    var initialized := AnalyzeAllInitializers(c, scope, true);
    var f := initialized.facts;
    if initialized.diagnostics != {} {
      k := RejectedInitializersFault(c, scope);
    } else if InitOf(c, scope).None? {
      var d :| d in AnalyzeConstruction(c, scope, true);
      BlanksAreUnwritten(c, scope, d.variable);
      assert ReturnedWithout(d.variable) in RunConstruction(c, scope, k).faults;
    } else {
      var init, ctx := InitOf(c, scope).value, InitContext(c, scope, true);
      MemberSuitesAreScoped(ctx, init.body);
      var body := AnalyzeSuite(ctx, init.body, f);
      assert f == Facts(f.definite, f.definite, true);
      if d :| d in Unassigned(ReadsOfAll(ctx, init.parameterDefaults), f.definite) {
        var ev := EveryDefaultReadHappens(ctx, init.parameterDefaults, d.variable);
        k := k.(defaults := ev);
        AllInitializersAreExact(c, scope, k);
        assert ReadUnassigned(d.variable) in RunConstruction(c, scope, k).faults;
      } else if body.diagnostics != {} {
        AcceptedIffNoRunFaults(ctx, init.body, f.definite);
        var paths :| ExecSuite(ctx, init.body, paths, f.definite).faults != {};
        k := k.(body := paths);
        AllInitializersAreExact(c, scope, k);
        assert ExecSuite(ctx, init.body, paths, f.definite).faults <= RunConstruction(c, scope, k).faults;
      } else {
        var d :| d in Missing(BlankFinals(c, scope), body.facts);
        DefiniteIsExact(ctx, init.body, f.definite, d.variable);
        var paths :| ExecSuite(ctx, init.body, paths, f.definite).outcome == Next
                     && d.variable !in ExecSuite(ctx, init.body, paths, f.definite).written;
        k := k.(body := paths);
        AllInitializersAreExact(c, scope, k);
        assert ReturnedWithout(d.variable) in RunConstruction(c, scope, k).faults;
      }
    }
  }

  lemma RejectedInitializersFault(c: ClassNode, scope: Scope) returns (k: Construction)
    requires AnalyzeAllInitializers(c, scope, true).diagnostics != {}
    ensures RunConstruction(c, scope, k).faults != {}
  {
    k := Construction([], [], Eval(false, []), []);
    var own := AnalyzeInitializers(ContextOf(c, scope, false, true), c.members, Facts({}, {}, true));
    if own.diagnostics != {} {
      var evs := RejectedInitializerFaults(ContextOf(c, scope, false, true), c.members, Facts({}, {}, true));
      k := k.(own := evs);
      var x :| x in RunInitializers(ContextOf(c, scope, false, true), c.members, evs, {}).faults;
      assert x in RunAllInitializers(c, scope, k).faults;
    } else {
      InitializersAreExact(ContextOf(c, scope, false, true), c.members, Facts({}, {}, true), []);
      var evs := RejectedInitializerFaults(ContextOf(c, scope, true, true), FlattenedMembers(c), own.facts);
      k := k.(received := evs);
      var x :| x in RunInitializers(ContextOf(c, scope, true, true), FlattenedMembers(c), evs,
                                    own.facts.definite).faults;
      assert x in RunAllInitializers(c, scope, k).faults;
    }
    assert RunAllInitializers(c, scope, k).faults <= RunConstruction(c, scope, k).faults;
  }

  // ---------------------------------------------------------------------------
  // The check of the source, which does not follow late accesses.
  // ---------------------------------------------------------------------------

  predicate NothingLateInInitializers(ctx: Context, ms: seq<Member>) {
    ms == [] ||
    ((IsInitialized(ctx.scope, ms[0]) ==> NothingLate(ctx, ms[0].initializer.value))
     && NothingLateInInitializers(ctx, ms[1..]))
  }

  /** Initializers, parameter defaults and the initializing function have no
      access that finds a tracked final only at run time. */
  predicate NothingLateInConstruction(c: ClassNode, scope: Scope) {
    && NothingLateInInitializers(ContextOf(c, scope, false, false), c.members)
    && NothingLateInInitializers(ContextOf(c, scope, true, false), FlattenedMembers(c))
    && match InitOf(c, scope)
       case None => true
       case Some(init) =>
         var ctx := InitContext(c, scope, false);
         NothingLateInAll(ctx, init.parameterDefaults) && NothingLateInSuite(ctx, init.body)
  }

  lemma {:induction false} InitializersWiden(ctx: Context, ms: seq<Member>, f: Facts)
    requires !ctx.late
    ensures var r, wide := AnalyzeInitializers(ctx, ms, f), AnalyzeInitializers(Running(ctx), ms, f);
            && r.facts == wide.facts && (wide.diagnostics == {} ==> r.diagnostics == {})
            && (NothingLateInInitializers(ctx, ms) ==> r == wide)
    decreases ms
  {
    if ms != [] {
      if IsInitialized(ctx.scope, ms[0]) {
        ReadsWiden(ctx, ms[0].initializer.value);
        InitializersWiden(ctx, ms[1..], f.Assign({ms[0].variable} * ctx.finals));
      } else {
        InitializersWiden(ctx, ms[1..], f);
      }
    }
  }

  lemma AllInitializersWiden(c: ClassNode, scope: Scope)
    ensures var r, wide := AnalyzeAllInitializers(c, scope, false), AnalyzeAllInitializers(c, scope, true);
            && r.facts == wide.facts && (wide.diagnostics == {} ==> r.diagnostics == {})
            && (NothingLateInConstruction(c, scope) ==> r == wide)
  {
    var own, received := ContextOf(c, scope, false, false), ContextOf(c, scope, true, false);
    var start := Facts({}, {}, true);
    InitializersWiden(own, c.members, start);
    InitializersWiden(received, FlattenedMembers(c), AnalyzeInitializers(own, c.members, start).facts);
  }

  /** The initializing function names no tracked final on `self` to assign it. */
  predicate NothingNamedInConstruction(c: ClassNode, scope: Scope) {
    InitOf(c, scope).Some? ==> NothingNamedInSuite(InitContext(c, scope, false), InitOf(c, scope).value.body)
  }

  lemma ConstructionWidens(c: ClassNode, scope: Scope)
    requires NothingNamedInConstruction(c, scope)
    ensures AnalyzeConstruction(c, scope, true) == {} ==> AnalyzeConstruction(c, scope, false) == {}
    ensures NothingLateInConstruction(c, scope) ==>
            AnalyzeConstruction(c, scope, false) == AnalyzeConstruction(c, scope, true)
  {
    AllInitializersWiden(c, scope);
    if InitOf(c, scope).Some? {
      var init, ctx := InitOf(c, scope).value, InitContext(c, scope, false);
      var f := AnalyzeAllInitializers(c, scope, false).facts;
      ReadsOfAllWiden(ctx, init.parameterDefaults);
      SuiteWidens(ctx, init.body, f, f);
    }
  }

  lemma NothingLateInConstructionIsNamed(c: ClassNode, scope: Scope)
    requires NothingLateInConstruction(c, scope)
    ensures NothingNamedInConstruction(c, scope)
  {
    if InitOf(c, scope).Some? {
      NothingLateIsNamedInSuite(InitContext(c, scope, false), InitOf(c, scope).value.body);
    }
  }

  /** What the check of construction is worth.  No construction of a class goes
      wrong exactly if a check that followed late accesses would accept it.  A
      rejected class has a construction that goes wrong, unless it names finals
      on `self`, and where nothing is late the check is exact. */
  lemma CheckedConstructionRunsWell(c: ClassNode, scope: Scope)
    requires scope != LocalScope && Finals(c, scope) != {} && DistinctNodes(c)
    requires InitOf(c, scope).Some? ==> QuietSuite(InitContext(c, scope, true), InitOf(c, scope).value.body)
    ensures var accepted := AnalyzeConstruction(c, scope, false) == {};
            && (ConstructionNeverFaults(c, scope) <==> AnalyzeConstruction(c, scope, true) == {})
            && (!accepted && NothingNamedInConstruction(c, scope) ==> !ConstructionNeverFaults(c, scope))
            && (NothingLateInConstruction(c, scope) ==> (accepted <==> ConstructionNeverFaults(c, scope)))
  {
    ConstructionIsExact(c, scope);
    if NothingLateInConstruction(c, scope) {
      NothingLateInConstructionIsNamed(c, scope);
    }
    if NothingNamedInConstruction(c, scope) {
      ConstructionWidens(c, scope);
    }
  }
}
