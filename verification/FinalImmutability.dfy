/** When are the finals of a class written exactly once in the life of an object?
    Every call around and after construction counts: of methods, accessors and
    lambdas, with flattened bodies, and of the initializing function again. */
module FinalImmutability {
  import opened Options
  import opened Syntax
  import opened FinalResolution
  import opened DefiniteAssignment
  import opened WriteOnce
  import opened AssignmentExactness
  import opened Effects
  import opened FinalWrites
  import opened FinalStores
  import opened FinalMembers
  import opened FinalConstruction

  function DefaultsOf(ctx: Context, es: seq<Expr>): set<Callable> {
    set i | 0 <= i < |es| :: Callable(ctx, [Evaluate(es[i])], false)
  }

  function CallablesOfFunction(ctx: Context, f: Function, constructing: bool): set<Callable> {
    {Callable(ctx, f.body, constructing)} + DefaultsOf(ctx, f.parameterDefaults)
  }

  /** What can run because the class has the member `m`: bodies, the parameter
      defaults that calls evaluate, and the initializer.  The initializing
      function is run by construction. */
  function CallablesOfMember(ctx: Context, m: Member, init: Option<Function>): set<Callable> {
    match m
    case FunctionMember(f) => CallablesOfFunction(ctx, f, init == Some(f))
    case VariableMember(_, initializer, property, _) =>
      (if initializer.Some? then {Callable(ctx, [Evaluate(initializer.value)], false)} else {}) +
      (if property.InlineProperty? then {Callable(ctx, property.getter, false), Callable(ctx, property.setter, false)}
       else {})
    case EnumMember(_, functions) =>
      if ctx.inFlattenedTrait then {}
      else set i, c | 0 <= i < |functions| && c in CallablesOfFunction(ctx, functions[i], false) :: c
    case _ => {}
  }

  function CallablesOf(ctx: Context, ms: seq<Member>, init: Option<Function>): set<Callable> {
    set i, c | 0 <= i < |ms| && c in CallablesOfMember(ctx, ms[i], init) :: c
  }

  function Callables(c: ClassNode, scope: Scope): set<Callable> {
    CallablesOf(ContextOf(c, scope, false, false), c.members, InitOf(c, scope)) +
    CallablesOf(ContextOf(c, scope, true, false), FlattenedMembers(c), InitOf(c, scope))
  }

  /** Whoever can name the initializing function can call it once more. */
  function InitializerOf(c: ClassNode, scope: Scope): Initializer {
    Initializer(InitName(scope),
                if InitOf(c, scope).None? then None
                else Some(Callable(InitContext(c, scope, false), InitOf(c, scope).value.body, false)))
  }

  /** No call but the one of construction ever writes a final, and construction
      itself writes only the finals of the object. */
  ghost predicate Immutable(c: ClassNode, scope: Scope) {
    NeverWritten(Callables(c, scope), InitializerOf(c, scope))
  }

  // ---------------------------------------------------------------------------
  // What the scan of the source has seen.
  // ---------------------------------------------------------------------------

  predicate FunctionInSight(f: Function) {
    SuiteInSight(f.body) && NoLambdaInAll(f.parameterDefaults)
  }

  /** The scan reaches every lambda of the member: none stands below a node at
      which it stops, in a match pattern or in a parameter default. */
  predicate MemberInSight(m: Member) {
    match m
    case FunctionMember(f) => FunctionInSight(f)
    case VariableMember(_, initializer, property, _) =>
      OptionalInSight(initializer) &&
      (property.InlineProperty? ==> SuiteInSight(property.getter) && SuiteInSight(property.setter))
    case EnumMember(_, functions) => forall i :: 0 <= i < |functions| ==> FunctionInSight(functions[i])
    case _ => true
  }

  predicate MembersInSight(ms: seq<Member>) {
    forall i :: 0 <= i < |ms| ==> MemberInSight(ms[i])
  }

  lemma ScanOfExpression(ctx: Context, e: Expr, look: Look)
    ensures ScanOf(Callable(ctx, [Evaluate(e)], false), look) == Scan(ctx, e, false, look)
  {
    var body := [Evaluate(e)];
    assert ScanSuite(ctx, body[1..], false, look) == {};
    assert ScanStatement(ctx, body[0], false, look) == Scan(ctx, e, false, look);
  }

  lemma {:induction false} DefaultsAreClean(ctx: Context, es: seq<Expr>, i: nat)
    requires i < |es| && NoLambdaInAll(es)
    ensures Scan(ctx, es[i], false, RESOLVED) == {}
    decreases es
  {
    if i > 0 {
      DefaultsAreClean(ctx, es[1..], i - 1);
    } else {
      NothingFoundWithoutLambda(ctx, es[0], false);
    }
  }

  lemma FunctionIsScanned(ctx: Context, f: Function, constructing: bool, callable: Callable)
    requires FunctionInSight(f) && callable in CallablesOfFunction(ctx, f, constructing)
    ensures ScanOf(callable, RESOLVED) <= ScanSuite(ctx, f.body, constructing, AsSource)
  {
    ScanSeesSuiteInSight(ctx, f.body, constructing);
    if callable in DefaultsOf(ctx, f.parameterDefaults) {
      var i :| 0 <= i < |f.parameterDefaults| && callable == Callable(ctx, [Evaluate(f.parameterDefaults[i])], false);
      DefaultsAreClean(ctx, f.parameterDefaults, i);
      ScanOfExpression(ctx, f.parameterDefaults[i], RESOLVED);
    }
  }

  lemma {:induction false} ScannedFunctions(ctx: Context, fs: seq<Function>, i: nat)
    requires i < |fs|
    ensures ScanSuite(ctx, fs[i].body, false, AsSource) <= ScanFunctions(ctx, fs)
    decreases fs
  {
    if i > 0 {
      ScannedFunctions(ctx, fs[1..], i - 1);
    }
  }

  lemma {:induction false} ScannedMembers(ctx: Context, ms: seq<Member>, init: Option<Function>, i: nat)
    requires i < |ms|
    ensures ScanMember(ctx, ms[i], init) <= ScanMembers(ctx, ms, init)
    decreases ms
  {
    if i > 0 {
      ScannedMembers(ctx, ms[1..], init, i - 1);
    }
  }

  lemma MemberIsScanned(ctx: Context, m: Member, init: Option<Function>, callable: Callable)
    requires MemberInSight(m) && callable in CallablesOfMember(ctx, m, init)
    ensures ScanOf(callable, RESOLVED) <= ScanMember(ctx, m, init)
  {
    match m
    case FunctionMember(f) => FunctionIsScanned(ctx, f, init == Some(f), callable);
    case VariableMember(_, initializer, property, _) =>
      if initializer.Some? && callable == Callable(ctx, [Evaluate(initializer.value)], false) {
        ScanSeesWhatIsInSight(ctx, initializer.value, false);
        ScanOfExpression(ctx, initializer.value, RESOLVED);
      } else {
        ScanSeesSuiteInSight(ctx, callable.body, false);
      }
    case EnumMember(_, functions) =>
      var i :| 0 <= i < |functions| && callable in CallablesOfFunction(ctx, functions[i], false);
      ScannedFunctions(ctx, functions, i);
      FunctionIsScanned(ctx, functions[i], false, callable);
    case _ =>
  }

  lemma MembersAreScanned(ctx: Context, ms: seq<Member>, init: Option<Function>, callable: Callable)
    requires MembersInSight(ms) && callable in CallablesOf(ctx, ms, init)
    ensures ScanOf(callable, RESOLVED) <= ScanMembers(ctx, ms, init)
  {
    var i :| 0 <= i < |ms| && callable in CallablesOfMember(ctx, ms[i], init);
    ScannedMembers(ctx, ms, init, i);
    MemberIsScanned(ctx, ms[i], init, callable);
  }

  /** Where lambdas are in sight, the class reports whatever a scan that looks
      everywhere finds in one of its bodies. */
  lemma CallablesAreScanned(c: ClassNode, scope: Scope, callable: Callable)
    requires !c.isTrait && callable in Callables(c, scope)
    requires MembersInSight(c.members) && MembersInSight(FlattenedMembers(c))
    ensures forall v :: v in ScanOf(callable, RESOLVED) ==> IllegalWrite(v) in CheckClass(c, scope)
  {
    if callable in CallablesOf(ContextOf(c, scope, false, false), c.members, InitOf(c, scope)) {
      MembersAreScanned(ContextOf(c, scope, false, false), c.members, InitOf(c, scope), callable);
    } else {
      MembersAreScanned(ContextOf(c, scope, true, false), FlattenedMembers(c), InitOf(c, scope), callable);
    }
    assert ScanOf(callable, RESOLVED) <= IllegalWrites(c, scope);
    assert Reported(IllegalWrites(c, scope)) <= CheckClass(c, scope);
  }

  // ---------------------------------------------------------------------------
  // The main results.
  // ---------------------------------------------------------------------------

  /** Exactly when is every final immutable?  When scans that look everywhere
      find in no body an assignment to a final, an access that can write one at
      run time, or a mention of an initializing function that writes some. */
  lemma ImmutableIffCallablesAreClean(c: ClassNode, scope: Scope)
    ensures Immutable(c, scope) <==>
            forall callable :: callable in Callables(c, scope) ==> IsClean(callable, InitializerOf(c, scope))
  {
    NeverWrittenIffCallablesAreClean(Callables(c, scope), InitializerOf(c, scope));
  }

  /** The callable has no access that can write a final at run time, and does not
      name an initializing function that writes some. */
  predicate NothingLateWritten(c: ClassNode, scope: Scope, callable: Callable) {
    var init := InitializerOf(c, scope);
    ScanOf(callable, LATE) == {} && ScanOf(callable, Again(init.name, WrittenAgain(init))) == {}
  }

  /** In an accepted class whose lambdas the scan reaches, no history of calls,
      flattened bodies included, writes any final again if and only if no body
      can write one at run time or names the initializing function to that end. */
  lemma AcceptedFinalsAreImmutable(c: ClassNode, scope: Scope)
    requires !c.isTrait && CheckClass(c, scope) == {}
    requires MembersInSight(c.members) && MembersInSight(FlattenedMembers(c))
    ensures Immutable(c, scope) <==>
            forall callable :: callable in Callables(c, scope) ==> NothingLateWritten(c, scope, callable)
  {
    ImmutableIffCallablesAreClean(c, scope);
    forall callable | callable in Callables(c, scope)
      ensures ScanOf(callable, RESOLVED) == {}
    {
      CallablesAreScanned(c, scope, callable);
    }
  }

  /** An assignment to a final that some call makes, of a method, an accessor or a
      lambda, is reported unless it is the class's own final, on the object
      itself, in the body that construction runs. */
  lemma MisplacedStoreIsReported(c: ClassNode, scope: Scope, steps: seq<Step>, i: nat, assignee: Expr)
    requires scope != LocalScope && !c.isTrait && MembersInSight(c.members) && MembersInSight(FlattenedMembers(c))
    requires History(Callables(c, scope), NOBODY, steps) && i < |steps| && Stores(assignee) in Done(steps[i])
    requires TargetOf(steps[i].actor.ctx, assignee).Final?
    ensures var target := TargetOf(steps[i].actor.ctx, assignee);
            || (target.onSelf && target.variable in Finals(c, scope) && steps[i].actor.constructing)
            || IllegalWrite(target.variable) in CheckClass(c, scope)
  {
    CallsAreOfClass(c, scope, steps, i);
    if !StandsWell(steps[i].actor, assignee) {
      var callable := MisplacedStoreIsFound(Callables(c, scope), steps, i, assignee);
      CallablesAreScanned(c, scope, callable);
    }
  }

  // Conversely, a report names an assignment that some call makes.

  predicate LiveFunctions(ctx: Context, fs: seq<Function>) {
    forall i :: 0 <= i < |fs| ==> LiveSuite(ctx, fs[i].body)
  }

  predicate LiveMember(ctx: Context, m: Member) {
    match m
    case FunctionMember(f) => LiveSuite(ctx, f.body)
    case VariableMember(_, initializer, property, _) =>
      LiveOptional(ctx, initializer) &&
      (property.InlineProperty? ==> LiveSuite(ctx, property.getter) && LiveSuite(ctx, property.setter))
    case EnumMember(_, functions) => LiveFunctions(ctx, functions)
    case _ => true
  }

  /** The members have no dead code. */
  predicate LiveMembers(ctx: Context, ms: seq<Member>) {
    forall i :: 0 <= i < |ms| ==> LiveMember(ctx, ms[i])
  }

  lemma {:induction false} FoundInFunctions(ctx: Context, fs: seq<Function>, v: Variable) returns (i: nat)
    requires v in ScanFunctions(ctx, fs)
    ensures i < |fs| && v in ScanSuite(ctx, fs[i].body, false, AsSource)
    decreases fs
  {
    i := 0;
    if v !in ScanSuite(ctx, fs[0].body, false, AsSource) {
      i := FoundInFunctions(ctx, fs[1..], v);
      i := i + 1;
    }
  }

  lemma FoundInMember(ctx: Context, m: Member, init: Option<Function>, v: Variable) returns (callable: Callable)
    requires v in ScanMember(ctx, m, init) && LiveMember(ctx, m)
    ensures callable in CallablesOfMember(ctx, m, init) && v in ScanOf(callable, RESOLVED)
  {
    match m
    case FunctionMember(f) =>
      callable := Callable(ctx, f.body, init == Some(f));
      LiveSuiteScanIsReal(ctx, f.body, init == Some(f));
    case VariableMember(_, initializer, property, _) =>
      if v in ScanOptional(ctx, initializer, false, AsSource) {
        callable := Callable(ctx, [Evaluate(initializer.value)], false);
        LiveScanIsReal(ctx, initializer.value, false);
        ScanOfExpression(ctx, initializer.value, RESOLVED);
      } else if v in ScanSuite(ctx, property.getter, false, AsSource) {
        callable := Callable(ctx, property.getter, false);
        LiveSuiteScanIsReal(ctx, property.getter, false);
      } else {
        callable := Callable(ctx, property.setter, false);
        LiveSuiteScanIsReal(ctx, property.setter, false);
      }
    case EnumMember(_, functions) =>
      var i := FoundInFunctions(ctx, functions, v);
      callable := Callable(ctx, functions[i].body, false);
      LiveSuiteScanIsReal(ctx, functions[i].body, false);
      assert callable in CallablesOfFunction(ctx, functions[i], false);
    case _ => assert false;
  }

  lemma {:induction false} FoundInMembers(ctx: Context, ms: seq<Member>, init: Option<Function>, v: Variable)
    returns (callable: Callable)
    requires v in ScanMembers(ctx, ms, init) && LiveMembers(ctx, ms)
    ensures callable in CallablesOf(ctx, ms, init) && v in ScanOf(callable, RESOLVED)
    decreases ms
  {
    if v in ScanMember(ctx, ms[0], init) {
      callable := FoundInMember(ctx, ms[0], init, v);
    } else {
      callable := FoundInMembers(ctx, ms[1..], init, v);
      var i :| 0 <= i < |ms[1..]| && callable in CallablesOfMember(ctx, ms[1..][i], init);
      assert callable in CallablesOfMember(ctx, ms[i + 1], init);
    }
  }

  /** Without dead code, for every final that the class reports as assigned where it
      may not be, some calls of its bodies make such an assignment. */
  lemma ReportedStoreHappens(c: ClassNode, scope: Scope, v: Variable)
    returns (steps: seq<Step>, i: nat, assignee: Expr)
    requires scope != LocalScope && v in IllegalWrites(c, scope)
    requires LiveMembers(ContextOf(c, scope, false, false), c.members)
    requires LiveMembers(ContextOf(c, scope, true, false), FlattenedMembers(c))
    ensures History(Callables(c, scope), NOBODY, steps) && i < |steps| && Stores(assignee) in Done(steps[i])
    ensures var target := TargetOf(steps[i].actor.ctx, assignee);
            && target.Final? && target.variable == v
            && !(target.onSelf && v in Finals(c, scope) && steps[i].actor.constructing)
  {
    var own, received := ContextOf(c, scope, false, false), ContextOf(c, scope, true, false);
    var callable;
    if v in ScanMembers(own, c.members, InitOf(c, scope)) {
      callable := FoundInMembers(own, c.members, InitOf(c, scope), v);
    } else {
      callable := FoundInMembers(received, FlattenedMembers(c), InitOf(c, scope), v);
    }
    steps, i, assignee := FoundStoreIsMisplaced(callable, v);
    MoreCallablesKeepHistory({callable}, Callables(c, scope), NOBODY, steps);
    CallsAreOfClass(c, scope, steps, i);
  }

  /** So in an accepted class every assignment to a final is one that construction
      makes to a final of its own object. */
  lemma AcceptedStoresAreOwn(c: ClassNode, scope: Scope, steps: seq<Step>, i: nat, assignee: Expr)
    requires scope != LocalScope && !c.isTrait && MembersInSight(c.members) && MembersInSight(FlattenedMembers(c))
    requires CheckClass(c, scope) == {}
    requires History(Callables(c, scope), NOBODY, steps) && i < |steps| && Stores(assignee) in Done(steps[i])
    ensures var target := TargetOf(steps[i].actor.ctx, assignee);
            target.Final? ==> target.onSelf && target.variable in Finals(c, scope) && steps[i].actor.constructing
  {
    if TargetOf(steps[i].actor.ctx, assignee).Final? {
      MisplacedStoreIsReported(c, scope, steps, i, assignee);
    }
  }

  lemma {:induction false} CallsAreOfClass(c: ClassNode, scope: Scope, steps: seq<Step>, i: nat)
    requires History(Callables(c, scope), NOBODY, steps) && i < |steps|
    ensures steps[i].actor.ctx.finals == Finals(c, scope) && steps[i].actor.ctx.scope == scope
  {
    forall callable | callable in Callables(c, scope)
      ensures callable.ctx.finals == Finals(c, scope) && callable.ctx.scope == scope
    {
      if callable in CallablesOf(ContextOf(c, scope, false, false), c.members, InitOf(c, scope)) {
        CallablesUseContext(ContextOf(c, scope, false, false), c.members, InitOf(c, scope), callable);
      } else {
        CallablesUseContext(ContextOf(c, scope, true, false), FlattenedMembers(c), InitOf(c, scope), callable);
      }
    }
    CallsKeepRules(Callables(c, scope), Finals(c, scope), scope, steps, i);
  }

  lemma {:induction false} CallsKeepRules(callables: set<Callable>, finals: set<Variable>, scope: Scope,
                                          steps: seq<Step>, i: nat)
    requires forall c :: c in callables ==> c.ctx.finals == finals && c.ctx.scope == scope
    requires History(callables, NOBODY, steps) && i < |steps|
    ensures steps[i].actor.ctx.finals == finals && steps[i].actor.ctx.scope == scope
    decreases steps
  {
    if i > 0 {
      CallsKeepRules(callables + Created(steps[0], NOBODY), finals, scope, steps[1..], i - 1);
    }
  }

  lemma CallablesUseContext(ctx: Context, ms: seq<Member>, init: Option<Function>, callable: Callable)
    requires callable in CallablesOf(ctx, ms, init)
    ensures callable.ctx == ctx
  {
    var i :| 0 <= i < |ms| && callable in CallablesOfMember(ctx, ms[i], init);
    if ms[i].EnumMember? {
      var k :| 0 <= k < |ms[i].functions| && callable in CallablesOfFunction(ctx, ms[i].functions[k], false);
    }
  }

  /** In the whole life of an object each final is written exactly once:
      construction goes well in its own run, and no other call writes a final. */
  ghost predicate WrittenOnceInLife(c: ClassNode, scope: Scope) {
    ConstructionNeverFaults(c, scope) && Immutable(c, scope)
  }

  /** For a class whose `_init` has no loop that writes a tracked final. */
  lemma LifeIsExact(c: ClassNode, scope: Scope)
    requires scope != LocalScope && Finals(c, scope) != {} && DistinctNodes(c)
    requires InitOf(c, scope).Some? ==> QuietSuite(InitContext(c, scope, true), InitOf(c, scope).value.body)
    ensures WrittenOnceInLife(c, scope) <==>
            AnalyzeConstruction(c, scope, true) == {} &&
            forall callable :: callable in Callables(c, scope) ==> IsClean(callable, InitializerOf(c, scope))
  {
    ConstructionIsExact(c, scope);
    ImmutableIffCallablesAreClean(c, scope);
  }

  /** For an accepted class with loops of any kind, but without late accesses in
      construction, and with its lambdas in sight. */
  lemma AcceptedLife(c: ClassNode, scope: Scope)
    requires scope != LocalScope && Finals(c, scope) != {} && InitOf(c, scope).Some?
    requires !c.isTrait && CheckClass(c, scope) == {} && NothingLateInConstruction(c, scope)
    requires MembersInSight(c.members) && MembersInSight(FlattenedMembers(c))
    ensures WrittenOnceInLife(c, scope) <==>
            && FlowSuite(InitContext(c, scope, true), InitOf(c, scope).value.body,
                         AnalyzeAllInitializers(c, scope, true).facts.definite).twice == {}
            && forall callable :: callable in Callables(c, scope) ==> NothingLateWritten(c, scope, callable)
  {
    assert AnalyzeConstruction(c, scope, false) <= CheckClass(c, scope);
    NothingLateInConstructionIsNamed(c, scope);
    ConstructionWidens(c, scope);
    AcceptedConstructionWithLoops(c, scope);
    AcceptedFinalsAreImmutable(c, scope);
  }
}
