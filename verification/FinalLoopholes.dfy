/** Accepted classes that write a final again: through a lambda that the scan does
    not reach, through an index, in part, and by calling the initializing
    function once more, after construction or in the middle of it. */
module FinalLoopholes {
  import opened Options
  import opened Syntax
  import opened FinalResolution
  import opened DefiniteAssignment
  import opened AssignmentExactness
  import opened LateAccesses
  import opened FinalWrites
  import opened FinalMembers
  import opened FinalImmutability

  // ---------------------------------------------------------------------------
  // A class with the final `x` and some functions.
  // ---------------------------------------------------------------------------

  function Holding(initializer: Option<Expr>, functions: seq<Member>): ClassNode {
    ClassNode(false, [VariableMember(X, initializer, NoProperty, false)] + functions, None, [])
  }

  /** Functions have nothing to do with the tracking of finals. */
  ghost predicate OnlyFunctions(ms: seq<Member>) {
    && (forall i :: 0 <= i < |ms| ==> ms[i].FunctionMember?)
    && Tracked(InstanceMember, false, ms) == {} && ByName(InstanceMember, false, ms, map["x" := X]) == map["x" := X]
    && Malformed(InstanceMember, false, ms) == {} && CheckInner(ms, InstanceMember) == {}
    && forall f: Facts :: AnalyzeInitializers(MEMBERS, ms, f) == Report(f, {})
  }

  lemma OneFunctionMore(f: Function, ms: seq<Member>)
    requires OnlyFunctions(ms)
    ensures OnlyFunctions([FunctionMember(f)] + ms)
  {
    var all := [FunctionMember(f)] + ms;
    assert all[1..] == ms;
  }

  lemma Tracks(initializer: Option<Expr>, functions: seq<Member>)
    requires OnlyFunctions(functions)
    ensures var c := Holding(initializer, functions);
            && FlattenedMembers(c) == [] && ContextOf(c, InstanceMember, false, false) == MEMBERS
            && LastNamed(c.members, "_init") == LastNamed(functions, "_init")
            && (LastNamed(functions, "_init").None? ==> InitOf(c, InstanceMember) == None)
  {
    var c := Holding(initializer, functions);
    assert c.members[1..] == functions;
    assert FinalNodes(InstanceMember, []) == {};
    assert Tracked(InstanceMember, false, c.members) == {X};
    assert ByName(InstanceMember, false, c.members, map[]) == map["x" := X] by {
      assert map[]["x" := X] == map["x" := X];
    }
  }

  /** Only the check of construction is left to say something. */
  lemma OnlyConstructionMatters(initializer: Option<Expr>, functions: seq<Member>)
    requires OnlyFunctions(functions) && (initializer.None? || initializer.value == Literal)
    requires ScanMembers(MEMBERS, functions, InitOf(Holding(initializer, functions), InstanceMember)) == {}
    ensures var c := Holding(initializer, functions);
            CheckClass(c, InstanceMember) == AnalyzeConstruction(c, InstanceMember, false)
  {
    Tracks(initializer, functions);
    var c := Holding(initializer, functions);
    assert c.members[1..] == functions;
    assert Malformed(InstanceMember, false, c.members) == {} && CheckInner(c.members, InstanceMember) == {};
    assert ScanOptional(MEMBERS, initializer, false, AsSource) == {};
    assert ScanMembers(MEMBERS, c.members, InitOf(c, InstanceMember)) == {};
    assert Reported({}) == {};
  }

  function MethodNode(body: seq<Stmt>): Function {
    Function(1, "f", [], body, false)
  }

  /** `final var x = 0` and a method. */
  function WithMethod(body: seq<Stmt>): ClassNode {
    Holding(Some(Literal), [FunctionMember(MethodNode(body))])
  }

  lemma MethodIsAFunction(body: seq<Stmt>)
    ensures OnlyFunctions([FunctionMember(MethodNode(body))])
            && LastNamed([FunctionMember(MethodNode(body))], "_init") == None
  {
    OneFunctionMore(MethodNode(body), []);
    var ms := [FunctionMember(MethodNode(body))];
    assert [FunctionMember(MethodNode(body))] + [] == ms && ms[1..] == [];
    assert |MethodNode(body).name| == 1 && |"_init"| == 5;
  }

  lemma InitializedFinalIsAccepted(functions: seq<Member>)
    requires OnlyFunctions(functions) && LastNamed(functions, "_init") == None
    ensures AnalyzeConstruction(Holding(Some(Literal), functions), InstanceMember, false) == {}
  {
    Tracks(Some(Literal), functions);
    var c := Holding(Some(Literal), functions);
    assert c.members[1..] == functions;
    var start := Facts({}, {}, true);
    assert Unassigned(Reads(MEMBERS, Literal), {}) == {};
    assert AnalyzeInitializers(MEMBERS, functions, start.Assign({X} * MEMBERS.finals)).diagnostics == {};
    assert AnalyzeInitializers(MEMBERS, c.members, start).diagnostics == {};
    assert AnalyzeAllInitializers(c, InstanceMember, false).diagnostics == {};
    assert BlankFinals(c, InstanceMember) == {};
  }

  lemma MethodClassIsAccepted(body: seq<Stmt>)
    requires ScanSuite(MEMBERS, body, false, AsSource) == {}
    ensures CheckClass(WithMethod(body), InstanceMember) == {}
  {
    var functions := [FunctionMember(MethodNode(body))];
    MethodIsAFunction(body);
    Tracks(Some(Literal), functions);
    assert functions[1..] == [];
    assert ScanMembers(MEMBERS, functions, None) == {};
    OnlyConstructionMatters(Some(Literal), functions);
    InitializedFinalIsAccepted(functions);
  }

  lemma MethodIsCallable(body: seq<Stmt>)
    ensures Callable(MEMBERS, body, false) in Callables(WithMethod(body), InstanceMember)
  {
    MethodIsAFunction(body);
    Tracks(Some(Literal), [FunctionMember(MethodNode(body))]);
    var m := WithMethod(body).members[1];
    assert Callable(MEMBERS, body, false) in CallablesOfMember(MEMBERS, m, None);
  }

  // ---------------------------------------------------------------------------
  // Lambdas out of sight, and late writes.
  // ---------------------------------------------------------------------------

  const HIDDEN_LAMBDA := Operation(Cast, [Lambda([WRITE_X])])
  const HIDING := [Evaluate(HIDDEN_LAMBDA)]

  lemma HiddenLambdaIsOverlooked()
    ensures ScanSuite(MEMBERS, HIDING, false, AsSource) == {} && X in ScanSuite(MEMBERS, HIDING, false, RESOLVED)
  {
    assert Scan(MEMBERS, HIDDEN_LAMBDA, false, AsSource) == {};
    assert ScanStatement(MEMBERS, HIDING[0], false, AsSource) == {};
    assert ScanSuite(MEMBERS, HIDING[1..], false, AsSource) == {};
    assert X in ScanStatement(MEMBERS, WRITE_X, false, RESOLVED);
    assert X in ScanSuite(MEMBERS, [WRITE_X], false, RESOLVED);
    var parts := HIDDEN_LAMBDA.parts;
    assert X in Scan(MEMBERS, parts[0], false, RESOLVED);
    assert X in ScanAll(MEMBERS, parts, false, RESOLVED);
    assert X in ScanStatement(MEMBERS, HIDING[0], false, RESOLVED);
  }

  /** The scan does not look below a cast, so `(func(): x = 0) as Callable` in a
      method is accepted, and calling the lambda writes the final `x`. */
  lemma HiddenLambdaWrites()
    ensures CheckClass(WithMethod(HIDING), InstanceMember) == {}
    ensures !Immutable(WithMethod(HIDING), InstanceMember)
  {
    HiddenLambdaIsOverlooked();
    MethodClassIsAccepted(HIDING);
    MethodIsCallable(HIDING);
    ImmutableIffCallablesAreClean(WithMethod(HIDING), InstanceMember);
  }

  const INDEXING := [STORE_AGAIN]

  lemma IndexedStoreIsOverlooked()
    ensures ScanSuite(MEMBERS, INDEXING, false, AsSource) == {} && X in ScanSuite(MEMBERS, INDEXING, false, LATE)
  {
    IndexedSelf(MEMBERS);
    var parts := INDEXED_SELF.parts;
    assert parts[1..] == [Literal] && parts[1..][1..] == [];
    assert ScanAll(MEMBERS, parts[1..], false, AsSource) == {};
    assert Scan(MEMBERS, INDEXED_SELF, false, AsSource) == {};
    assert StoreFound(MEMBERS, INDEXED_SELF, false, AsSource) == {};
    assert ScanStatement(MEMBERS, STORE_AGAIN, false, AsSource) == {};
    assert ScanSuite(MEMBERS, INDEXING[1..], false, AsSource) == {};
    assert X in StoreFound(MEMBERS, INDEXED_SELF, false, LATE);
    assert X in ScanStatement(MEMBERS, INDEXING[0], false, LATE);
  }

  /** `self["x"] = 1` in a method denotes no final, and writes `x`. */
  lemma IndexedStoreWrites()
    ensures CheckClass(WithMethod(INDEXING), InstanceMember) == {}
    ensures !Immutable(WithMethod(INDEXING), InstanceMember)
  {
    IndexedStoreIsOverlooked();
    MethodClassIsAccepted(INDEXING);
    MethodIsCallable(INDEXING);
    ImmutableIffCallablesAreClean(WithMethod(INDEXING), InstanceMember);
  }

  const ALTERING := [ALTER_X]

  lemma PartStoreIsOverlooked()
    ensures ScanSuite(MEMBERS, ALTERING, false, AsSource) == {} && X in ScanSuite(MEMBERS, ALTERING, false, LATE)
  {
    PartOfX(MEMBERS);
    assert Scan(MEMBERS, X_SLOT, false, AsSource) == {} && Scan(MEMBERS, PART_OF_X, false, AsSource) == {};
    assert StoreFound(MEMBERS, PART_OF_X, false, AsSource) == {};
    assert ScanStatement(MEMBERS, ALTER_X, false, AsSource) == {};
    assert ScanSuite(MEMBERS, ALTERING[1..], false, AsSource) == {};
    assert X in StoreFound(MEMBERS, PART_OF_X, false, LATE);
    assert X in ScanStatement(MEMBERS, ALTERING[0], false, LATE);
  }

  /** `x.y = 1` in a method denotes no final, and changes the vector in `x`. */
  lemma PartStoreWrites()
    ensures CheckClass(WithMethod(ALTERING), InstanceMember) == {}
    ensures !Immutable(WithMethod(ALTERING), InstanceMember)
  {
    PartStoreIsOverlooked();
    MethodClassIsAccepted(ALTERING);
    MethodIsCallable(ALTERING);
    ImmutableIffCallablesAreClean(WithMethod(ALTERING), InstanceMember);
  }

  // ---------------------------------------------------------------------------
  // The initializing function called again.
  // ---------------------------------------------------------------------------

  const CALL_INIT := Evaluate(Operation(Call(false, DIRECT), [Identifier("_init", MemberFunction, None)]))

  function InitNode(body: seq<Stmt>): Function {
    Function(2, "_init", [], body, false)
  }

  /** `final var x`, its `_init` and a method. */
  function WithInit(init: seq<Stmt>, method_: seq<Stmt>): ClassNode {
    Holding(None, [FunctionMember(InitNode(init)), FunctionMember(MethodNode(method_))])
  }

  lemma InitClassTracks(init: seq<Stmt>, method_: seq<Stmt>)
    ensures var c := WithInit(init, method_);
            && FlattenedMembers(c) == [] && ContextOf(c, InstanceMember, false, false) == MEMBERS
            && OwnsInit(c, InstanceMember) && InitOf(c, InstanceMember) == Some(InitNode(init))
    ensures OnlyFunctions([FunctionMember(InitNode(init)), FunctionMember(MethodNode(method_))])
  {
    var last := [FunctionMember(MethodNode(method_))];
    var functions := [FunctionMember(InitNode(init)), FunctionMember(MethodNode(method_))];
    MethodIsAFunction(method_);
    OneFunctionMore(InitNode(init), last);
    assert functions == [FunctionMember(InitNode(init))] + last && functions[1..] == last;
    Tracks(None, functions);
  }

  lemma InitClassConstructs(init: seq<Stmt>, method_: seq<Stmt>)
    requires AnalyzeSuite(MEMBERS, init, Facts({}, {}, true)) == Report(Facts({X}, {X}, true), {})
    ensures AnalyzeConstruction(WithInit(init, method_), InstanceMember, false) == {}
  {
    InitClassTracks(init, method_);
    var c, start := WithInit(init, method_), Facts({}, {}, true);
    assert c.members[1..] == [FunctionMember(InitNode(init)), FunctionMember(MethodNode(method_))];
    assert AnalyzeInitializers(MEMBERS, c.members, start) == Report(start, {});
    assert AnalyzeAllInitializers(c, InstanceMember, false) == Report(start, {});
    assert BlankFinals(c, InstanceMember) <= {X};
    assert Missing(BlankFinals(c, InstanceMember), Facts({X}, {X}, true)) == {};
  }

  lemma InitClassIsAccepted(init: seq<Stmt>, method_: seq<Stmt>)
    requires ScanSuite(MEMBERS, init, true, AsSource) == {} && ScanSuite(MEMBERS, method_, false, AsSource) == {}
    requires AnalyzeSuite(MEMBERS, init, Facts({}, {}, true)) == Report(Facts({X}, {X}, true), {})
    ensures CheckClass(WithInit(init, method_), InstanceMember) == {}
  {
    InitClassTracks(init, method_);
    var functions, some := [FunctionMember(InitNode(init)), FunctionMember(MethodNode(method_))], Some(InitNode(init));
    assert functions[1..] == [FunctionMember(MethodNode(method_))] && functions[1..][1..] == [];
    assert ScanMembers(MEMBERS, functions[1..], some) == {};
    assert ScanMembers(MEMBERS, functions, some) == {};
    OnlyConstructionMatters(None, functions);
    InitClassConstructs(init, method_);
  }

  /** The name is looked for where it stands, and found. */
  lemma InitIsNamed(init: seq<Stmt>, method_: seq<Stmt>, inInit: bool)
    requires X in ScanSuite(MEMBERS, init, false, RESOLVED)
    ensures var initializer := InitializerOf(WithInit(init, method_), InstanceMember);
            X in ScanSuite(MEMBERS, [CALL_INIT], inInit, Again(initializer.name, WrittenAgain(initializer)))
  {
    InitClassTracks(init, method_);
    var initializer := InitializerOf(WithInit(init, method_), InstanceMember);
    var look := Again(initializer.name, WrittenAgain(initializer));
    assert X in WrittenAgain(initializer);
    var parts, body := CALL_INIT.e.parts, [CALL_INIT];
    assert X in Scan(MEMBERS, parts[0], inInit, look);
    assert X in ScanAll(MEMBERS, parts, inInit, look);
    assert X in ScanStatement(MEMBERS, body[0], inInit, look);
  }

  lemma BodiesAreCallable(init: seq<Stmt>, method_: seq<Stmt>)
    ensures Callable(MEMBERS, init, true) in Callables(WithInit(init, method_), InstanceMember)
    ensures Callable(MEMBERS, method_, false) in Callables(WithInit(init, method_), InstanceMember)
  {
    InitClassTracks(init, method_);
    var c := WithInit(init, method_);
    assert c.members[1] == FunctionMember(InitNode(init)) && c.members[2] == FunctionMember(MethodNode(method_));
    assert Callable(MEMBERS, init, true) in CallablesOfMember(MEMBERS, c.members[1], InitOf(c, InstanceMember));
    assert Callable(MEMBERS, method_, false) in CallablesOfMember(MEMBERS, c.members[2], InitOf(c, InstanceMember));
  }

  lemma NamingBodyIsNotClean(c: ClassNode, callable: Callable)
    requires callable in Callables(c, InstanceMember)
    requires var init := InitializerOf(c, InstanceMember); X in ScanOf(callable, Again(init.name, WrittenAgain(init)))
    ensures !Immutable(c, InstanceMember)
  {
    ImmutableIffCallablesAreClean(c, InstanceMember);
  }

  lemma WritingInit()
    ensures X in ScanSuite(MEMBERS, [WRITE_X], false, RESOLVED) && ScanSuite(MEMBERS, [WRITE_X], true, AsSource) == {}
    ensures AnalyzeStatement(MEMBERS, WRITE_X, Facts({}, {}, true)) == Report(Facts({X}, {X}, true), {})
  {
    assert [WRITE_X][1..] == [];
    assert Slot(MEMBERS, X_SLOT) == {X};
    assert X in ScanStatement(MEMBERS, WRITE_X, false, RESOLVED);
    assert ScanStatement(MEMBERS, WRITE_X, true, AsSource) == {};
    assert Facts({}, {}, true).Assign({X}) == Facts({X}, {X}, true);
  }

  lemma CallingInit()
    ensures ScanStatement(MEMBERS, CALL_INIT, false, AsSource) == {}
            && ScanStatement(MEMBERS, CALL_INIT, true, AsSource) == {}
    ensures forall f: Facts :: f.reachable ==> AnalyzeStatement(MEMBERS, CALL_INIT, f) == Report(f, {})
  {
    var parts := CALL_INIT.e.parts;
    assert parts[1..] == [];
    assert Reads(MEMBERS, parts[0]) == {};
    assert ReadsOfAll(MEMBERS, parts) == {};
    assert Reads(MEMBERS, CALL_INIT.e) == {};
    assert ScanAll(MEMBERS, parts, false, AsSource) == {} && ScanAll(MEMBERS, parts, true, AsSource) == {};
  }

  lemma CallingClassIsAccepted()
    ensures CheckClass(WithInit([WRITE_X], [CALL_INIT]), InstanceMember) == {}
  {
    WritingInit();
    CallingInit();
    assert [CALL_INIT][1..] == [] && [WRITE_X][1..] == [];
    assert ScanSuite(MEMBERS, [CALL_INIT], false, AsSource) == {};
    assert AnalyzeSuite(MEMBERS, [WRITE_X], Facts({}, {}, true)) == Report(Facts({X}, {X}, true), {});
    InitClassIsAccepted([WRITE_X], [CALL_INIT]);
  }

  /** A method may call `_init` again: the class is accepted, and the call writes
      the final once more. */
  lemma SecondInitWrites()
    ensures CheckClass(WithInit([WRITE_X], [CALL_INIT]), InstanceMember) == {}
    ensures !Immutable(WithInit([WRITE_X], [CALL_INIT]), InstanceMember)
  {
    CallingClassIsAccepted();
    WritingInit();
    var c := WithInit([WRITE_X], [CALL_INIT]);
    InitClassTracks([WRITE_X], [CALL_INIT]);
    InitIsNamed([WRITE_X], [CALL_INIT], false);
    BodiesAreCallable([WRITE_X], [CALL_INIT]);
    NamingBodyIsNotClean(c, Callable(MEMBERS, [CALL_INIT], false));
  }

  const RECURSIVE_INIT := [WRITE_X, If(Literal, [CALL_INIT], [])]

  lemma RecursiveInitIsAccepted()
    ensures CheckClass(WithInit(RECURSIVE_INIT, []), InstanceMember) == {}
    ensures X in ScanSuite(MEMBERS, RECURSIVE_INIT, false, RESOLVED)
  {
    WritingInit();
    CallingInit();
    var branch := RECURSIVE_INIT[1];
    assert RECURSIVE_INIT[1..] == [branch] && [branch][1..] == [] && [CALL_INIT][1..] == [];
    assert X in ScanStatement(MEMBERS, RECURSIVE_INIT[0], false, RESOLVED);
    assert ScanSuite(MEMBERS, [CALL_INIT], true, AsSource) == {};
    assert ScanStatement(MEMBERS, branch, true, AsSource) == {};
    assert ScanSuite(MEMBERS, [branch], true, AsSource) == {};
    assert ScanStatement(MEMBERS, WRITE_X, true, AsSource) == {};
    assert ScanSuite(MEMBERS, RECURSIVE_INIT, true, AsSource) == {};
    var after := Facts({X}, {X}, true);
    assert AnalyzeSuite(MEMBERS, [CALL_INIT], after) == Report(after, {});
    assert AnalyzeSuite(MEMBERS, [], after) == Report(after, {});
    assert Merge(after, after) == after;
    assert AnalyzeStatement(MEMBERS, branch, after) == Report(after, {});
    assert AnalyzeSuite(MEMBERS, [branch], after) == Report(after, {});
    InitClassIsAccepted(RECURSIVE_INIT, []);
  }

  lemma RecursiveInitIsNamed()
    ensures var init := InitializerOf(WithInit(RECURSIVE_INIT, []), InstanceMember);
            X in ScanSuite(MEMBERS, RECURSIVE_INIT, true, Again(init.name, WrittenAgain(init)))
  {
    RecursiveInitIsAccepted();
    InitIsNamed(RECURSIVE_INIT, [], true);
    var init := InitializerOf(WithInit(RECURSIVE_INIT, []), InstanceMember);
    var look, branch := Again(init.name, WrittenAgain(init)), RECURSIVE_INIT[1];
    assert RECURSIVE_INIT[1..] == [branch];
    assert X in ScanStatement(MEMBERS, branch, true, look);
    assert X in ScanSuite(MEMBERS, [branch], true, look);
    assert Falls(MEMBERS, RECURSIVE_INIT[0]);
  }

  /** `_init` may call itself: the class is accepted, and construction writes the
      final in a call of its own. */
  lemma ConstructionWritesAgain()
    ensures CheckClass(WithInit(RECURSIVE_INIT, []), InstanceMember) == {}
    ensures !WrittenOnceInLife(WithInit(RECURSIVE_INIT, []), InstanceMember)
  {
    RecursiveInitIsAccepted();
    RecursiveInitIsNamed();
    var c := WithInit(RECURSIVE_INIT, []);
    InitClassTracks(RECURSIVE_INIT, []);
    BodiesAreCallable(RECURSIVE_INIT, []);
    NamingBodyIsNotClean(c, Callable(MEMBERS, RECURSIVE_INIT, true));
  }
}
