/** The check of final members as the source performs it: one pass after the
    other over the members of a class, on mutable analysis objects. */
module FinalCheck {
  import opened Options
  import opened Syntax
  import opened FinalResolution
  import opened DefiniteAssignment
  import opened FinalWrites
  import opened FinalMembers

  method CollectFinals(scope: Scope, fromTrait: bool, ms: seq<Member>, known: map<string, Variable>)
    returns (finals: set<Variable>, byName: map<string, Variable>, diagnostics: set<Diagnostic>)
    ensures finals == Tracked(scope, fromTrait, ms)
    ensures byName == ByName(scope, fromTrait, ms, known)
    ensures diagnostics == Malformed(scope, fromTrait, ms)
  {
    finals, byName, diagnostics := {}, known, {};
    for i := 0 to |ms|
      invariant finals + Tracked(scope, fromTrait, ms[i..]) == Tracked(scope, fromTrait, ms)
      invariant ByName(scope, fromTrait, ms[i..], byName) == ByName(scope, fromTrait, ms, known)
      invariant diagnostics + Malformed(scope, fromTrait, ms[i..]) == Malformed(scope, fromTrait, ms)
    {
      assert ms[i..][1..] == ms[i + 1..];
      var member := ms[i];
      if IsFinalOf(scope, member) {
        if !member.property.NoProperty? {
          diagnostics := diagnostics + {AccessorOnFinal(member.variable)};
        } else if IsMisplaced(scope, fromTrait, member) {
          diagnostics := diagnostics + {OnreadyOnFinal(member.variable)};
        } else {
          finals := finals + {member.variable};
          byName := byName[member.variable.name := member.variable];
        }
      }
    }
  }

  method FindInit(c: ClassNode, received: seq<Member>, scope: Scope) returns (init: Option<Function>, fromTrait: bool)
    requires received == FlattenedMembers(c)
    ensures init == InitOf(c, scope) && (init.Some? ==> fromTrait == !OwnsInit(c, scope))
  {
    init, fromTrait := None, false;
    var ms := c.members;
    for i := 0 to |ms|
      invariant LastNamed(ms, InitName(scope)) ==
                if LastNamed(ms[i..], InitName(scope)).Some? then LastNamed(ms[i..], InitName(scope)) else init
    {
      assert ms[i..][1..] == ms[i + 1..];
      if IsNamed(ms[i], InitName(scope)) {
        init := Some(ms[i].function_);
      }
    }
    for i := 0 to |received|
      invariant OwnsInit(c, scope) ==> init == LastNamed(ms, InitName(scope)) && !fromTrait
      invariant !OwnsInit(c, scope) ==>
          FirstNamed(received, InitName(scope))
          == (if init.Some? then init else FirstNamed(received[i..], InitName(scope)))
      invariant !OwnsInit(c, scope) && init.Some? ==> fromTrait
    {
      assert received[i..][1..] == received[i + 1..];
      if init.None? && IsNamed(received[i], InitName(scope)) {
        init, fromTrait := Some(received[i].function_), true;
      }
    }
  }

  method ScanEnumFunctions(scanner: Scanner, fs: seq<Function>)
    modifies scanner
    ensures scanner.illegal == old(scanner.illegal) + ScanFunctions(scanner.ctx, fs)
  {
    for k := 0 to |fs|
      invariant scanner.illegal + ScanFunctions(scanner.ctx, fs[k..])
                == old(scanner.illegal) + ScanFunctions(scanner.ctx, fs)
    {
      assert fs[k..][1..] == fs[k + 1..];
      scanner.VisitSuite(fs[k].body, false);
    }
  }

  method ScanClassMembers(ctx: Context, ms: seq<Member>, init: Option<Function>) returns (illegal: set<Variable>)
    ensures illegal == ScanMembers(ctx, ms, init)
  {
    var scanner := new Scanner(ctx);
    for i := 0 to |ms|
      invariant fresh(scanner) && scanner.ctx == ctx
      invariant scanner.illegal + ScanMembers(ctx, ms[i..], init) == ScanMembers(ctx, ms, init)
    {
      assert ms[i..][1..] == ms[i + 1..];
      match ms[i]
      case FunctionMember(f) => scanner.VisitSuite(f.body, init == Some(f));
      case EnumMember(_, functions) =>
        if !ctx.inFlattenedTrait {
          ScanEnumFunctions(scanner, functions);
        }
      case VariableMember(_, initializer, property, _) =>
        scanner.VisitOptional(initializer, false);
        if property.InlineProperty? {
          scanner.VisitSuite(property.getter, false);
          scanner.VisitSuite(property.setter, false);
        }
      case _ =>
    }
    illegal := scanner.illegal;
  }

  method CheckInitializer(analyzer: Analyzer, m: Member, state: AssignmentState) returns (blank: set<Variable>)
    requires !analyzer.ctx.late
    modifies analyzer, state
    ensures var f := old(state.Value());
            if IsInitialized(analyzer.ctx.scope, m)
            then state.Value() == f.Assign({m.variable} * analyzer.ctx.finals) &&
                 analyzer.diagnostics == old(analyzer.diagnostics)
                 + Unassigned(Reads(analyzer.ctx, m.initializer.value), f.definite)
            else state.Value() == f && analyzer.diagnostics == old(analyzer.diagnostics)
    ensures blank == if m.VariableMember? && (analyzer.ctx.scope == StaticMember ==> m.variable.isStatic)
                        && m.variable in analyzer.ctx.finals && m.initializer.None?
                     then {m.variable} else {}
  {
    blank := {};
    if m.VariableMember? && (analyzer.ctx.scope == StaticMember ==> m.variable.isStatic) {
      assert {m.variable} * analyzer.ctx.finals == if m.variable in analyzer.ctx.finals then {m.variable} else {};
      if m.initializer.Some? {
        analyzer.CheckReads(m.initializer.value, state.definite);
      }
      if m.variable in analyzer.ctx.finals {
        if m.initializer.Some? {
          state.Assign({m.variable});
        } else {
          blank := {m.variable};
        }
      }
    }
  }

  method CheckInitializers(analyzer: Analyzer, ms: seq<Member>, state: AssignmentState) returns (blanks: set<Variable>)
    requires !analyzer.ctx.late
    modifies analyzer, state
    ensures var r := AnalyzeInitializers(analyzer.ctx, ms, old(state.Value()));
            state.Value() == r.facts && analyzer.diagnostics == old(analyzer.diagnostics) + r.diagnostics
    ensures analyzer.ctx.scope != StaticMember || (forall v :: v in analyzer.ctx.finals ==> v.isStatic)
            ==> blanks == Blank(analyzer.ctx, ms)
  {
    blanks := {};
    ghost var r := AnalyzeInitializers(analyzer.ctx, ms, state.Value());
    for i := 0 to |ms|
      invariant var rest := AnalyzeInitializers(analyzer.ctx, ms[i..], state.Value());
                rest.facts == r.facts && analyzer.diagnostics + rest.diagnostics
                == old(analyzer.diagnostics) + r.diagnostics
      invariant analyzer.ctx.scope != StaticMember || (forall v :: v in analyzer.ctx.finals ==> v.isStatic)
                ==> blanks == Blank(analyzer.ctx, ms[..i])
    {
      assert ms[i..][1..] == ms[i + 1..];
      BlankOfNext(analyzer.ctx, ms, i);
      var more := CheckInitializer(analyzer, ms[i], state);
      blanks := blanks + more;
    }
    assert ms[..|ms|] == ms;
  }

  lemma BlankOfNext(ctx: Context, ms: seq<Member>, i: nat)
    requires i < |ms|
    ensures Blank(ctx, ms[..i + 1]) == Blank(ctx, ms[..i]) +
            if ms[i].VariableMember? && ms[i].variable in ctx.finals && ms[i].initializer.None? then {ms[i].variable}
            else {}
  {
    forall v | v in Blank(ctx, ms[..i + 1])
      ensures v in Blank(ctx, ms[..i]) || v == ms[i].variable
    {
      var k :| 0 <= k < i + 1 && ms[k].VariableMember? && ms[k].variable in ctx.finals && ms[k].initializer.None?
        && ms[k].variable == v;
      if k < i {
        assert ms[..i][k] == ms[k];
      }
    }
    forall v | v in Blank(ctx, ms[..i])
      ensures v in Blank(ctx, ms[..i + 1])
    {
      var k :| 0 <= k < i && ms[..i][k].VariableMember? && ms[..i][k].variable in ctx.finals
        && ms[..i][k].initializer.None? && ms[..i][k].variable == v;
      assert ms[..i + 1][k] == ms[..i][k];
    }
    assert ms[..i + 1][i] == ms[i];
  }

  lemma {:induction false} TrackedAreStatic(fromTrait: bool, ms: seq<Member>)
    ensures forall v :: v in Tracked(StaticMember, fromTrait, ms) ==> v.isStatic
    decreases ms
  {
    if ms != [] {
      TrackedAreStatic(fromTrait, ms[1..]);
    }
  }

  method CheckInit(ctx: Context, init: Function, state: AssignmentState, blanks: set<Variable>)
    returns (diagnostics: set<Diagnostic>)
    requires !ctx.late
    modifies state
    ensures var f := old(state.Value());
            var body := AnalyzeSuite(ctx, init.body, f);
            diagnostics == Unassigned(ReadsOfAll(ctx, init.parameterDefaults), f.definite) + body.diagnostics
            + Missing(blanks, body.facts)
  {
    var analyzer := new Analyzer(ctx);
    var defaults := init.parameterDefaults;
    for i := 0 to |defaults|
      invariant fresh(analyzer) && analyzer.ctx == ctx && state.Value() == old(state.Value())
      invariant analyzer.diagnostics + Unassigned(ReadsOfAll(ctx, defaults[i..]), state.definite)
             == Unassigned(ReadsOfAll(ctx, defaults), state.definite)
    {
      assert defaults[i..][1..] == defaults[i + 1..];
      analyzer.CheckReads(defaults[i], state.definite);
    }
    assert analyzer.diagnostics == Unassigned(ReadsOfAll(ctx, defaults), state.definite) by {
      assert Unassigned(ReadsOfAll(ctx, defaults[|defaults|..]), state.definite) == {};
    }
    analyzer.AnalyzeBlock(init.body, state);
    diagnostics := analyzer.diagnostics;
    if state.reachable {
      diagnostics := diagnostics + set v | v in blanks && v !in state.definite :: NeverAssigned(v);
    }
  }

  method CheckConstruction(c: ClassNode, scope: Scope, received: seq<Member>, init: Option<Function>, fromTrait: bool)
    returns (diagnostics: set<Diagnostic>)
    requires received == FlattenedMembers(c) && init == InitOf(c, scope)
    requires init.Some? ==> fromTrait == !OwnsInit(c, scope)
    ensures diagnostics == AnalyzeConstruction(c, scope, false)
  {
    if Finals(c, scope) == {} {
      return {};
    }
    TrackedAreStatic(false, c.members);
    TrackedAreStatic(true, received);
    var own := new Analyzer(ContextOf(c, scope, false, false));
    var flattened := new Analyzer(ContextOf(c, scope, true, false));
    var state := new AssignmentState(Facts({}, {}, true));
    var blanks := CheckInitializers(own, c.members, state);
    var receivedBlanks := CheckInitializers(flattened, received, state);
    assert receivedBlanks == Blank(ContextOf(c, scope, false, false), received);
    blanks := blanks + receivedBlanks;
    diagnostics := own.diagnostics + flattened.diagnostics;
    if init.Some? {
      var more := CheckInit(ContextOf(c, scope, fromTrait, false), init.value, state, blanks);
      diagnostics := diagnostics + more;
    } else {
      diagnostics := diagnostics + set v | v in blanks :: NeverAssigned(v);
    }
  }

  /** The whole check of one class and its inner classes. */
  method CheckFinalAssignments(c: ClassNode, scope: Scope) returns (diagnostics: set<Diagnostic>)
    ensures diagnostics == CheckClass(c, scope)
    decreases c
  {
    if c.isTrait {
      return {};
    }
    var received := CollectFlattenedTraitMembers(c);
    var ownFinals, ownNames, ownDiagnostics := CollectFinals(scope, false, c.members, map[]);
    var moreFinals, names, moreDiagnostics := CollectFinals(scope, true, received, ownNames);
    var nodes := FinalNodes(scope, TraitMembers(c.traits));
    var init, fromTrait := FindInit(c, received, scope);
    var ctx := Context(ownFinals + moreFinals, names, scope, false, nodes, InheritedFinals(c, scope), false);
    var illegal := ScanClassMembers(ctx, c.members, init);
    var moreIllegal := ScanClassMembers(ctx.(inFlattenedTrait := true), received, init);
    var construction := CheckConstruction(c, scope, received, init, fromTrait);
    diagnostics := ownDiagnostics + moreDiagnostics + Reported(illegal + moreIllegal) + construction;
    ghost var before := diagnostics;
    for i := 0 to |c.members|
      invariant diagnostics + CheckInner(c.members[i..], scope) == before + CheckInner(c.members, scope)
    {
      assert c.members[i..][1..] == c.members[i + 1..];
      if c.members[i].ClassMember? {
        var inner := CheckFinalAssignments(c.members[i].inner, scope);
        diagnostics := diagnostics + inner;
      }
    }
  }
}
