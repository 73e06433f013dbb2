/** The check of the final members of a class: which finals it tracks, which
    members it receives from traits, and what it reports about construction and
    about later writes.  The checks of instance and of static finals differ in
    the scope only. */
module FinalMembers {
  import opened Options
  import opened Syntax
  import opened FinalResolution
  import opened DefiniteAssignment
  import W = FinalWrites

  datatype Function = Function(id: nat, name: string, parameterDefaults: seq<Expr>, body: seq<Stmt>, isAbstract: bool)

  datatype Property = NoProperty | InlineProperty(getter: seq<Stmt>, setter: seq<Stmt>) | NamedProperty

  /** `OtherMember` stands for constants, enum values and signals, which a trait
      hands on, and for the member kinds that it does not. */
  datatype Member =
    | VariableMember(variable: Variable, initializer: Option<Expr>, property: Property, onready: bool)
    | FunctionMember(function_: Function)
    | EnumMember(name: string, functions: seq<Function>)
    | OtherMember(name: string, flattenable: bool)
    | ClassMember(name: string, inner: ClassNode)

  datatype ClassNode = ClassNode(isTrait: bool, members: seq<Member>, base: Option<ClassNode>, traits: seq<ClassNode>)

  // ---------------------------------------------------------------------------
  // Members received from traits.
  // ---------------------------------------------------------------------------

  function NameOf(m: Member): string {
    match m
    case VariableMember(variable, _, _, _) => variable.name
    case FunctionMember(f) => f.name
    case EnumMember(name, _) => name
    case OtherMember(name, _) => name
    case ClassMember(name, _) => name
  }

  predicate IsFlattenable(m: Member) {
    match m
    case VariableMember(_, _, _, _) => true
    case FunctionMember(f) => !f.isAbstract
    case EnumMember(_, _) => true
    case OtherMember(_, flattenable) => flattenable
    case ClassMember(_, _) => false
  }

  function NamesOf(ms: seq<Member>): set<string> {
    set i | 0 <= i < |ms| && NameOf(ms[i]) != "" :: NameOf(ms[i])
  }

  /** The names declared by the class or by one of its bases. */
  function DefinedNames(c: ClassNode): set<string> {
    NamesOf(c.members) + if c.base.None? then {} else DefinedNames(c.base.value)
  }

  function TraitMembers(traits: seq<ClassNode>): seq<Member> {
    if traits == [] then [] else traits[0].members + TraitMembers(traits[1..])
  }

  predicate Received(m: Member, defined: set<string>) {
    IsFlattenable(m) && NameOf(m) != "" && NameOf(m) !in defined
  }

  function Flatten(ms: seq<Member>, defined: set<string>): seq<Member> {
    if ms == [] then []
    else if Received(ms[0], defined) then [ms[0]] + Flatten(ms[1..], defined + {NameOf(ms[0])})
    else Flatten(ms[1..], defined)
  }

  function FlattenedMembers(c: ClassNode): seq<Member> {
    Flatten(TraitMembers(c.traits), DefinedNames(c))
  }

  /** A flattened member is, of the trait members with its name that can be
      handed on, the first; its name is not declared by the class or a base. */
  predicate IsFirstOfItsName(ms: seq<Member>, defined: set<string>, i: nat)
    requires i < |ms|
  {
    Received(ms[i], defined) && forall j :: 0 <= j < i && IsFlattenable(ms[j]) ==> NameOf(ms[j]) != NameOf(ms[i])
  }

  ghost predicate AllReceived(ms: seq<Member>, defined: set<string>) {
    forall i :: 0 <= i < |ms| ==> Received(ms[i], defined)
  }

  ghost predicate NamesDiffer(ms: seq<Member>) {
    forall i, j :: 0 <= i < j < |ms| ==> NameOf(ms[i]) != NameOf(ms[j])
  }

  lemma {:induction false} FlattenedNamesDiffer(ms: seq<Member>, defined: set<string>)
    ensures AllReceived(Flatten(ms, defined), defined) && NamesDiffer(Flatten(ms, defined))
    decreases ms
  {
    if ms != [] {
      if Received(ms[0], defined) {
        var rest := Flatten(ms[1..], defined + {NameOf(ms[0])});
        FlattenedNamesDiffer(ms[1..], defined + {NameOf(ms[0])});
        assert Flatten(ms, defined) == [ms[0]] + rest;
        assert forall i :: 0 <= i < |rest| ==> Received(rest[i], defined + {NameOf(ms[0])});
      } else {
        FlattenedNamesDiffer(ms[1..], defined);
      }
    }
  }

  lemma StepOfFirstOfItsName(ms: seq<Member>, defined: set<string>, i: nat)
    requires 0 < i < |ms|
    ensures var defined' := if Received(ms[0], defined) then defined + {NameOf(ms[0])} else defined;
            IsFirstOfItsName(ms[1..], defined', i - 1) <==> IsFirstOfItsName(ms, defined, i)
  {
    assert forall j: nat :: j < i - 1 ==> ms[1..][j] == ms[j + 1];
    assert forall j: nat :: 0 < j < i ==> ms[j] == ms[1..][j - 1];
  }

  lemma {:induction false} FlattenKeepsFirstOfEachName(ms: seq<Member>, defined: set<string>, m: Member)
    ensures m in Flatten(ms, defined) <==> exists i: nat :: i < |ms| && ms[i] == m && IsFirstOfItsName(ms, defined, i)
    decreases ms
  {
    if ms != [] {
      var kept := Received(ms[0], defined);
      var defined' := if kept then defined + {NameOf(ms[0])} else defined;
      FlattenKeepsFirstOfEachName(ms[1..], defined', m);
      if m in Flatten(ms[1..], defined') {
        var i: nat :| i < |ms[1..]| && ms[1..][i] == m && IsFirstOfItsName(ms[1..], defined', i);
        StepOfFirstOfItsName(ms, defined, i + 1);
        assert ms[i + 1] == m;
      } else if kept && m == ms[0] {
        assert IsFirstOfItsName(ms, defined, 0);
      }
      if i: nat :| i < |ms| && ms[i] == m && IsFirstOfItsName(ms, defined, i) {
        if i > 0 {
          StepOfFirstOfItsName(ms, defined, i);
          assert ms[1..][i - 1] == m;
        }
      }
    }
  }

  /** The class itself, its base, the base of that, and so on. */
  function Ancestor(c: ClassNode, n: nat): Option<ClassNode> {
    if n == 0 then Some(c) else if c.base.None? then None else Ancestor(c.base.value, n - 1)
  }

  /** The class or a class that it inherits from declares a member of that name. */
  ghost predicate Declares(c: ClassNode, name: string) {
    exists n: nat, k: nat :: DeclaresAt(c, n, k, name)
  }

  predicate DeclaresAt(c: ClassNode, n: nat, k: nat, name: string) {
    var owner := Ancestor(c, n);
    owner.Some? && k < |owner.value.members| && NameOf(owner.value.members[k]) == name
  }

  lemma {:induction false} DefinedNamesAreDeclared(c: ClassNode, name: string)
    requires name != ""
    ensures name in DefinedNames(c) <==> Declares(c, name)
    decreases c
  {
    if name in NamesOf(c.members) {
      var k: nat :| k < |c.members| && NameOf(c.members[k]) == name;
      assert DeclaresAt(c, 0, k, name);
    }
    if c.base.Some? {
      DefinedNamesAreDeclared(c.base.value, name);
      if n: nat, k: nat :| DeclaresAt(c.base.value, n, k, name) {
        assert DeclaresAt(c, n + 1, k, name);
      }
    }
    if n: nat, k: nat :| DeclaresAt(c, n, k, name) {
      if n > 0 {
        assert DeclaresAt(c.base.value, n - 1, k, name);
      }
    }
  }

  /** Member `k` of the trait `t` of the class can be handed on: it is no class, no
      abstract function and no member of another kind that stays in its trait. */
  predicate CanBeHandedOn(c: ClassNode, t: nat, k: nat) {
    && t < |c.traits| && k < |c.traits[t].members|
    && var m := c.traits[t].members[k];
       !m.ClassMember? && !(m.FunctionMember? && m.function_.isAbstract) && !(m.OtherMember? && !m.flattenable)
  }

  /** No trait member that can be handed on comes earlier with the same name. */
  ghost predicate ComesFirst(c: ClassNode, t: nat, k: nat)
    requires CanBeHandedOn(c, t, k)
  {
    forall u: nat, j: nat :: CanBeHandedOn(c, u, j) && (u < t || (u == t && j < k)) ==>
      NameOf(c.traits[u].members[j]) != NameOf(c.traits[t].members[k])
  }

  /** Where member `k` of trait `t` stands when all trait members are put in a row. */
  function Position(traits: seq<ClassNode>, t: nat, k: nat): nat {
    if t == 0 || traits == [] then k else |traits[0].members| + Position(traits[1..], t - 1, k)
  }

  lemma {:induction false} PositionIsOfMember(traits: seq<ClassNode>, t: nat, k: nat)
    requires t < |traits| && k < |traits[t].members|
    ensures var i := Position(traits, t, k);
            i < |TraitMembers(traits)| && TraitMembers(traits)[i] == traits[t].members[k]
    decreases t
  {
    if t > 0 {
      PositionIsOfMember(traits[1..], t - 1, k);
    }
  }

  lemma {:induction false} MemberHasPosition(traits: seq<ClassNode>, i: nat) returns (t: nat, k: nat)
    requires i < |TraitMembers(traits)|
    ensures t < |traits| && k < |traits[t].members| && Position(traits, t, k) == i
    decreases traits
  {
    if i < |traits[0].members| {
      t, k := 0, i;
    } else {
      t, k := MemberHasPosition(traits[1..], i - |traits[0].members|);
      t := t + 1;
    }
  }

  lemma {:induction false} PositionsAreOrdered(traits: seq<ClassNode>, u: nat, j: nat, t: nat, k: nat)
    requires u < |traits| && j < |traits[u].members| && t < |traits| && k < |traits[t].members|
    ensures Position(traits, u, j) < Position(traits, t, k) <==> u < t || (u == t && j < k)
    decreases traits
  {
    if u > 0 && t > 0 {
      PositionsAreOrdered(traits[1..], u - 1, j, t - 1, k);
    }
  }

  lemma FirstInARow(c: ClassNode, t: nat, k: nat)
    requires CanBeHandedOn(c, t, k) && NameOf(c.traits[t].members[k]) != ""
    ensures var i := Position(c.traits, t, k);
            && i < |TraitMembers(c.traits)| && TraitMembers(c.traits)[i] == c.traits[t].members[k]
            && (IsFirstOfItsName(TraitMembers(c.traits), DefinedNames(c), i) <==>
                ComesFirst(c, t, k) && !Declares(c, NameOf(c.traits[t].members[k])))
  {
    var ms, m, i := TraitMembers(c.traits), c.traits[t].members[k], Position(c.traits, t, k);
    PositionIsOfMember(c.traits, t, k);
    DefinedNamesAreDeclared(c, NameOf(m));
    if ComesFirst(c, t, k) {
      forall h | 0 <= h < i && IsFlattenable(ms[h])
        ensures NameOf(ms[h]) != NameOf(m)
      {
        var u, j := MemberHasPosition(c.traits, h);
        PositionIsOfMember(c.traits, u, j);
        PositionsAreOrdered(c.traits, u, j, t, k);
        assert CanBeHandedOn(c, u, j);
      }
    } else {
      var u: nat, j: nat :| CanBeHandedOn(c, u, j) && (u < t || (u == t && j < k))
        && NameOf(c.traits[u].members[j]) == NameOf(m);
      PositionIsOfMember(c.traits, u, j);
      PositionsAreOrdered(c.traits, u, j, t, k);
      assert IsFlattenable(ms[Position(c.traits, u, j)]);
    }
  }

  /** A class receives a trait member exactly if it can be handed on, neither the
      class nor any class it inherits from declares its name, and no earlier
      member that can be handed on has that name. */
  lemma ReceivedIffFirst(c: ClassNode, m: Member)
    ensures m in FlattenedMembers(c) <==>
            exists t: nat, k: nat :: CanBeHandedOn(c, t, k) && c.traits[t].members[k] == m && NameOf(m) != ""
                           && !Declares(c, NameOf(m)) && ComesFirst(c, t, k)
  {
    var ms, defined := TraitMembers(c.traits), DefinedNames(c);
    FlattenKeepsFirstOfEachName(ms, defined, m);
    if i: nat :| i < |ms| && ms[i] == m && IsFirstOfItsName(ms, defined, i) {
      var t, k := MemberHasPosition(c.traits, i);
      PositionIsOfMember(c.traits, t, k);
      FirstInARow(c, t, k);
    }
    if t: nat, k: nat :| CanBeHandedOn(c, t, k) && c.traits[t].members[k] == m && NameOf(m) != ""
                         && !Declares(c, NameOf(m)) && ComesFirst(c, t, k) {
      FirstInARow(c, t, k);
      assert IsFirstOfItsName(ms, defined, Position(c.traits, t, k));
    }
  }

  /** Received members keep the order of the row. */
  lemma {:induction false} FlattenKeepsOrder(ms: seq<Member>, defined: set<string>, a: nat, b: nat)
    returns (i: nat, j: nat)
    requires a < b < |Flatten(ms, defined)|
    ensures i < j < |ms| && ms[i] == Flatten(ms, defined)[a] && ms[j] == Flatten(ms, defined)[b]
    decreases ms
  {
    if !Received(ms[0], defined) {
      i, j := FlattenKeepsOrder(ms[1..], defined, a, b);
      i, j := i + 1, j + 1;
    } else if a > 0 {
      i, j := FlattenKeepsOrder(ms[1..], defined + {NameOf(ms[0])}, a - 1, b - 1);
      i, j := i + 1, j + 1;
    } else {
      i := 0;
      j := FlattenedComesFrom(ms[1..], defined + {NameOf(ms[0])}, b - 1);
      j := j + 1;
    }
  }

  lemma {:induction false} FlattenedComesFrom(ms: seq<Member>, defined: set<string>, b: nat) returns (j: nat)
    requires b < |Flatten(ms, defined)|
    ensures j < |ms| && ms[j] == Flatten(ms, defined)[b]
    decreases ms
  {
    if !Received(ms[0], defined) {
      j := FlattenedComesFrom(ms[1..], defined, b);
      j := j + 1;
    } else if b > 0 {
      j := FlattenedComesFrom(ms[1..], defined + {NameOf(ms[0])}, b - 1);
      j := j + 1;
    } else {
      j := 0;
    }
  }

  /** Of two received members the first comes from an earlier trait, or from an
      earlier place in the same one. */
  lemma ReceivedInOrder(c: ClassNode, a: nat, b: nat) returns (u: nat, j: nat, t: nat, k: nat)
    requires a < b < |FlattenedMembers(c)|
    ensures u < |c.traits| && j < |c.traits[u].members| && c.traits[u].members[j] == FlattenedMembers(c)[a]
    ensures t < |c.traits| && k < |c.traits[t].members| && c.traits[t].members[k] == FlattenedMembers(c)[b]
    ensures u < t || (u == t && j < k)
  {
    var i, h := FlattenKeepsOrder(TraitMembers(c.traits), DefinedNames(c), a, b);
    u, j := MemberHasPosition(c.traits, i);
    t, k := MemberHasPosition(c.traits, h);
    PositionIsOfMember(c.traits, u, j);
    PositionIsOfMember(c.traits, t, k);
    PositionsAreOrdered(c.traits, u, j, t, k);
  }

  method CollectDefinedNames(c: ClassNode) returns (defined: set<string>)
    ensures defined == DefinedNames(c)
  {
    defined := {};
    var owner := Some(c);
    while owner.Some?
      invariant defined + (if owner.None? then {} else DefinedNames(owner.value)) == DefinedNames(c)
      decreases owner
    {
      for i := 0 to |owner.value.members|
        invariant defined + NamesOf(owner.value.members[i..])
                  + (if owner.value.base.None? then {} else DefinedNames(owner.value.base.value)) == DefinedNames(c)
      {
        var name := NameOf(owner.value.members[i]);
        NamesOfFirst(owner.value.members[i..]);
        assert owner.value.members[i..][1..] == owner.value.members[i + 1..];
        if name != "" {
          defined := defined + {name};
        }
      }
      owner := owner.value.base;
    }
  }

  method CollectFlattenedTraitMembers(c: ClassNode) returns (members: seq<Member>)
    ensures members == FlattenedMembers(c)
  {
    members := [];
    if c.traits == [] {
      return;
    }
    var defined := CollectDefinedNames(c);
    for t := 0 to |c.traits|
      invariant members + Flatten(TraitMembers(c.traits[t..]), defined) == FlattenedMembers(c)
    {
      var trait_ := c.traits[t];
      assert c.traits[t..][1..] == c.traits[t + 1..];
      ghost var later := TraitMembers(c.traits[t + 1..]);
      assert trait_.members[0..] + later == TraitMembers(c.traits[t..]);
      for i := 0 to |trait_.members|
        invariant members + Flatten(trait_.members[i..] + later, defined) == FlattenedMembers(c)
      {
        var member := trait_.members[i];
        assert (trait_.members[i..] + later)[1..] == trait_.members[i + 1..] + later;
        if IsFlattenable(member) && NameOf(member) != "" && NameOf(member) !in defined {
          defined := defined + {NameOf(member)};
          members := members + [member];
        }
      }
      assert trait_.members[|trait_.members|..] + later == later;
    }
    assert TraitMembers(c.traits[|c.traits|..]) == [];
  }

  lemma NamesOfFirst(ms: seq<Member>)
    requires ms != []
    ensures NamesOf(ms) == (if NameOf(ms[0]) != "" then {NameOf(ms[0])} else {}) + NamesOf(ms[1..])
  {
    forall name | name in NamesOf(ms[1..])
      ensures name in NamesOf(ms)
    {
      var i :| 0 <= i < |ms[1..]| && NameOf(ms[1..][i]) == name && name != "";
      assert NameOf(ms[i + 1]) == name;
    }
    forall name | name in NamesOf(ms) && name != NameOf(ms[0])
      ensures name in NamesOf(ms[1..])
    {
      var i :| 0 <= i < |ms| && NameOf(ms[i]) == name && name != "";
      assert NameOf(ms[1..][i - 1]) == name;
    }
  }

  // ---------------------------------------------------------------------------
  // The finals of a class.
  // ---------------------------------------------------------------------------

  predicate IsFinalOf(scope: Scope, m: Member) {
    m.VariableMember? && m.variable.isFinal && m.variable.isStatic == (scope == StaticMember)
  }

  /** The check of static finals does not ask whether a trait's final is onready. */
  predicate IsMisplaced(scope: Scope, fromTrait: bool, m: Member)
    requires m.VariableMember?
  {
    m.onready && !(fromTrait && scope == StaticMember)
  }

  predicate Tracks(scope: Scope, fromTrait: bool, m: Member) {
    IsFinalOf(scope, m) && m.property.NoProperty? && !IsMisplaced(scope, fromTrait, m)
  }

  function Tracked(scope: Scope, fromTrait: bool, ms: seq<Member>): set<Variable> {
    if ms == [] then {} else
    (if Tracks(scope, fromTrait, ms[0]) then {ms[0].variable} else {}) + Tracked(scope, fromTrait, ms[1..])
  }

  function ByName(scope: Scope, fromTrait: bool, ms: seq<Member>, known: map<string, Variable>): map<string, Variable> {
    if ms == [] then known else
    ByName(scope, fromTrait, ms[1..],
           if Tracks(scope, fromTrait, ms[0]) then known[ms[0].variable.name := ms[0].variable] else known)
  }

  function Malformed(scope: Scope, fromTrait: bool, ms: seq<Member>): set<Diagnostic> {
    if ms == [] then {} else
    (if !IsFinalOf(scope, ms[0]) then {}
     else if !ms[0].property.NoProperty? then {AccessorOnFinal(ms[0].variable)}
     else if IsMisplaced(scope, fromTrait, ms[0]) then {OnreadyOnFinal(ms[0].variable)}
     else {})
    + Malformed(scope, fromTrait, ms[1..])
  }

  function FinalNodes(scope: Scope, ms: seq<Member>): set<Variable> {
    set i | 0 <= i < |ms| && IsFinalOf(scope, ms[i]) :: ms[i].variable
  }

  function FinalsByName(c: ClassNode, scope: Scope): map<string, Variable> {
    ByName(scope, true, FlattenedMembers(c), ByName(scope, false, c.members, map[]))
  }

  function InheritedFinals(c: ClassNode, scope: Scope): map<string, Variable> {
    if c.base.None? then map[] else InheritedFinals(c.base.value, scope) + FinalsByName(c.base.value, scope)
  }

  /** What the checks of the class's own bodies (or of the flattened ones) track. */
  function ContextOf(c: ClassNode, scope: Scope, flattened: bool, late: bool): Context {
    var received := FlattenedMembers(c);
    Context(Tracked(scope, false, c.members) + Tracked(scope, true, received), FinalsByName(c, scope),
            scope, flattened, FinalNodes(scope, TraitMembers(c.traits)), InheritedFinals(c, scope), late)
  }

  function Finals(c: ClassNode, scope: Scope): set<Variable> {
    ContextOf(c, scope, false, false).finals
  }

  function InitName(scope: Scope): string {
    if scope == StaticMember then "_static_init" else "_init"
  }

  predicate IsNamed(m: Member, name: string) {
    m.FunctionMember? && m.function_.name == name
  }

  function LastNamed(ms: seq<Member>, name: string): Option<Function> {
    if ms == [] then None
    else if LastNamed(ms[1..], name).Some? then LastNamed(ms[1..], name)
    else if IsNamed(ms[0], name) then Some(ms[0].function_)
    else None
  }

  function FirstNamed(ms: seq<Member>, name: string): Option<Function> {
    if ms == [] then None else if IsNamed(ms[0], name) then Some(ms[0].function_) else FirstNamed(ms[1..], name)
  }

  predicate OwnsInit(c: ClassNode, scope: Scope) {
    LastNamed(c.members, InitName(scope)).Some?
  }

  /** The class's own initializing function, or else the first one from a trait. */
  function InitOf(c: ClassNode, scope: Scope): Option<Function> {
    if OwnsInit(c, scope) then LastNamed(c.members, InitName(scope))
    else FirstNamed(FlattenedMembers(c), InitName(scope))
  }

  // ---------------------------------------------------------------------------
  // Which finals are tracked, and which function initializes them.
  // ---------------------------------------------------------------------------

  /** A final that the check tracks: of the right kind, without accessors, and not
      onready, except that a static one from a trait may be. */
  predicate IsTracked(scope: Scope, fromTrait: bool, m: Member) {
    m.VariableMember? && m.variable.isFinal && (m.variable.isStatic <==> scope == StaticMember)
    && m.property.NoProperty? && (m.onready ==> fromTrait && scope == StaticMember)
  }

  lemma {:induction false} TrackedAre(scope: Scope, fromTrait: bool, ms: seq<Member>, v: Variable)
    ensures v in Tracked(scope, fromTrait, ms) <==>
            exists i :: 0 <= i < |ms| && IsTracked(scope, fromTrait, ms[i]) && ms[i].variable == v
    decreases ms
  {
    if ms != [] {
      var rest := ms[1..];
      TrackedAre(scope, fromTrait, rest, v);
      assert forall i :: 0 <= i < |rest| ==> rest[i] == ms[i + 1];
      if i :| 0 <= i < |ms| && IsTracked(scope, fromTrait, ms[i]) && ms[i].variable == v {
        assert i > 0 ==> rest[i - 1] == ms[i];
      }
    }
  }

  /** The tracked finals of a class are its own and those it receives. */
  lemma FinalsAre(c: ClassNode, scope: Scope, v: Variable)
    ensures v in Finals(c, scope) <==>
            || (exists i :: 0 <= i < |c.members| && IsTracked(scope, false, c.members[i]) && c.members[i].variable == v)
            || (exists i :: 0 <= i < |FlattenedMembers(c)| && IsTracked(scope, true, FlattenedMembers(c)[i])
                            && FlattenedMembers(c)[i].variable == v)
  {
    TrackedAre(scope, false, c.members, v);
    TrackedAre(scope, true, FlattenedMembers(c), v);
  }

  /** By name each tracked final is found that is the last of its name. */
  lemma {:induction false} NamedFinalsAre(scope: Scope, fromTrait: bool, ms: seq<Member>, known: map<string, Variable>,
                                          name: string)
    ensures var byName := ByName(scope, fromTrait, ms, known);
            if exists i :: 0 <= i < |ms| && IsTracked(scope, fromTrait, ms[i]) && ms[i].variable.name == name
            then name in byName && exists i ::
              IsLastTracked(scope, fromTrait, ms, i, name) && ms[i].variable == byName[name]
            else (name in byName <==> name in known) && (name in known ==> byName[name] == known[name])
    decreases ms
  {
    if ms != [] {
      var rest, first := ms[1..], ms[0];
      var known' := if Tracks(scope, fromTrait, first) then known[first.variable.name := first.variable] else known;
      NamedFinalsAre(scope, fromTrait, rest, known', name);
      assert forall i :: 0 <= i < |rest| ==> rest[i] == ms[i + 1];
      assert Tracks(scope, fromTrait, first) <==> IsTracked(scope, fromTrait, first);
      if i :| 0 <= i < |rest| && IsTracked(scope, fromTrait, rest[i]) && rest[i].variable.name == name {
        var k :| IsLastTracked(scope, fromTrait, rest, k, name)
                 && rest[k].variable == ByName(scope, fromTrait, ms, known)[name];
        assert ms[i + 1] == rest[i];
        LastTrackedMoves(scope, fromTrait, ms, k, name);
      } else if i :| 0 <= i < |ms| && IsTracked(scope, fromTrait, ms[i]) && ms[i].variable.name == name {
        assert i > 0 ==> rest[i - 1] == ms[i];
        assert IsLastTracked(scope, fromTrait, ms, 0, name);
      }
    }
  }

  lemma LastTrackedMoves(scope: Scope, fromTrait: bool, ms: seq<Member>, k: nat, name: string)
    requires ms != [] && IsLastTracked(scope, fromTrait, ms[1..], k, name)
    ensures IsLastTracked(scope, fromTrait, ms, k + 1, name) && ms[k + 1] == ms[1..][k]
  {
    assert forall j :: 0 < j < |ms| ==> ms[j] == ms[1..][j - 1];
  }

  /** The class `n` steps up the chain of bases has a final of that name. */
  predicate InheritsFrom(c: ClassNode, n: nat, scope: Scope, name: string) {
    n > 0 && Ancestor(c, n).Some? && name in FinalsByName(Ancestor(c, n).value, scope)
  }

  /** An inherited final is that of the nearest base that has one of the name. */
  lemma {:induction false} InheritedFinalsAre(c: ClassNode, scope: Scope, name: string, n: nat)
    requires forall m: nat :: m < n ==> !InheritsFrom(c, m, scope, name)
    requires InheritsFrom(c, n, scope, name) || forall m: nat :: !InheritsFrom(c, m, scope, name)
    ensures if InheritsFrom(c, n, scope, name)
            then name in InheritedFinals(c, scope)
                 && InheritedFinals(c, scope)[name] == FinalsByName(Ancestor(c, n).value, scope)[name]
            else name !in InheritedFinals(c, scope)
    decreases c
  {
    if c.base.Some? {
      var base := c.base.value;
      forall m: nat
        ensures Ancestor(c, m + 1) == Ancestor(base, m)
        ensures m > 0 ==> (InheritsFrom(base, m, scope, name) <==> InheritsFrom(c, m + 1, scope, name))
      {
      }
      assert Ancestor(c, 0 + 1) == Ancestor(base, 0) == Some(base);
      assert InheritsFrom(c, 1, scope, name) <==> name in FinalsByName(base, scope);
      if name !in FinalsByName(base, scope) {
        InheritedFinalsAre(base, scope, name, if n > 0 then n - 1 else 0);
      }
    }
  }

  predicate IsLastTracked(scope: Scope, fromTrait: bool, ms: seq<Member>, i: int, name: string) {
    && 0 <= i < |ms| && IsTracked(scope, fromTrait, ms[i]) && ms[i].variable.name == name
    && forall j :: i < j < |ms| && IsTracked(scope, fromTrait, ms[j]) ==> ms[j].variable.name != name
  }

  lemma {:induction false} LastNamedIs(ms: seq<Member>, name: string)
    ensures match LastNamed(ms, name)
            case None => forall i :: 0 <= i < |ms| ==> !IsNamed(ms[i], name)
            case Some(f) => exists i :: 0 <= i < |ms| && ms[i] == FunctionMember(f) && f.name == name
                                        && forall j :: i < j < |ms| ==> !IsNamed(ms[j], name)
    decreases ms
  {
    if ms != [] {
      var rest := ms[1..];
      LastNamedIs(rest, name);
      assert forall i :: 0 <= i < |rest| ==> rest[i] == ms[i + 1];
      if LastNamed(rest, name).Some? {
        var f := LastNamed(rest, name).value;
        var i :| 0 <= i < |rest| && rest[i] == FunctionMember(f) && f.name == name
                 && forall j :: i < j < |rest| ==> !IsNamed(rest[j], name);
        assert forall j :: i + 1 < j < |ms| ==> ms[j] == rest[j - 1];
        assert ms[i + 1] == FunctionMember(f);
      } else {
        assert forall j :: 0 < j < |ms| ==> ms[j] == rest[j - 1];
      }
    }
  }

  lemma {:induction false} FirstNamedIs(ms: seq<Member>, name: string)
    ensures match FirstNamed(ms, name)
            case None => forall i :: 0 <= i < |ms| ==> !IsNamed(ms[i], name)
            case Some(f) => exists i :: 0 <= i < |ms| && ms[i] == FunctionMember(f) && f.name == name
                                        && forall j :: 0 <= j < i ==> !IsNamed(ms[j], name)
    decreases ms
  {
    if ms != [] && !IsNamed(ms[0], name) {
      var rest := ms[1..];
      FirstNamedIs(rest, name);
      assert forall j :: 0 < j < |ms| ==> ms[j] == rest[j - 1];
      if FirstNamed(rest, name).Some? {
        var f := FirstNamed(rest, name).value;
        var i :| 0 <= i < |rest| && rest[i] == FunctionMember(f) && f.name == name
                 && forall j :: 0 <= j < i ==> !IsNamed(rest[j], name);
        assert ms[i + 1] == FunctionMember(f);
      }
    }
  }

  /** The initializing function is the last own one of its name; only a class
      without one takes that of a trait, of which there is one at most. */
  lemma InitIs(c: ClassNode, scope: Scope)
    ensures InitName(InstanceMember) == "_init" && InitName(StaticMember) == "_static_init"
    ensures match InitOf(c, scope)
            case None =>
              && (forall i :: 0 <= i < |c.members| ==> !IsNamed(c.members[i], InitName(scope)))
              && (forall i :: 0 <= i < |FlattenedMembers(c)| ==> !IsNamed(FlattenedMembers(c)[i], InitName(scope)))
            case Some(f) =>
              if exists i :: 0 <= i < |c.members| && IsNamed(c.members[i], InitName(scope))
              then exists i :: 0 <= i < |c.members| && c.members[i] == FunctionMember(f) && f.name == InitName(scope)
                               && forall j :: i < j < |c.members| ==> !IsNamed(c.members[j], InitName(scope))
              else FunctionMember(f) in FlattenedMembers(c) && f.name == InitName(scope)
  {
    LastNamedIs(c.members, InitName(scope));
    FirstNamedIs(FlattenedMembers(c), InitName(scope));
  }

  function InitContext(c: ClassNode, scope: Scope, late: bool): Context {
    ContextOf(c, scope, !OwnsInit(c, scope), late)
  }

  // ---------------------------------------------------------------------------
  // Writes outside the initializing function.
  // ---------------------------------------------------------------------------

  function ScanFunctions(ctx: Context, fs: seq<Function>): set<Variable> {
    if fs == [] then {} else W.ScanSuite(ctx, fs[0].body, false, W.AsSource) + ScanFunctions(ctx, fs[1..])
  }

  function ScanMember(ctx: Context, m: Member, init: Option<Function>): set<Variable> {
    match m
    case FunctionMember(f) => W.ScanSuite(ctx, f.body, init == Some(f), W.AsSource)
    case EnumMember(_, functions) => if ctx.inFlattenedTrait then {} else ScanFunctions(ctx, functions)
    case VariableMember(_, initializer, property, _) =>
      W.ScanOptional(ctx, initializer, false, W.AsSource) +
      (if property.InlineProperty?
       then W.ScanSuite(ctx, property.getter, false, W.AsSource) + W.ScanSuite(ctx, property.setter, false, W.AsSource)
         else {})
    case _ => {}
  }

  function ScanMembers(ctx: Context, ms: seq<Member>, init: Option<Function>): set<Variable> {
    if ms == [] then {} else ScanMember(ctx, ms[0], init) + ScanMembers(ctx, ms[1..], init)
  }

  function IllegalWrites(c: ClassNode, scope: Scope): set<Variable> {
    ScanMembers(ContextOf(c, scope, false, false), c.members, InitOf(c, scope)) +
    ScanMembers(ContextOf(c, scope, true, false), FlattenedMembers(c), InitOf(c, scope))
  }

  // ---------------------------------------------------------------------------
  // Construction.
  // ---------------------------------------------------------------------------

  /** The check of static finals looks at the initializers of static variables only. */
  predicate IsInitialized(scope: Scope, m: Member) {
    m.VariableMember? && m.initializer.Some? && (scope == StaticMember ==> m.variable.isStatic)
  }

  function AnalyzeInitializers(ctx: Context, ms: seq<Member>, f: Facts): Report {
    if ms == [] then Report(f, {}) else
    if !IsInitialized(ctx.scope, ms[0]) then AnalyzeInitializers(ctx, ms[1..], f) else
    var rest := AnalyzeInitializers(ctx, ms[1..], f.Assign({ms[0].variable} * ctx.finals));
    rest.(diagnostics := Unassigned(Reads(ctx, ms[0].initializer.value), f.definite) + rest.diagnostics)
  }

  function Blank(ctx: Context, ms: seq<Member>): set<Variable> {
    set i | 0 <= i < |ms| && ms[i].VariableMember? && ms[i].variable in ctx.finals && ms[i].initializer.None? ::
      ms[i].variable
  }

  function BlankFinals(c: ClassNode, scope: Scope): set<Variable> {
    Blank(ContextOf(c, scope, false, false), c.members) + Blank(ContextOf(c, scope, false, false), FlattenedMembers(c))
  }

  function AnalyzeAllInitializers(c: ClassNode, scope: Scope, late: bool): Report {
    var own := AnalyzeInitializers(ContextOf(c, scope, false, late), c.members, Facts({}, {}, true));
    var received := AnalyzeInitializers(ContextOf(c, scope, true, late), FlattenedMembers(c), own.facts);
    received.(diagnostics := own.diagnostics + received.diagnostics)
  }

  function Missing(blanks: set<Variable>, f: Facts): set<Diagnostic> {
    if f.reachable then set v | v in blanks && v !in f.definite :: NeverAssigned(v) else {}
  }

  function AnalyzeConstruction(c: ClassNode, scope: Scope, late: bool): set<Diagnostic> {
    if Finals(c, scope) == {} then {} else
    var initialized := AnalyzeAllInitializers(c, scope, late);
    initialized.diagnostics +
    match InitOf(c, scope)
    case None => set v | v in BlankFinals(c, scope) :: NeverAssigned(v)
    case Some(init) =>
      var ctx := InitContext(c, scope, late);
      var body := AnalyzeSuite(ctx, init.body, initialized.facts);
      Unassigned(ReadsOfAll(ctx, init.parameterDefaults), initialized.facts.definite)
      + body.diagnostics + Missing(BlankFinals(c, scope), body.facts)
  }

  function Reported(vs: set<Variable>): set<Diagnostic> {
    set v | v in vs :: IllegalWrite(v)
  }

  /** Everything the check of one class reports, inner classes included. */
  function CheckClass(c: ClassNode, scope: Scope): set<Diagnostic> {
    if c.isTrait then {} else
    Malformed(scope, false, c.members) + Malformed(scope, true, FlattenedMembers(c))
    + Reported(IllegalWrites(c, scope)) + AnalyzeConstruction(c, scope, false) + CheckInner(c.members, scope)
  }

  function CheckInner(ms: seq<Member>, scope: Scope): set<Diagnostic> {
    if ms == [] then {} else
    (if ms[0].ClassMember? then CheckClass(ms[0].inner, scope) else {}) + CheckInner(ms[1..], scope)
  }

  // ---------------------------------------------------------------------------
  // What an accepted class has none of.
  // ---------------------------------------------------------------------------

  /** A final of the scope has no accessor, and is onready only if it is static and
      comes from a trait. */
  predicate IsWellFormed(scope: Scope, fromTrait: bool, m: Member) {
    m.VariableMember? && m.variable.isFinal && (m.variable.isStatic <==> scope == StaticMember) ==>
      m.property.NoProperty? && (m.onready ==> fromTrait && scope == StaticMember)
  }

  /** The members `ms[i]` that are reported, and for what. */
  lemma {:induction false} MalformedAre(scope: Scope, fromTrait: bool, ms: seq<Member>, d: Diagnostic)
    ensures d in Malformed(scope, fromTrait, ms) <==> exists i :: ReportedAt(scope, fromTrait, ms, d, i)
    decreases ms
  {
    if ms != [] {
      var rest := ms[1..];
      MalformedAre(scope, fromTrait, rest, d);
      if i :| ReportedAt(scope, fromTrait, rest, d, i) {
        assert ReportedAt(scope, fromTrait, ms, d, i + 1);
      }
      if i :| ReportedAt(scope, fromTrait, ms, d, i) {
        assert i > 0 ==> ReportedAt(scope, fromTrait, rest, d, i - 1);
      } else {
        assert !ReportedAt(scope, fromTrait, ms, d, 0);
      }
    }
  }

  predicate ReportedAt(scope: Scope, fromTrait: bool, ms: seq<Member>, d: Diagnostic, i: int) {
    && 0 <= i < |ms| && !IsWellFormed(scope, fromTrait, ms[i])
    && d == if ms[i].property.NoProperty? then OnreadyOnFinal(ms[i].variable) else AccessorOnFinal(ms[i].variable)
  }

  lemma NothingMalformed(scope: Scope, fromTrait: bool, ms: seq<Member>)
    ensures Malformed(scope, fromTrait, ms) == {} <==>
            forall i :: 0 <= i < |ms| ==> IsWellFormed(scope, fromTrait, ms[i])
  {
    forall d: Diagnostic
      ensures d in Malformed(scope, fromTrait, ms) <==> exists i :: ReportedAt(scope, fromTrait, ms, d, i)
    {
      MalformedAre(scope, fromTrait, ms, d);
    }
    forall i | 0 <= i < |ms| && !IsWellFormed(scope, fromTrait, ms[i])
      ensures Malformed(scope, fromTrait, ms) != {}
    {
      var v := ms[i].variable;
      assert ReportedAt(scope, fromTrait, ms, if ms[i].property.NoProperty? then OnreadyOnFinal(v)
                                              else AccessorOnFinal(v), i);
    }
  }

  lemma {:induction false} InnerClassesAreChecked(ms: seq<Member>, scope: Scope, d: Diagnostic)
    ensures d in CheckInner(ms, scope) <==> exists i :: InnerReports(ms, scope, d, i)
    decreases ms
  {
    if ms != [] {
      var rest := ms[1..];
      InnerClassesAreChecked(rest, scope, d);
      if i :| InnerReports(rest, scope, d, i) {
        assert InnerReports(ms, scope, d, i + 1);
      }
      if i :| InnerReports(ms, scope, d, i) {
        assert if i > 0 then InnerReports(rest, scope, d, i - 1) else d in CheckClass(ms[0].inner, scope);
      } else {
        assert !InnerReports(ms, scope, d, 0);
      }
    }
  }

  predicate InnerReports(ms: seq<Member>, scope: Scope, d: Diagnostic, i: int) {
    0 <= i < |ms| && ms[i].ClassMember? && d in CheckClass(ms[i].inner, scope)
  }

  /** A trait is not checked by itself; a class is accepted if and only if its finals
      have no accessors and are not onready, nothing is assigned where it may not
      be, construction is accepted, and so is every inner class. */
  lemma AcceptedIff(c: ClassNode, scope: Scope)
    ensures c.isTrait ==> CheckClass(c, scope) == {}
    ensures !c.isTrait ==>
            (CheckClass(c, scope) == {} <==>
            && (forall i :: 0 <= i < |c.members| ==> IsWellFormed(scope, false, c.members[i]))
            && (forall i :: 0 <= i < |FlattenedMembers(c)| ==> IsWellFormed(scope, true, FlattenedMembers(c)[i]))
            && IllegalWrites(c, scope) == {}
            && AnalyzeConstruction(c, scope, false) == {}
            && (forall i :: 0 <= i < |c.members| && c.members[i].ClassMember? ==>
                            CheckClass(c.members[i].inner, scope) == {}))
  {
    NothingMalformed(scope, false, c.members);
    NothingMalformed(scope, true, FlattenedMembers(c));
    assert Reported(IllegalWrites(c, scope)) == {} <==> IllegalWrites(c, scope) == {} by {
      if v :| v in IllegalWrites(c, scope) {
        assert IllegalWrite(v) in Reported(IllegalWrites(c, scope));
      }
    }
    forall d: Diagnostic
      ensures d in CheckInner(c.members, scope) <==> exists i :: InnerReports(c.members, scope, d, i)
    {
      InnerClassesAreChecked(c.members, scope, d);
    }
    if CheckInner(c.members, scope) == {} {
      forall i | 0 <= i < |c.members| && c.members[i].ClassMember?
        ensures CheckClass(c.members[i].inner, scope) == {}
      {
        assert forall d :: d in CheckClass(c.members[i].inner, scope) ==> InnerReports(c.members, scope, d, i);
      }
    }
  }
}
