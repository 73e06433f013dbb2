/** Static types as flow narrowing sees them: nullable types, unions of
    alternatives and bounded type parameters, and the values they stand for. */
module NarrowedTypes {

  /** `Any` is Variant; `Unset` is the type of something that was not resolved. */
  datatype Kind = Unset | Any | Plain(id: nat) | Union(members: seq<Type>) | Parameter(name: nat, bound: seq<Type>)

  datatype Type = Type(kind: Kind, nullable: bool)

  const UNSET := Type(Unset, false)

  datatype Value = Null | Object(tag: nat)

  /** A world says which objects belong to which plain types and parameters, and
      for which types the test `null is T?` answers true: the builtin test does,
      the native and the script test do not. */
  datatype World = World(belongs: (Kind, nat) -> bool, nullPasses: Kind -> bool)

  ghost predicate Holds(w: World, t: Type, v: Value)
    decreases t
  {
    || (v.Null? && t.nullable)
    || match t.kind
       case Unset => true
       case Any => true
       case Plain(_) => v.Object? && w.belongs(t.kind, v.tag)
       case Union(members) => exists i :: 0 <= i < |members| && Holds(w, members[i], v)
       case Parameter(_, bound) =>
         && (v.Object? ==> w.belongs(t.kind, v.tag))
         && if |bound| > 0 then Holds(w, bound[0], v) else v.Object?
  }

  /** The runtime answer to `v is test`. */
  ghost predicate Passes(w: World, v: Value, test: Type) {
    if v.Null? then Holds(w, test, v) && w.nullPasses(test.kind) else Holds(w, test, v)
  }

  /** Whether some world lets null into the type. */
  predicate AcceptsNull(t: Type) {
    || t.nullable
    || match t.kind
       case Unset => true
       case Any => true
       case Plain(_) => false
       case Union(members) => exists i :: 0 <= i < |members| && AcceptsNull(members[i])
       case Parameter(_, bound) => |bound| > 0 && AcceptsNull(bound[0])
  }

  /** The normal form of a union: two or more members, none of them a union or
      open to null. */
  predicate WellFormed(t: Type) {
    match t.kind
    case Union(members) =>
      |members| >= 2 && forall i :: 0 <= i < |members| ==> IsAlternative(members[i]) && WellFormed(members[i])
    case Parameter(_, bound) => |bound| <= 1 && (|bound| > 0 ==> WellFormed(bound[0]))
    case _ => true
  }

  predicate IsAlternative(t: Type) {
    !t.kind.Union? && !AcceptsNull(t)
  }

  function WithoutNull(t: Type): Type {
    t.(nullable := false)
  }

  lemma {:induction false} NullNeedsAcceptance(w: World, t: Type)
    requires Holds(w, t, Null)
    ensures AcceptsNull(t)
    decreases t
  {
    match t.kind
    case Union(members) =>
      if !t.nullable {
        var i :| 0 <= i < |members| && Holds(w, members[i], Null);
        NullNeedsAcceptance(w, members[i]);
      }
    case Parameter(_, bound) =>
      if !t.nullable && |bound| > 0 {
        NullNeedsAcceptance(w, bound[0]);
      }
    case _ =>
  }

  // ---------------------------------------------------------------- unions

  function Members(t: Type): seq<Type> {
    if t.kind.Union? then t.kind.members else [WithoutNull(t)]
  }

  function Flatten(types: seq<Type>): seq<Type> {
    if types == [] then [] else Flatten(types[..|types| - 1]) + Members(types[|types| - 1])
  }

  function Distinct(types: seq<Type>): (r: seq<Type>)
    ensures forall t :: t in r <==> t in types
    ensures forall i, j :: 0 <= i < j < |r| ==> r[i] != r[j]
  {
    if types == [] then []
    else
      var front := Distinct(types[..|types| - 1]);
      var last := types[|types| - 1];
      assert types == types[..|types| - 1] + [last];
      if last in front then front else front + [last]
  }

  ghost predicate SomeHolds(w: World, types: seq<Type>, v: Value) {
    exists i :: 0 <= i < |types| && Holds(w, types[i], v)
  }

  predicate AnyNullable(types: seq<Type>) {
    exists i :: 0 <= i < |types| && types[i].nullable
  }

  function MakeUnion(types: seq<Type>): Type {
    var members := Distinct(Flatten(types));
    var nullable := AnyNullable(types);
    if |members| == 0 then UNSET
    else if |members| == 1 then Type(members[0].kind, members[0].nullable || nullable)
    else Type(Union(members), nullable)
  }

  /** What may be put into a union. */
  predicate Mergeable(t: Type) {
    WellFormed(t) && (t.kind.Union? || IsAlternative(WithoutNull(t)))
  }

  lemma NullableUpTo(types: seq<Type>, i: nat)
    requires i < |types|
    ensures AnyNullable(types[..i + 1]) == (AnyNullable(types[..i]) || types[i].nullable)
  {
    var front, longer := types[..i], types[..i + 1];
    if k :| 0 <= k < |longer| && longer[k].nullable {
      assert k < i ==> front[k].nullable;
    }
    if k :| 0 <= k < |front| && front[k].nullable {
      assert longer[k].nullable;
    }
    assert longer[i] == types[i];
  }

  method MakeUnionOf(types: seq<Type>) returns (result: Type)
    ensures result == MakeUnion(types)
  {
    var flattened: seq<Type> := [];
    var nullable := false;
    for i := 0 to |types|
      invariant flattened == Flatten(types[..i])
      invariant nullable == AnyNullable(types[..i])
    {
      assert types[..i + 1][..i] == types[..i];
      NullableUpTo(types, i);
      nullable := nullable || types[i].nullable;
      if types[i].kind.Union? {
        flattened := flattened + types[i].kind.members;
      } else {
        flattened := flattened + [WithoutNull(types[i])];
      }
    }
    assert types[..|types|] == types;
    var members: seq<Type> := [];
    for i := 0 to |flattened|
      invariant members == Distinct(flattened[..i])
    {
      assert flattened[..i + 1][..i] == flattened[..i];
      if flattened[i] !in members {
        members := members + [flattened[i]];
      }
    }
    assert flattened[..|flattened|] == flattened;
    if |members| == 0 { return UNSET; }
    if |members| == 1 { return Type(members[0].kind, members[0].nullable || nullable); }
    return Type(Union(members), nullable);
  }

  lemma {:induction false} FlattenedMember(types: seq<Type>, t: Type)
    ensures t in Flatten(types) <==> exists i :: 0 <= i < |types| && t in Members(types[i])
  {
    if types != [] {
      var front, last := types[..|types| - 1], types[|types| - 1];
      FlattenedMember(front, t);
      if t in Flatten(front) {
        var i :| 0 <= i < |front| && t in Members(front[i]);
        assert t in Members(types[i]);
      }
      if i :| 0 <= i < |types| && t in Members(types[i]) {
        assert i < |front| ==> t in Members(front[i]);
      }
    }
  }

  lemma MembersHold(w: World, t: Type, v: Value)
    requires Mergeable(t)
    ensures Holds(w, t, v) <==> (v.Null? && t.nullable) || exists m :: m in Members(t) && Holds(w, m, v)
    ensures forall m :: m in Members(t) ==> IsAlternative(m) && WellFormed(m)
  {
    if t.kind.Union? {
      var members := t.kind.members;
      if i :| 0 <= i < |members| && Holds(w, members[i], v) {
        assert members[i] in Members(t);
      }
    } else {
      assert WithoutNull(t) in Members(t);
    }
  }

  lemma SetNullable(w: World, t: Type, nullable: bool, v: Value)
    requires WellFormed(t) && !AcceptsNull(t)
    ensures Holds(w, t.(nullable := nullable), v) <==> (v.Null? && nullable) || Holds(w, t, v)
    ensures WellFormed(t.(nullable := nullable))
  {
  }

  lemma MembersAreAlternatives(t: Type)
    requires Mergeable(t)
    ensures Members(t) != []
    ensures forall m :: m in Members(t) ==> IsAlternative(m) && WellFormed(m)
  {
  }

  lemma UnionMembers(types: seq<Type>)
    requires forall i :: 0 <= i < |types| ==> Mergeable(types[i])
    requires types != []
    ensures Distinct(Flatten(types)) != []
    ensures forall m :: m in Distinct(Flatten(types)) ==> IsAlternative(m) && WellFormed(m)
  {
    forall m | m in Distinct(Flatten(types))
      ensures IsAlternative(m) && WellFormed(m)
    {
      FlattenedMember(types, m);
      var i :| 0 <= i < |types| && m in Members(types[i]);
      MembersAreAlternatives(types[i]);
    }
    MembersAreAlternatives(types[0]);
    var first := Members(types[0])[0];
    assert first in Members(types[0]);
    FlattenedMember(types, first);
    assert first in Distinct(Flatten(types));
  }

  lemma ManyMembersHold(w: World, members: seq<Type>, nullable: bool, v: Value)
    requires |members| >= 2
    requires forall m :: m in members ==> IsAlternative(m) && WellFormed(m)
    ensures Holds(w, Type(Union(members), nullable), v) <==>
            (v.Null? && nullable) || exists m :: m in members && Holds(w, m, v)
    ensures WellFormed(Type(Union(members), nullable)) && Mergeable(Type(Union(members), nullable))
  {
    var t := Type(Union(members), nullable);
    assert WellFormed(t);
    MembersHold(w, t, v);
    assert Members(t) == members;
  }

  /** The collapse of a single member does not change the meaning. */
  lemma CollapseKeepsMeaning(w: World, types: seq<Type>, v: Value)
    requires forall i :: 0 <= i < |types| ==> Mergeable(types[i])
    requires types != []
    ensures Holds(w, MakeUnion(types), v) <==>
            (v.Null? && AnyNullable(types)) || exists m :: m in Distinct(Flatten(types)) && Holds(w, m, v)
    ensures WellFormed(MakeUnion(types)) && Mergeable(MakeUnion(types))
  {
    UnionMembers(types);
    var members := Distinct(Flatten(types));
    if |members| == 1 {
      assert members[0] in members;
      SetNullable(w, members[0], AnyNullable(types), v);
      assert MakeUnion(types) == members[0].(nullable := AnyNullable(types));
      assert WithoutNull(MakeUnion(types)) == members[0];
    } else {
      ManyMembersHold(w, members, AnyNullable(types), v);
    }
  }

  /** A union means the union: whatever the flattening, the removal of duplicates
      and the collapse of a single member do to its form. */
  lemma UnionHoldsAlternatives(w: World, types: seq<Type>, v: Value)
    requires forall i :: 0 <= i < |types| ==> Mergeable(types[i])
    ensures Holds(w, MakeUnion(types), v) <==> types == [] || SomeHolds(w, types, v)
    ensures types != [] ==> WellFormed(MakeUnion(types)) && Mergeable(MakeUnion(types))
  {
    if types == [] {
      return;
    }
    CollapseKeepsMeaning(w, types, v);
    if SomeHolds(w, types, v) {
      var i :| 0 <= i < |types| && Holds(w, types[i], v);
      MembersHold(w, types[i], v);
      if !(v.Null? && types[i].nullable) {
        var m :| m in Members(types[i]) && Holds(w, m, v);
        FlattenedMember(types, m);
      }
    }
    if m :| m in Distinct(Flatten(types)) && Holds(w, m, v) {
      FlattenedMember(types, m);
      var i :| 0 <= i < |types| && m in Members(types[i]);
      MembersHold(w, types[i], v);
      assert Holds(w, types[i], v);
    }
  }

  // ---------------------------------------------------------------- tests against alternatives

  /** A test covers an alternative only if it names the same type. */
  predicate Subsumes(test: Type, alternative: Type) {
    WithoutNull(test) == WithoutNull(alternative)
  }

  /** The union behind a type: the type itself, or the bound of a parameter. */
  function AlternativeSet(t: Type): seq<Type> {
    if t.kind.Union? then [t]
    else if t.kind.Parameter? && |t.kind.bound| == 1 && t.kind.bound[0].kind.Union? then t.kind.bound
    else []
  }

  function Survivors(test: Type, alternatives: seq<Type>): (r: seq<Type>)
    ensures |r| <= |alternatives|
    ensures forall m :: m in r <==> m in alternatives && !Subsumes(test, m)
  {
    if alternatives == [] then []
    else
      var last := alternatives[|alternatives| - 1];
      assert alternatives == alternatives[..|alternatives| - 1] + [last];
      var front := Survivors(test, alternatives[..|alternatives| - 1]);
      if Subsumes(test, last) then front else front + [last]
  }

  ghost predicate SomeUnnamedHolds(w: World, test: Type, alternatives: seq<Type>, v: Value) {
    exists i :: 0 <= i < |alternatives| && !Subsumes(test, alternatives[i]) && Holds(w, alternatives[i], v)
  }

  /** Exactly the surviving alternatives, or null if the type admits it. */
  ghost predicate Survives(w: World, current: Type, test: Type, v: Value)
    requires AlternativeSet(current) != []
  {
    var union := AlternativeSet(current)[0];
    || (v.Null? && (current.nullable || union.nullable))
    || SomeUnnamedHolds(w, test, union.kind.members, v)
  }

  /** The type after a failed test, or none if the test says nothing new. */
  function FailedTestType(current: Type, test: Type): seq<Type> {
    if AlternativeSet(current) == [] then []
    else
      var union := AlternativeSet(current)[0];
      var alternatives := union.kind.members;
      var survivors := Survivors(test, alternatives);
      if survivors == [] || |survivors| == |alternatives| then []
      else
        var narrowed := MakeUnion(survivors);
        if narrowed.kind.Unset? then []
        else [narrowed.(nullable := current.nullable || union.nullable)]
  }

  lemma SurvivorsHold(w: World, test: Type, alternatives: seq<Type>, v: Value)
    requires forall m :: m in alternatives ==> IsAlternative(m) && WellFormed(m)
    ensures forall i :: 0 <= i < |Survivors(test, alternatives)| ==>
      Mergeable(Survivors(test, alternatives)[i]) && IsAlternative(Survivors(test, alternatives)[i])
    ensures SomeHolds(w, Survivors(test, alternatives), v) <==> SomeUnnamedHolds(w, test, alternatives, v)
  {
    var survivors := Survivors(test, alternatives);
    forall i | 0 <= i < |survivors|
      ensures Mergeable(survivors[i]) && IsAlternative(survivors[i])
    {
      assert survivors[i] in survivors;
      assert WithoutNull(survivors[i]) == survivors[i];
    }
    if SomeHolds(w, survivors, v) {
      var i :| 0 <= i < |survivors| && Holds(w, survivors[i], v);
      assert survivors[i] in survivors;
      var k :| 0 <= k < |alternatives| && alternatives[k] == survivors[i];
      assert !Subsumes(test, alternatives[k]) && Holds(w, alternatives[k], v);
    }
    if SomeUnnamedHolds(w, test, alternatives, v) {
      var k :| 0 <= k < |alternatives| && !Subsumes(test, alternatives[k]) && Holds(w, alternatives[k], v);
      assert alternatives[k] in survivors;
      var i :| 0 <= i < |survivors| && survivors[i] == alternatives[k];
      assert Holds(w, survivors[i], v);
    }
  }

  lemma SurvivorsKeepForm(survivors: seq<Type>)
    requires survivors != []
    requires forall i :: 0 <= i < |survivors| ==> Mergeable(survivors[i]) && IsAlternative(survivors[i])
    ensures !MakeUnion(survivors).nullable && !AcceptsNull(MakeUnion(survivors))
  {
    var members := Distinct(Flatten(survivors));
    forall m | m in members
      ensures !AcceptsNull(m)
    {
      FlattenedMember(survivors, m);
      var i :| 0 <= i < |survivors| && m in Members(survivors[i]);
      assert m == survivors[i];
    }
  }

  lemma NarrowedUnionHolds(w: World, survivors: seq<Type>, nullable: bool, v: Value)
    requires survivors != []
    requires forall i :: 0 <= i < |survivors| ==> Mergeable(survivors[i]) && IsAlternative(survivors[i])
    ensures WellFormed(MakeUnion(survivors).(nullable := nullable))
    ensures Holds(w, MakeUnion(survivors).(nullable := nullable), v) <==>
            (v.Null? && nullable) || SomeHolds(w, survivors, v)
  {
    UnionHoldsAlternatives(w, survivors, v);
    SurvivorsKeepForm(survivors);
    SetNullable(w, MakeUnion(survivors), nullable, v);
  }

  /** A failed test leaves exactly the alternatives it does not name, and never
      decides about null. */
  lemma FailedTestIsExact(w: World, current: Type, test: Type, v: Value)
    requires WellFormed(current) && FailedTestType(current, test) != []
    ensures WellFormed(FailedTestType(current, test)[0])
    ensures Holds(w, FailedTestType(current, test)[0], v) <==> Survives(w, current, test, v)
  {
    var union := AlternativeSet(current)[0];
    SurvivorsHold(w, test, union.kind.members, v);
    NarrowedUnionHolds(w, Survivors(test, union.kind.members), current.nullable || union.nullable, v);
  }

  /** Soundness of the failed test: a value of the type that fails it is still a
      value of what the type narrows to. */
  lemma FailedTestIsSound(w: World, current: Type, test: Type, v: Value)
    requires WellFormed(current) && FailedTestType(current, test) != []
    requires Holds(w, current, v) && !Passes(w, v, test)
    ensures Holds(w, FailedTestType(current, test)[0], v)
  {
    FailedTestIsExact(w, current, test, v);
    var union := AlternativeSet(current)[0];
    var alternatives := union.kind.members;
    if !(v.Null? && (current.nullable || union.nullable)) {
      var i :| 0 <= i < |alternatives| && Holds(w, alternatives[i], v);
      assert IsAlternative(alternatives[i]);
      if v.Null? {
        NullNeedsAcceptance(w, alternatives[i]);
        assert false;
      }
      assert Subsumes(test, alternatives[i]) ==> Holds(w, test, v);
      assert !Subsumes(test, alternatives[i]);
    }
  }

  /** The alternatives of a union, or of the union that bounds a parameter. */
  function Alternatives(t: Type): seq<Type> {
    match t.kind
    case Union(members) => members
    case Parameter(_, bound) => if |bound| == 1 && bound[0].kind.Union? then bound[0].kind.members else []
    case _ => []
  }

  predicate Names(test: Type, alternatives: seq<Type>, i: int) {
    0 <= i < |alternatives| && alternatives[i].kind == test.kind
  }

  /** A failed test narrows exactly if it names some of the alternatives, but not
      all of them. */
  lemma FailedTestNarrowsIff(current: Type, test: Type)
    requires WellFormed(current)
    ensures FailedTestType(current, test) != [] <==>
            && (exists i :: Names(test, Alternatives(current), i))
            && (exists i :: 0 <= i < |Alternatives(current)| && !Names(test, Alternatives(current), i))
  {
    if AlternativeSet(current) != [] {
      var alternatives := Alternatives(current);
      assert alternatives == AlternativeSet(current)[0].kind.members;
      SurvivorsAreFewer(test, alternatives);
      SurvivorsAre(test, alternatives);
      if Survivors(test, alternatives) != [] {
        SurvivorsAreSet(test, alternatives);
      }
    }
  }

  lemma SurvivorsAre(test: Type, alternatives: seq<Type>)
    ensures Survivors(test, alternatives) != [] <==>
            exists i :: 0 <= i < |alternatives| && !Names(test, alternatives, i)
  {
    var survivors := Survivors(test, alternatives);
    if i :| 0 <= i < |alternatives| && !Names(test, alternatives, i) {
      assert alternatives[i] in survivors;
    }
    if survivors != [] {
      assert survivors[0] in survivors;
      var i :| 0 <= i < |alternatives| && alternatives[i] == survivors[0];
      assert !Names(test, alternatives, i);
    }
  }

  lemma SurvivorsAreSet(test: Type, alternatives: seq<Type>)
    requires forall m :: m in alternatives ==> IsAlternative(m) && WellFormed(m)
    requires Survivors(test, alternatives) != []
    ensures !MakeUnion(Survivors(test, alternatives)).kind.Unset?
  {
    SurvivorsHold(World((kind, tag) => true, kind => false), test, alternatives, Null);
    SurvivorsKeepForm(Survivors(test, alternatives));
  }

  lemma {:induction false} SurvivorsAreFewer(test: Type, alternatives: seq<Type>)
    ensures |Survivors(test, alternatives)| < |alternatives| <==> exists i :: Names(test, alternatives, i)
    decreases alternatives
  {
    if alternatives != [] {
      var n := |alternatives| - 1;
      SurvivorsAreFewer(test, alternatives[..n]);
      if i :| Names(test, alternatives[..n], i) {
        assert Names(test, alternatives, i);
      }
      if i :| Names(test, alternatives, i) {
        assert i < n ==> Names(test, alternatives[..n], i);
      }
      assert Subsumes(test, alternatives[n]) ==> Names(test, alternatives, n);
    }
  }

  // ---------------------------------------------------------------- tests that cannot fail

  predicate Exhausts(operand: Type, test: Type) {
    && !test.kind.Unset?
    && !operand.nullable
    && AlternativeSet(operand) != []
    && var union := AlternativeSet(operand)[0];
      && !union.nullable
      && union.kind.members != []
      && forall i :: 0 <= i < |union.kind.members| ==> Subsumes(test, union.kind.members[i])
  }

  method TypeTestExhaustsAlternatives(operand: Type, test: Type) returns (exhausted: bool)
    ensures exhausted == Exhausts(operand, test)
  {
    if test.kind.Unset? || operand.nullable { return false; }
    if AlternativeSet(operand) == [] { return false; }
    var union := AlternativeSet(operand)[0];
    if union.nullable || union.kind.members == [] { return false; }
    for i := 0 to |union.kind.members|
      invariant forall k :: 0 <= k < i ==> Subsumes(test, union.kind.members[k])
    {
      if !Subsumes(test, union.kind.members[i]) { return false; }
    }
    return true;
  }

  /** Every value of a type whose alternatives are exhausted passes the test, even
      for a union that was never brought into normal form. */
  lemma ExhaustingTestCannotFail(w: World, operand: Type, test: Type, v: Value)
    requires Exhausts(operand, test) && Holds(w, operand, v)
    requires forall i :: 0 <= i < |AlternativeSet(operand)[0].kind.members| ==>
             IsAlternative(AlternativeSet(operand)[0].kind.members[i])
    ensures Passes(w, v, test)
  {
    var union := AlternativeSet(operand)[0];
    var i :| 0 <= i < |union.kind.members| && Holds(w, union.kind.members[i], v);
    if v.Null? {
      NullNeedsAcceptance(w, union.kind.members[i]);
      assert false;
    }
    assert Subsumes(test, union.kind.members[i]);
  }

  /** A union whose members are plain types, nullable or not, or a parameter that
      one bounds. */
  predicate PlainUnion(t: Type) {
    |Alternatives(t)| > 0 && forall i :: 0 <= i < |Alternatives(t)| ==> Alternatives(t)[i].kind.Plain?
  }

  ghost predicate CannotFail(operand: Type, test: Type) {
    forall w: World, v: Value :: Holds(w, operand, v) ==> Passes(w, v, test)
  }

  /** When can a test for a single type not fail on a union of plain types, or on a
      parameter that one bounds?  When null is not among the values, which the
      report takes for granted of the members, and the test exhausts the
      alternatives or is for the parameter itself. */
  lemma ExhaustsIffItCannotFail(operand: Type, test: Type)
    requires PlainUnion(operand) && (test.kind.Plain? || test.kind.Parameter?)
    ensures CannotFail(operand, test) <==>
            !AcceptsNull(operand) && (Exhausts(operand, test) || test.kind == operand.kind)
  {
    if AcceptsNull(operand) {
      var w := World((kind, tag) => true, kind => false);
      NullHolds(w, operand);
      assert !Passes(w, Null, test);
    } else if Exhausts(operand, test) {
      forall w: World, v: Value | Holds(w, operand, v)
        ensures Passes(w, v, test)
      {
        ExhaustingTestCannotFail(w, operand, test, v);
      }
    } else if test.kind == operand.kind {
      forall w: World, v: Value | Holds(w, operand, v)
        ensures Passes(w, v, test)
      {
        if v.Null? {
          NullNeedsAcceptance(w, operand);
        }
      }
    } else {
      UnnamedAlternativeFails(operand, test);
    }
  }

  /** Nothing is reported of a test for a type that is not known, although every
      value but null passes it, nor of a union of nothing. */
  lemma TheUnknownIsNotReported(operand: Type, test: Type)
    ensures Exhausts(operand, test) ==> !test.kind.Unset? && Alternatives(operand) != []
    ensures test.kind.Unset? ==> (forall w: World, v: Value :: v.Object? ==> Passes(w, v, test))
  {
    if Exhausts(operand, test) {
      assert Alternatives(operand) == AlternativeSet(operand)[0].kind.members;
    }
  }

  lemma UnnamedAlternativeFails(operand: Type, test: Type)
    requires PlainUnion(operand) && (test.kind.Plain? || test.kind.Parameter?) && test.kind != operand.kind
    requires !AcceptsNull(operand) && !Exhausts(operand, test)
    ensures !CannotFail(operand, test)
  {
    var members := Alternatives(operand);
    var w := World((kind, tag) => kind != test.kind, kind => false);
    NothingOpenToNull(operand);
    var i :| 0 <= i < |members| && !Subsumes(test, members[i]);
    assert Holds(w, members[i], Object(0));
    assert Holds(w, AlternativeSet(operand)[0], Object(0));
    assert Holds(w, operand, Object(0)) && !Passes(w, Object(0), test);
  }

  lemma NothingOpenToNull(t: Type)
    requires AlternativeSet(t) != [] && !AcceptsNull(t)
    ensures Alternatives(t) == AlternativeSet(t)[0].kind.members && !AlternativeSet(t)[0].nullable
    ensures forall i :: 0 <= i < |Alternatives(t)| ==> !AcceptsNull(Alternatives(t)[i])
  {
    var union := AlternativeSet(t)[0];
    assert !AcceptsNull(union);
    assert forall i :: 0 <= i < |union.kind.members| ==> !AcceptsNull(union.kind.members[i]);
  }

  lemma NullHolds(w: World, t: Type)
    requires PlainUnion(t) && AcceptsNull(t)
    ensures Holds(w, t, Null)
  {
    var union := AlternativeSet(t)[0];
    if !t.nullable && !union.nullable {
      var i :| 0 <= i < |union.kind.members| && AcceptsNull(union.kind.members[i]);
      assert Holds(w, union.kind.members[i], Null);
    }
    assert !t.nullable ==> Holds(w, union, Null);
  }

  /** In normal form the report alone is exact. */
  lemma ReportIsExactInNormalForm(operand: Type, test: Type)
    requires PlainUnion(operand) && WellFormed(operand) && (test.kind.Plain? || test.kind.Parameter?)
    ensures CannotFail(operand, test) <==>
            Exhausts(operand, test) || (test.kind == operand.kind && !AcceptsNull(operand))
  {
    ExhaustsIffItCannotFail(operand, test);
    var members := Alternatives(operand);
    assert forall i :: 0 <= i < |members| ==> IsAlternative(members[i]);
  }
}
