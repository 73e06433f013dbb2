/** Matching the signature of a method against the trait method it implements,
    and what a successful match means for callers of the trait method. */
module TraitSignatures {
  import opened Options

  datatype Kind = VariantKind | Unsettled | Void | Other(id: nat)

  /** A data type, reduced to what signature matching asks of it.  A type that is not
      settled yet counts as Variant. */
  datatype Type = Type(kind: Kind, hard: bool) {
    predicate IsSet() {
      !kind.Unsettled?
    }

    predicate IsVariant() {
      kind.VariantKind? || kind.Unsettled?
    }
  }

  /** The rest parameter: none, one that takes anything, or one with a narrowing
      element type. */
  datatype Rest = NoRest | AnyRest | RestOf(element: Type)

  datatype Signature = Signature(params: seq<Type>, defaults: nat, rest: Rest, returns_: Option<Type>,
                                 isAsync: bool, isStatic: bool, typeParameters: nat)

  const INT_MAX := 0x7fff_ffff

  /** Type parameters and `Self` are substituted before matching.  The return
      type of the implementation is always known, possibly as Variant. */
  predicate WellFormed(s: Signature) {
    s.defaults <= |s.params| < INT_MAX
  }

  datatype Verdict = Matched | AsyncMismatch | SignatureMismatch

  /** `compatible(t, a)`: a value of type `a` may go where `t` is expected. */
  type Compatibility = (Type, Type) -> bool

  /** What the matching relies on: compatibility is a preorder, and everything
      may go where Variant is expected. */
  ghost predicate Coherent(compatible: Compatibility) {
    && (forall t :: compatible(t, t))
    && (forall t, u, a :: compatible(t, u) && compatible(u, a) ==> compatible(t, a))
    && (forall t: Type, a :: t.IsVariant() ==> compatible(t, a))
  }

  function MinArguments(s: Signature): int {
    |s.params| - s.defaults
  }

  function MaxArguments(s: Signature): int {
    if s.rest.NoRest? then |s.params| else INT_MAX
  }

  predicate ReturnMatches(compatible: Compatibility, required: Option<Type>, implementation: Type) {
    required.None? ||
    if implementation.IsVariant() then required.value.IsVariant()
    else if implementation.kind.Void? then !(required.value.hard && !required.value.kind.Void?)
    else required.value.IsSet() && implementation.IsSet() ==> compatible(required.value, implementation)
  }

  predicate ParameterMatches(compatible: Compatibility, required: Type, implementation: Type) {
    if required.IsVariant() && required.hard then implementation.IsVariant()
    else required.IsSet() && implementation.IsSet() ==> compatible(implementation, required)
  }

  predicate RestAcceptsRest(compatible: Compatibility, implementation: Rest, required: Rest) {
    if required.NoRest? then true
    else if implementation.NoRest? then false
    else if implementation.AnyRest? then true
    else if required.AnyRest? then false
    else compatible(implementation.element, required.element)
  }

  predicate RestAcceptsParameter(compatible: Compatibility, implementation: Rest, required: Type) {
    match implementation
    case NoRest => false
    case AnyRest => true
    case RestOf(element) =>
      if required.IsVariant() && required.hard then false
      else required.IsSet() ==> compatible(element, required)
  }

  predicate CountsMatch(required: Signature, implementation: Signature) {
    MinArguments(implementation) <= MinArguments(required) && MaxArguments(required) <= MaxArguments(implementation)
  }

  predicate ParametersMatch(compatible: Compatibility, required: Signature, implementation: Signature) {
    forall i :: 0 <= i < |required.params| && i < |implementation.params| ==>
      ParameterMatches(compatible, required.params[i], implementation.params[i])
  }

  predicate SurplusGoesToRest(compatible: Compatibility, required: Signature, implementation: Signature) {
    !implementation.rest.NoRest? ==>
      forall i :: |implementation.params| <= i < |required.params| ==>
        RestAcceptsParameter(compatible, implementation.rest, required.params[i])
  }

  predicate Matches(compatible: Compatibility, required: Signature, implementation: Signature, returned: Type) {
    && required.isStatic == implementation.isStatic
    && required.typeParameters == implementation.typeParameters
    && ReturnMatches(compatible, required.returns_, returned)
    && ArgumentsMatch(compatible, required, implementation)
  }

  predicate ArgumentsMatch(compatible: Compatibility, required: Signature, implementation: Signature) {
    && CountsMatch(required, implementation)
    && ParametersMatch(compatible, required, implementation)
    && RestAcceptsRest(compatible, implementation.rest, required.rest)
    && SurplusGoesToRest(compatible, required, implementation)
  }

  /** The match as the source accumulates it. */
  method ValidateTraitMethodSignature(compatible: Compatibility, required: Signature, implementation: Signature,
                                      returned: Type)
    returns (verdict: Verdict)
    ensures verdict == if required.isAsync != implementation.isAsync then AsyncMismatch
                       else if Matches(compatible, required, implementation, returned) then Matched
                            else SignatureMismatch
  {
    if required.isAsync != implementation.isAsync {
      return AsyncMismatch;
    }
    var valid := required.isStatic == implementation.isStatic;
    if required.typeParameters != implementation.typeParameters {
      valid := false;
    }
    valid := valid && ReturnMatches(compatible, required.returns_, returned);
    valid := valid && CountsMatch(required, implementation);
    ghost var before := valid;
    if valid {
      var i := 0;
      while i < |required.params| && i < |implementation.params|
        invariant 0 <= i <= |required.params| && i <= |implementation.params|
        invariant valid <==> forall j :: 0 <= j < i ==>
                  ParameterMatches(compatible, required.params[j], implementation.params[j])
      {
        valid := valid && ParameterMatches(compatible, required.params[i], implementation.params[i]);
        i := i + 1;
      }
    }
    assert valid <==> before && ParametersMatch(compatible, required, implementation);
    valid := valid && RestAcceptsRest(compatible, implementation.rest, required.rest);
    before := valid;
    if valid && !implementation.rest.NoRest? {
      var i := |implementation.params|;
      while i < |required.params|
        invariant |implementation.params| <= i
        invariant valid <==> forall j :: |implementation.params| <= j < i && j < |required.params| ==>
            RestAcceptsParameter(compatible, implementation.rest, required.params[j])
      {
        valid := valid && RestAcceptsParameter(compatible, implementation.rest, required.params[i]);
        i := i + 1;
      }
    }
    assert valid <==> before && SurplusGoesToRest(compatible, required, implementation);
    verdict := if valid then Matched else SignatureMismatch;
  }

  // ---------------------------------------------------------------------------
  // What a match is for.
  // ---------------------------------------------------------------------------

  /** An argument of type `a` may be passed as argument `i`. */
  predicate SlotAccepts(compatible: Compatibility, s: Signature, i: nat, a: Type) {
    if i < |s.params| then s.params[i].IsSet() ==> compatible(s.params[i], a)
    else match s.rest
      case NoRest => false
      case AnyRest => true
      case RestOf(element) => compatible(element, a)
  }

  predicate AcceptsCall(compatible: Compatibility, s: Signature, args: seq<Type>) {
    MinArguments(s) <= |args| && forall i :: 0 <= i < |args| ==> SlotAccepts(compatible, s, i, args[i])
  }

  /** Every call of the trait method is a call of the implementation. */
  ghost predicate Substitutable(compatible: Compatibility, required: Signature, implementation: Signature) {
    forall args :: AcceptsCall(compatible, required, args) ==> AcceptsCall(compatible, implementation, args)
  }

  const VARIANT := Type(VariantKind, true)

  /** The one comparison that the matching leaves out: the further fixed
      parameters of the implementation against what the required rest parameter
      takes, which is everything if it has no element type. */
  predicate FurtherParametersTakeRest(compatible: Compatibility, required: Signature, implementation: Signature) {
    forall j :: |required.params| <= j < |implementation.params| && implementation.params[j].IsSet() ==>
      match required.rest
      case NoRest => true
      case AnyRest => compatible(implementation.params[j], VARIANT)
      case RestOf(element) => compatible(implementation.params[j], element)
  }

  /** Nor does the matching compare with a parameter of the trait method whose type
      is not settled: its argument can be anything. */
  predicate UnsettledAreTaken(compatible: Compatibility, required: Signature, implementation: Signature) {
    forall i :: 0 <= i < |required.params| && !required.params[i].IsSet() ==>
      SlotAccepts(compatible, implementation, i, VARIANT)
  }

  /** Everything that the matching leaves out. */
  predicate LeftOutHolds(compatible: Compatibility, required: Signature, implementation: Signature) {
    && FurtherParametersTakeRest(compatible, required, implementation)
    && UnsettledAreTaken(compatible, required, implementation)
  }

  /** If the signatures match and compatibility is coherent, then every argument
      list that the trait method accepts, of any length and with any types, is
      accepted by the implementation, if and only if the implementation's
      further fixed parameters take what the required rest parameter takes, and
      its slots take anything where the trait method's parameter is not settled. */
  lemma MatchMeansSubstitutable(compatible: Compatibility, required: Signature, implementation: Signature,
                                returned: Type)
    requires Coherent(compatible) && WellFormed(required) && WellFormed(implementation)
    requires Matches(compatible, required, implementation, returned)
    ensures Substitutable(compatible, required, implementation) <==>
            LeftOutHolds(compatible, required, implementation)
  {
    ArgumentsMeanSubstitutable(compatible, required, implementation);
  }

  lemma ArgumentsMeanSubstitutable(compatible: Compatibility, required: Signature, implementation: Signature)
    requires Coherent(compatible) && WellFormed(required) && WellFormed(implementation)
    requires ArgumentsMatch(compatible, required, implementation)
    ensures Substitutable(compatible, required, implementation) <==>
            LeftOutHolds(compatible, required, implementation)
  {
    if LeftOutHolds(compatible, required, implementation) {
      forall args | AcceptsCall(compatible, required, args)
        ensures AcceptsCall(compatible, implementation, args)
      {
        forall i | 0 <= i < |args|
          ensures SlotAccepts(compatible, implementation, i, args[i])
        {
          assert compatible(VARIANT, args[i]);
          if i < |required.params| && !required.params[i].IsSet() {
            assert SlotAccepts(compatible, implementation, i, VARIANT);
          }
        }
      }
    }
    if Substitutable(compatible, required, implementation) {
      SubstitutableTakesLeftOut(compatible, required, implementation);
    }
  }

  lemma SubstitutableTakesLeftOut(compatible: Compatibility, required: Signature, implementation: Signature)
    requires Coherent(compatible) && WellFormed(required) && Substitutable(compatible, required, implementation)
    ensures LeftOutHolds(compatible, required, implementation)
  {
    forall j: nat | |required.params| <= j < |implementation.params| && !required.rest.NoRest?
      ensures SlotAccepts(compatible, implementation, j, RestArgument(required))
    {
      SlotsAreKept(compatible, required, implementation, j, RestArgument(required));
    }
    forall i: nat | i < |required.params| && !required.params[i].IsSet()
      ensures SlotAccepts(compatible, implementation, i, VARIANT)
    {
      SlotsAreKept(compatible, required, implementation, i, VARIANT);
    }
    assert FurtherParametersTakeRest(compatible, required, implementation) by {
      forall j: nat | |required.params| <= j < |implementation.params| && implementation.params[j].IsSet()
        ensures required.rest.NoRest? || compatible(implementation.params[j], RestArgument(required))
      {
        assert required.rest.NoRest? || SlotAccepts(compatible, implementation, j, RestArgument(required));
      }
    }
  }

  /** The usual case: no rest parameter is required, or the implementation has
      no more fixed parameters than the trait method. */
  lemma MatchSuffices(compatible: Compatibility, required: Signature, implementation: Signature, returned: Type)
    requires Coherent(compatible) && WellFormed(required) && WellFormed(implementation)
    requires Matches(compatible, required, implementation, returned)
    requires required.rest.NoRest? || |implementation.params| <= |required.params|
    requires forall i :: 0 <= i < |required.params| ==> required.params[i].IsSet()
    ensures Substitutable(compatible, required, implementation)
  {
    MatchMeansSubstitutable(compatible, required, implementation, returned);
  }

  /** `func f(...xs: Array[A])` is matched by `func f(x: B = b, ...ys)` although
      `B` and `A` are unrelated: a call with one `A` is lost. */
  lemma MatchCanMissFurtherParameters()
    ensures exists compatible, required, implementation, returned ::
              && Coherent(compatible) && WellFormed(required) && WellFormed(implementation)
              && Matches(compatible, required, implementation, returned)
              && !Substitutable(compatible, required, implementation)
  {
    var compatible: Compatibility := (t: Type, a: Type) => t == a || t.IsVariant();
    var a, b := Type(Other(1), true), Type(Other(2), true);
    var required := Signature([], 0, RestOf(a), None, false, false, 0);
    var implementation := Signature([b], 1, AnyRest, None, false, false, 0);
    assert Coherent(compatible);
    assert Matches(compatible, required, implementation, a);
    assert AcceptsCall(compatible, required, [a]);
    assert !SlotAccepts(compatible, implementation, 0, [a][0]);
    assert !AcceptsCall(compatible, implementation, [a]);
  }

  // ---------------------------------------------------------------------------
  // The matching refuses nothing that is substitutable.
  // ---------------------------------------------------------------------------

  /** Only Variant takes everything, and rest elements narrow. */
  ghost predicate VariantIsTop(compatible: Compatibility, required: Signature, implementation: Signature) {
    && (forall t: Type :: compatible(t, VARIANT) ==> t.IsVariant())
    && (implementation.rest.RestOf? ==> !implementation.rest.element.IsVariant())
  }

  /** What the rest of the trait method takes for sure. */
  function RestArgument(s: Signature): Type {
    if s.rest.RestOf? then s.rest.element else VARIANT
  }

  /** The parameter types themselves, with argument `i` replaced by `a`, and as many
      further arguments as asked for. */
  function Call(s: Signature, count: nat, i: nat, a: Type): (args: seq<Type>)
    ensures |args| == count
    ensures forall k :: 0 <= k < count ==>
              args[k] == if k == i then a else if k < |s.params| then s.params[k] else RestArgument(s)
  {
    seq(count, k requires 0 <= k < count =>
      if k == i then a else if k < |s.params| then s.params[k] else RestArgument(s))
  }

  lemma CallIsAccepted(compatible: Compatibility, s: Signature, count: nat, i: nat, a: Type)
    requires Coherent(compatible) && WellFormed(s) && MinArguments(s) <= count
    requires count <= |s.params| || !s.rest.NoRest?
    requires i < count ==> SlotAccepts(compatible, s, i, a)
    ensures AcceptsCall(compatible, s, Call(s, count, i, a))
  {
  }

  /** What one slot of the trait method takes, the slot of the implementation does. */
  lemma SlotsAreKept(compatible: Compatibility, required: Signature, implementation: Signature, i: nat, a: Type)
    requires Coherent(compatible) && WellFormed(required) && Substitutable(compatible, required, implementation)
    requires i < |required.params| || !required.rest.NoRest?
    requires SlotAccepts(compatible, required, i, a)
    ensures SlotAccepts(compatible, implementation, i, a)
  {
    var count := if i < |required.params| then |required.params| else i + 1;
    CallIsAccepted(compatible, required, count, i, a);
    assert Call(required, count, i, a)[i] == a;
  }

  lemma CountsAreKept(compatible: Compatibility, required: Signature, implementation: Signature)
    requires Coherent(compatible) && WellFormed(required) && WellFormed(implementation)
    requires Substitutable(compatible, required, implementation)
    ensures CountsMatch(required, implementation)
  {
    var fewest, none := MinArguments(required), |required.params| + |implementation.params| + 1;
    CallIsAccepted(compatible, required, fewest, none, VARIANT);
    assert AcceptsCall(compatible, implementation, Call(required, fewest, none, VARIANT));
    if implementation.rest.NoRest? {
      if required.rest.NoRest? {
        var last := |implementation.params|;
        if last < |required.params| {
          SlotsAreKept(compatible, required, implementation, last, required.params[last]);
        }
      } else {
        SlotsAreKept(compatible, required, implementation, none, RestArgument(required));
      }
    }
  }

  /** Every implementation that takes all calls of the trait method matches it as
      far as the arguments go, when parameter types are known and only Variant
      takes everything.  So the matching and the comparison it leaves out decide
      substitutability. */
  lemma SubstitutableIffArgumentsMatch(compatible: Compatibility, required: Signature, implementation: Signature)
    requires Coherent(compatible) && VariantIsTop(compatible, required, implementation)
    requires WellFormed(required) && WellFormed(implementation)
    ensures Substitutable(compatible, required, implementation) <==>
            ArgumentsMatch(compatible, required, implementation)
            && LeftOutHolds(compatible, required, implementation)
  {
    if Substitutable(compatible, required, implementation) {
      CountsAreKept(compatible, required, implementation);
      forall i | 0 <= i < |required.params|
        ensures i < |implementation.params| ==>
                ParameterMatches(compatible, required.params[i], implementation.params[i])
        ensures |implementation.params| <= i && !implementation.rest.NoRest? ==>
                RestAcceptsParameter(compatible, implementation.rest, required.params[i])
      {
        SlotsAreKept(compatible, required, implementation, i, required.params[i]);
        if required.params[i].IsVariant() {
          SlotsAreKept(compatible, required, implementation, i, VARIANT);
        }
      }
      if !required.rest.NoRest? {
        var beyond := |required.params| + |implementation.params|;
        SlotsAreKept(compatible, required, implementation, beyond, RestArgument(required));
      }
      assert ArgumentsMatch(compatible, required, implementation);
    }
    if ArgumentsMatch(compatible, required, implementation) {
      ArgumentsMeanSubstitutable(compatible, required, implementation);
    }
  }

  // ---------------------------------------------------------------------------
  // What a match means for the result.
  // ---------------------------------------------------------------------------

  /** Whatever the implementation can return may go where the result of the trait
      method is expected. */
  ghost predicate ResultsFit(compatible: Compatibility, required: Type, returned: Type) {
    forall a: Type :: compatible(returned, a) ==> compatible(required, a)
  }

  lemma FitIsCompatible(compatible: Compatibility, required: Type, returned: Type)
    requires Coherent(compatible)
    ensures ResultsFit(compatible, required, returned) <==> compatible(required, returned)
  {
  }

  /** A match of known results that are neither Variant nor void means that they
      fit, and they fit exactly if the results match. */
  lemma ResultMatchesIffItFits(compatible: Compatibility, required: Type, returned: Type)
    requires Coherent(compatible) && !returned.IsVariant() && !returned.kind.Void?
    ensures ReturnMatches(compatible, Some(required), returned) <==> ResultsFit(compatible, required, returned)
  {
    FitIsCompatible(compatible, required, returned);
  }

  /** A Variant result is accepted only for Variant, although it would also fit any
      other type that takes everything. */
  lemma VariantResults(compatible: Compatibility, required: Type, returned: Type)
    requires Coherent(compatible) && returned.IsVariant()
    ensures ReturnMatches(compatible, Some(required), returned) <==> required.IsVariant()
    ensures ResultsFit(compatible, required, returned) <==> forall a: Type :: compatible(required, a)
  {
    if ResultsFit(compatible, required, returned) {
      forall a: Type
        ensures compatible(required, a)
      {
        assert compatible(returned, a);
      }
    }
  }

  /** A method without a result may implement one whose result is void or soft. */
  lemma VoidResults(compatible: Compatibility, required: Type, returned: Type)
    requires Coherent(compatible) && returned.kind.Void?
    ensures ReturnMatches(compatible, Some(required), returned) <==> required.kind.Void? || !required.hard
    ensures ResultsFit(compatible, required, returned) <==> compatible(required, returned)
  {
    FitIsCompatible(compatible, required, returned);
  }

  /** When does the result of a matching implementation fit?  Always if the
      implementation has one.  Otherwise exactly if void may go where the soft result
      is expected, which the match does not ask. */
  lemma MatchedResultsFit(compatible: Compatibility, required: Signature, implementation: Signature, returned: Type)
    requires Coherent(compatible) && Matches(compatible, required, implementation, returned)
    requires required.returns_.Some?
    ensures var r := required.returns_.value;
            if !returned.kind.Void?
            then ResultsFit(compatible, r, returned)
            else ResultsFit(compatible, r, returned) <==> compatible(r, returned)
  {
    FitIsCompatible(compatible, required.returns_.value, returned);
  }

  /** What is needed for the result to be accepted: that none is required, or that
      it fits and is not nothing for a hard result. */
  ghost predicate ResultIsAcceptable(compatible: Compatibility, required: Option<Type>, returned: Type) {
    required.Some? ==>
      && ResultsFit(compatible, required.value, returned)
      && (returned.kind.Void? ==> required.value.kind.Void? || !required.value.hard)
  }

  /** No implementation is refused that takes all calls of the trait method, whose
      result is acceptable, and that agrees in being static and in the number of
      type parameters. */
  lemma FittingImplementationsMatch(compatible: Compatibility, required: Signature, implementation: Signature,
                                    returned: Type)
    requires Coherent(compatible) && VariantIsTop(compatible, required, implementation)
    requires WellFormed(required) && WellFormed(implementation)
    requires required.isStatic == implementation.isStatic && required.typeParameters == implementation.typeParameters
    requires Substitutable(compatible, required, implementation)
    requires ResultIsAcceptable(compatible, required.returns_, returned)
    ensures Matches(compatible, required, implementation, returned)
  {
    SubstitutableIffArgumentsMatch(compatible, required, implementation);
    if required.returns_.Some? {
      FitIsCompatible(compatible, required.returns_.value, returned);
    }
  }

  /** What a match says in all, when the implementation has a typed result and what the
      matching leaves out holds: the same in being static and in
      the number of type parameters, a result that fits, and arguments for every
      call of the trait method. */
  lemma MatchIff(compatible: Compatibility, required: Signature, implementation: Signature, returned: Type)
    requires Coherent(compatible) && VariantIsTop(compatible, required, implementation)
    requires WellFormed(required) && WellFormed(implementation)
    requires !returned.IsVariant() && !returned.kind.Void?
    requires LeftOutHolds(compatible, required, implementation)
    ensures Matches(compatible, required, implementation, returned) <==>
            && required.isStatic == implementation.isStatic
            && required.typeParameters == implementation.typeParameters
            && (required.returns_.Some? ==> ResultsFit(compatible, required.returns_.value, returned))
            && Substitutable(compatible, required, implementation)
  {
    SubstitutableIffArgumentsMatch(compatible, required, implementation);
    if required.returns_.Some? {
      ResultMatchesIffItFits(compatible, required.returns_.value, returned);
    }
  }

  /** Whatever compatibility is, also where a Variant may go anywhere: what is
      declared Variant in the trait is Variant in a matching implementation, or taken
      by a rest parameter without an element type. */
  lemma DeclaredVariantsStay(compatible: Compatibility, required: Signature, implementation: Signature, returned: Type,
                             i: nat)
    requires Matches(compatible, required, implementation, returned)
    requires i < |required.params| < INT_MAX && required.params[i].IsVariant() && required.params[i].hard
    ensures if i < |implementation.params| then implementation.params[i].IsVariant() else implementation.rest.AnyRest?
    ensures returned.IsVariant() && required.returns_.Some? ==> required.returns_.value.IsVariant()
  {
    if i >= |implementation.params| {
      assert MaxArguments(required) <= MaxArguments(implementation);
      assert RestAcceptsParameter(compatible, implementation.rest, required.params[i]);
    }
  }

  /** Where a Variant may go anywhere, an untyped parameter of the trait may become a
      typed one, or part of a typed rest; one that is declared Variant may not. */
  lemma UntypedMayBecomeTyped()
    ensures exists compatible: Compatibility, untyped: Type, declared: Type, typed: Type ::
              && untyped.IsVariant() && !untyped.hard && declared.IsVariant() && declared.hard && !typed.IsVariant()
              && (forall t: Type, a: Type :: compatible(t, a) <==> t == a || t.IsVariant() || a.IsVariant())
              && Matches(compatible, Taking(untyped), Taking(typed), typed)
              && Matches(compatible, Taking(untyped), TakingRest(typed), typed)
              && !Matches(compatible, Taking(declared), Taking(typed), typed)
              && !Matches(compatible, Taking(declared), TakingRest(typed), typed)
  {
    var compatible: Compatibility := (t: Type, a: Type) => t == a || t.IsVariant() || a.IsVariant();
    var untyped, declared, typed := Type(VariantKind, false), VARIANT, Type(Other(1), true);
    assert RestAcceptsParameter(compatible, RestOf(typed), untyped);
    assert Matches(compatible, Taking(untyped), Taking(typed), typed);
    assert Matches(compatible, Taking(untyped), TakingRest(typed), typed);
    assert !ParameterMatches(compatible, Taking(declared).params[0], Taking(typed).params[0]);
    assert !RestAcceptsParameter(compatible, TakingRest(typed).rest, Taking(declared).params[0]);
  }

  function Taking(t: Type): Signature {
    Signature([t], 0, NoRest, None, false, false, 0)
  }

  function TakingRest(t: Type): Signature {
    Signature([], 0, RestOf(t), None, false, false, 0)
  }

  /** A method without a result is accepted for a soft `int`, although nothing is no
      `int`. */
  lemma MatchCanReturnNothing()
    ensures exists compatible, required, implementation, returned ::
              && Coherent(compatible) && WellFormed(required) && WellFormed(implementation)
              && Matches(compatible, required, implementation, returned) && required.returns_.Some?
              && !ResultsFit(compatible, required.returns_.value, returned)
  {
    var compatible: Compatibility := (t: Type, a: Type) => t == a || t.IsVariant();
    var softInt, nothing := Type(Other(1), false), Type(Void, true);
    var required := Signature([], 0, NoRest, Some(softInt), false, false, 0);
    var implementation := Signature([], 0, NoRest, Some(nothing), false, false, 0);
    assert Matches(compatible, required, implementation, nothing);
    assert compatible(nothing, nothing) && !compatible(softInt, nothing);
  }
}
