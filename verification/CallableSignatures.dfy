/** Static signatures of `Callable` values and how `bind`, `bindv` and `unbind`
    transform them.  `bindv` of an array literal is `bind` of its elements. */
module CallableSignatures {
  import opened Options

  /** A data type, reduced to what the checks of bound values ask of it. */
  datatype Type = Type(id: nat, hard: bool, variant: bool)

  const VARIANT := Type(0, true, true)

  /** Type compatibility and runtime narrowing are given; `compatible(p, a)`
      says that a value of type `a` may go where `p` is expected. */
  datatype Rules = Rules(strictDynamic: bool, compatible: (Type, Type) -> bool, narrows: (Type, Type) -> bool)

  datatype Signature = Signature(params: seq<Type>, defaults: nat, vararg: bool, rest: Option<Type>, extra: seq<int>,
                                 unbound: nat)

  /** A callable is signatureless, bound with too many values, or described by
      a signature. */
  datatype CallableType = Plain | OverBound | Explicit(sig: Signature)

  function Min(a: int, b: int): int { if a < b then a else b }

  function Max(a: int, b: int): int { if a < b then b else a }

  function Clamp(x: int, lo: int, hi: int): int { if x < lo then lo else if x > hi then hi else x }

  /** The shape kept by all transformations: the extra arities lie below the
      contiguous ones, the last `unbound` parameters are the Variant slots that
      `unbind` appended, and only variadic callables have a rest type. */
  predicate Valid(sig: Signature) {
    && sig.defaults <= |sig.params|
    && sig.unbound <= |sig.params|
    && (forall i :: |sig.params| - sig.unbound <= i < |sig.params| ==> sig.params[i].variant)
    && (forall i :: 0 <= i < |sig.extra| ==> 0 <= sig.extra[i] < |sig.params| - sig.defaults)
    && (sig.rest.Some? ==> sig.vararg)
  }

  /** May a call pass `count` arguments?  `offset` arguments are synthetic. */
  predicate AcceptsCount(count: int, params: int, defaults: int, vararg: bool, extra: seq<int>, offset: int) {
    (count >= params - defaults && (vararg || count <= params)) ||
    exists i :: 0 <= i < |extra| && extra[i] + offset == count
  }

  predicate Admits(sig: Signature, count: int) {
    AcceptsCount(count, |sig.params|, sig.defaults, sig.vararg, sig.extra, 0)
  }

  /** `rpc_id` prepends the peer id to the parameters. */
  predicate RpcIdAdmits(sig: Signature, count: int) {
    AcceptsCount(count, |sig.params| + 1, sig.defaults, sig.vararg, sig.extra, 1)
  }

  /** The loop form of the arity check. */
  method CheckCount(count: int, params: int, defaults: int, vararg: bool, extra: seq<int>, offset: int)
    returns (ok: bool)
    ensures ok == AcceptsCount(count, params, defaults, vararg, extra, offset)
  {
    if count >= params - defaults && (vararg || count <= params) {
      return true;
    }
    for i := 0 to |extra|
      invariant forall j :: 0 <= j < i ==> extra[j] + offset != count
    {
      if extra[i] + offset == count {
        return true;
      }
    }
    return false;
  }

  /** The two arity errors of a call. */
  method ReportsArity(count: nat, params: nat, defaults: nat, vararg: bool, extra: seq<int>, offset: int)
    returns (tooFew: bool, tooMany: bool)
    ensures tooFew || tooMany <==> !AcceptsCount(count, params, defaults, vararg, extra, offset)
    ensures tooFew ==> count < params - defaults
    ensures tooMany ==> count > params && !vararg
  {
    var ok := CheckCount(count, params, defaults, vararg, extra, offset);
    tooFew := count < params - defaults && !ok;
    tooMany := !vararg && count > params && !ok;
  }

  /** `rpc_id` admits one argument more than the target. */
  lemma RpcIdAddsOneArgument(sig: Signature, count: nat)
    requires Valid(sig)
    ensures RpcIdAdmits(sig, count) <==> count >= 1 && Admits(sig, count - 1)
  {
    if i :| 0 <= i < |sig.extra| && sig.extra[i] + 1 == count {
      assert sig.extra[i] + 0 == count - 1;
    }
    if i :| 0 <= i < |sig.extra| && sig.extra[i] + 0 == count - 1 {
      assert sig.extra[i] + 1 == count;
    }
  }

  // ---------------------------------------------------------------------------
  // Bound values.
  // ---------------------------------------------------------------------------

  /** The value certainly cannot be passed where `expected` is required. */
  predicate Conflicts(rules: Rules, arg: Type, expected: Type) {
    if !expected.hard || expected.variant then false
    else if arg.variant || !arg.hard then rules.strictDynamic && arg.variant
    else !rules.compatible(expected, arg) && !rules.narrows(expected, arg)
  }

  /** The value certainly can be passed. */
  predicate CanFill(rules: Rules, arg: Type, param: Type) {
    if !param.hard then true
    else if arg.variant || !arg.hard then false
    else rules.compatible(param, arg)
  }

  predicate RestConflict(rules: Rules, sig: Signature, arg: Type) {
    sig.rest.Some? && Conflicts(rules, arg, sig.rest.value)
  }

  lemma ConflictExcludesFit(rules: Rules, arg: Type, param: Type)
    ensures !(Conflicts(rules, arg, param) && CanFill(rules, arg, param))
  {
  }

  /** Bound values beyond the arguments that an earlier `unbind` discards. */
  function Reaching(sig: Signature, args: seq<Type>): nat {
    Max(|args| - sig.unbound, 0)
  }

  /** The parameters of the target itself. */
  function TargetFixed(sig: Signature): nat {
    Max(|sig.params| - sig.unbound, 0)
  }

  /** A call with `n` arguments passes bound value `i` at position `n + i`. */
  predicate NoConflictAt(rules: Rules, sig: Signature, args: seq<Type>, n: int) {
    forall i :: 0 <= i < Reaching(sig, args) ==>
      if 0 <= n + i < TargetFixed(sig) then !Conflicts(rules, args[i], sig.params[n + i])
      else !RestConflict(rules, sig, args[i])
  }

  predicate FitsAt(rules: Rules, sig: Signature, args: seq<Type>, n: int) {
    forall i :: 0 <= i < Reaching(sig, args) ==>
      if 0 <= n + i < TargetFixed(sig) then CanFill(rules, args[i], sig.params[n + i])
      else !RestConflict(rules, sig, args[i])
  }

  // ---------------------------------------------------------------------------
  // Binding values to a callable of fixed arity.
  // ---------------------------------------------------------------------------

  /** No bound value conflicts with the parameter it would fill. */
  predicate SlotsFit(rules: Rules, sig: Signature, args: seq<Type>, start: int) {
    forall i :: 0 <= i < Reaching(sig, args) && 0 <= start + i < |sig.params| ==>
      !Conflicts(rules, args[i], sig.params[start + i])
  }

  datatype Survival = Survival(defaults: nat, extra: seq<int>)

  /** The arities `top - 1`, `top - 2`, … `top - shifts` that survive: an
      unbroken run as a default count, the others one by one. */
  function Survive(top: int, shifts: nat, keep: int -> bool): Survival {
    if shifts == 0 then Survival(0, []) else
    var s := Survive(top, shifts - 1, keep);
    if !keep(top - shifts) then s
    else if shifts == s.defaults + 1 then s.(defaults := shifts)
    else s.(extra := s.extra + [top - shifts])
  }

  lemma {:induction false} SurvivalIsExact(top: int, shifts: nat, keep: int -> bool)
    ensures var s := Survive(top, shifts, keep);
            && s.defaults <= shifts
            && (forall i :: 0 <= i < |s.extra| ==> top - shifts <= s.extra[i] < top - s.defaults)
            && forall n {:trigger keep(n)} :: (top - s.defaults <= n < top || n in s.extra) <==>
               (top - shifts <= n < top && keep(n))
  {
    if shifts > 0 {
      SurvivalIsExact(top, shifts - 1, keep);
      var s := Survive(top, shifts, keep);
      assert forall i :: 0 <= i < |s.extra| ==> s.extra[i] in s.extra;
    }
  }

  /** The arities left of an extra arity of the source. */
  predicate Preserves(rules: Rules, sig: Signature, args: seq<Type>, extra: int) {
    0 <= extra - |args| && extra <= |sig.params| && SlotsFit(rules, sig, args, extra - |args|)
  }

  /** What remains of the first `upto` extra arities of the source. */
  function Preserve(rules: Rules, sig: Signature, args: seq<Type>, upto: nat): seq<int>
    requires upto <= |sig.extra|
  {
    if upto == 0 then [] else
    Preserve(rules, sig, args, upto - 1) +
    if Preserves(rules, sig, args, sig.extra[upto - 1]) then [sig.extra[upto - 1] - |args|] else []
  }

  function PreserveAll(rules: Rules, sig: Signature, args: seq<Type>): seq<int> {
    Preserve(rules, sig, args, |sig.extra|)
  }

  lemma {:induction false} PreserveIsExact(rules: Rules, sig: Signature, args: seq<Type>, upto: nat, n: int)
    requires upto <= |sig.extra|
    ensures n in Preserve(rules, sig, args, upto) <==>
            n + |args| in sig.extra[..upto] && Preserves(rules, sig, args, n + |args|)
  {
    if upto > 0 {
      PreserveIsExact(rules, sig, args, upto - 1, n);
      assert sig.extra[..upto] == sig.extra[..upto - 1] + [sig.extra[upto - 1]];
    }
  }

  /** The arities below the parameter count that the bound values leave. */
  function FixedSurvival(rules: Rules, sig: Signature, args: seq<Type>): Survival
    requires |args| <= |sig.params|
  {
    var top := |sig.params| - |args|;
    Survive(top, Min(sig.defaults, top), n => SlotsFit(rules, sig, args, n))
  }

  function BindFixed(rules: Rules, sig: Signature, args: seq<Type>): CallableType {
    if |args| > |sig.params| then OverBound else
    var top := |sig.params| - |args|;
    var s := FixedSurvival(rules, sig, args);
    Explicit(Signature(sig.params[..top], s.defaults, false, sig.rest,
                       s.extra + PreserveAll(rules, sig, args), Max(sig.unbound - |args|, 0)))
  }

  method SlotsFitFrom(rules: Rules, sig: Signature, args: seq<Type>, start: nat) returns (fits: bool)
    requires start + Reaching(sig, args) <= |sig.params|
    ensures fits == SlotsFit(rules, sig, args, start)
  {
    fits := true;
    var i := 0;
    while i < Reaching(sig, args) && fits
      invariant 0 <= i <= Reaching(sig, args)
      invariant fits ==> forall j :: 0 <= j < i ==> !Conflicts(rules, args[j], sig.params[start + j])
      invariant !fits ==> !SlotsFit(rules, sig, args, start)
    {
      fits := !Conflicts(rules, args[i], sig.params[start + i]);
      i := i + 1;
    }
  }

  method PreserveExtras(rules: Rules, sig: Signature, args: seq<Type>) returns (extra: seq<int>)
    ensures extra == PreserveAll(rules, sig, args)
  {
    extra := [];
    for i := 0 to |sig.extra|
      invariant extra == Preserve(rules, sig, args, i)
    {
      var remaining := sig.extra[i] - |args|;
      if remaining < 0 || sig.extra[i] > |sig.params| {
        continue;
      }
      var fits := SlotsFitFrom(rules, sig, args, remaining);
      if fits {
        extra := extra + [remaining];
      }
    }
  }

  method SurviveFixed(rules: Rules, sig: Signature, args: seq<Type>) returns (defaults: nat, extra: seq<int>)
    requires Valid(sig) && |args| <= |sig.params|
    ensures Survival(defaults, extra) == FixedSurvival(rules, sig, args)
  {
    var top := |sig.params| - |args|;
    defaults, extra := 0, [];
    ghost var keep := n => SlotsFit(rules, sig, args, n);
    var shift := 1;
    while shift <= Min(sig.defaults, top)
      invariant 1 <= shift <= Min(sig.defaults, top) + 1
      invariant Survival(defaults, extra) == Survive(top, shift - 1, keep)
    {
      var fits := SlotsFitFrom(rules, sig, args, top - shift);
      if fits {
        if shift == defaults + 1 {
          defaults := shift;
        } else {
          extra := extra + [top - shift];
        }
      }
      shift := shift + 1;
    }
  }

  method BindFixedArity(rules: Rules, sig: Signature, args: seq<Type>) returns (result: CallableType)
    requires Valid(sig)
    ensures result == BindFixed(rules, sig, args)
  {
    if |args| > |sig.params| {
      return OverBound;
    }
    var top := |sig.params| - |args|;
    var defaults, extra := SurviveFixed(rules, sig, args);
    var preserved := PreserveExtras(rules, sig, args);
    result := Explicit(Signature(sig.params[..top], defaults, false, sig.rest, extra + preserved,
                                 Max(sig.unbound - |args|, 0)));
  }

  lemma BindFixedIsValid(rules: Rules, sig: Signature, args: seq<Type>)
    requires Valid(sig) && !sig.vararg && |args| <= |sig.params|
    ensures BindFixed(rules, sig, args).Explicit? && Valid(BindFixed(rules, sig, args).sig)
  {
    var top := |sig.params| - |args|;
    var keep := (n: int) => SlotsFit(rules, sig, args, n);
    var s := Survive(top, Min(sig.defaults, top), keep);
    var r := BindFixed(rules, sig, args).sig;
    var preserved := PreserveAll(rules, sig, args);
    SurvivalIsExact(top, Min(sig.defaults, top), keep);
    forall e | e in preserved
      ensures 0 <= e < top - s.defaults
    {
      PreserveIsExact(rules, sig, args, |sig.extra|, e);
      assert e + |args| in sig.extra;
    }
    forall i | 0 <= i < |r.extra|
      ensures 0 <= r.extra[i] < top - s.defaults
    {
      if i < |s.extra| {
        assert r.extra[i] == s.extra[i];
      } else {
        assert r.extra[i] == preserved[i - |s.extra|] && preserved[i - |s.extra|] in preserved;
      }
    }
  }

  /** Binding to a fixed arity is exact: the result takes `n` arguments if and
      only if the source takes them together with the bound values, and either
      all parameters are supplied or no bound value conflicts with the slot it
      falls into. */
  lemma BindFixedIsExact(rules: Rules, sig: Signature, args: seq<Type>, n: nat)
    requires Valid(sig) && !sig.vararg && |args| <= |sig.params|
    ensures var r := BindFixed(rules, sig, args);
            r.Explicit? &&
            (Admits(r.sig, n) <==>
             Admits(sig, n + |args|) && (n == |sig.params| - |args| || NoConflictAt(rules, sig, args, n)))
  {
    var top := |sig.params| - |args|;
    var keep := (n: int) => SlotsFit(rules, sig, args, n);
    var s := Survive(top, Min(sig.defaults, top), keep);
    var preserved := PreserveAll(rules, sig, args);
    assert Admits(BindFixed(rules, sig, args).sig, n) <==>
           top - s.defaults <= n <= top || n in s.extra || n in preserved by {
      AdmitsAsMembership(BindFixed(rules, sig, args).sig, n);
    }
    assert n in preserved <==> n + |args| in sig.extra && n <= top && keep(n) by {
      PreserveIsExact(rules, sig, args, |sig.extra|, n);
      assert sig.extra[..|sig.extra|] == sig.extra;
    }
    assert top - s.defaults <= n < top || n in s.extra <==> top - Min(sig.defaults, top) <= n < top && keep(n) by {
      SurvivalIsExact(top, Min(sig.defaults, top), keep);
    }
    AdmitsAsMembership(sig, n + |args|);
    if n <= top {
      SlotsAreLandings(rules, sig, args, n);
    }
  }

  lemma AdmitsAsMembership(sig: Signature, n: int)
    ensures Admits(sig, n) <==>
            (n >= |sig.params| - sig.defaults && (sig.vararg || n <= |sig.params|)) || n in sig.extra
  {
    if i :| 0 <= i < |sig.extra| && sig.extra[i] == n {
      assert sig.extra[i] + 0 == n;
    }
  }

  /** Below the fixed arity every bound value that reaches the target fills a
      parameter of the target itself. */
  lemma SlotsAreLandings(rules: Rules, sig: Signature, args: seq<Type>, n: nat)
    requires Valid(sig) && n + |args| <= |sig.params|
    ensures SlotsFit(rules, sig, args, n) == NoConflictAt(rules, sig, args, n)
  {
    assert n + Reaching(sig, args) <= TargetFixed(sig) || Reaching(sig, args) == 0;
  }

  // ---------------------------------------------------------------------------
  // Binding values to a variadic callable.
  // ---------------------------------------------------------------------------

  /** How many bound values fill parameters when the call passes `n` arguments. */
  function ParameterFilled(sig: Signature, args: seq<Type>, n: int): nat {
    Clamp(TargetFixed(sig) - n, 0, Reaching(sig, args))
  }

  predicate EnoughFilled(sig: Signature, args: seq<Type>, n: int) {
    var omitted := |sig.params| - n;
    var boundFilled := if omitted > 0 then Min(omitted, |args|) else 0;
    omitted - boundFilled <= Min(sig.defaults, |sig.params|)
  }

  predicate AcceptsArity(rules: Rules, sig: Signature, args: seq<Type>, n: nat) {
    |sig.params| - n <= 0 ||
    (EnoughFilled(sig, args, n)
     && (forall i :: 0 <= i < ParameterFilled(sig, args, n) && n + i < |sig.params| ==>
         CanFill(rules, args[i], sig.params[n + i]))
     && (forall i :: ParameterFilled(sig, args, n) <= i < Reaching(sig, args) ==> !RestConflict(rules, sig, args[i])))
  }

  predicate RulesOutArity(rules: Rules, sig: Signature, args: seq<Type>, n: nat) {
    || !EnoughFilled(sig, args, n)
    || (exists i ::
          0 <= i < ParameterFilled(sig, args, n) && n + i < |sig.params| &&
          Conflicts(rules, args[i], sig.params[n + i]))
    || (exists i :: ParameterFilled(sig, args, n) <= i < Reaching(sig, args) && RestConflict(rules, sig, args[i]))
  }

  function Consumed(sig: Signature, args: seq<Type>): nat {
    Min(|args|, sig.unbound)
  }

  /** A bound value that would fill a parameter at few arguments reaches the
      rest tail at many; a conflict there ends the variadic tail. */
  predicate StaysVariadic(rules: Rules, sig: Signature, args: seq<Type>) {
    forall i :: 0 <= i < Min(TargetFixed(sig), Reaching(sig, args)) ==> !RestConflict(rules, sig, args[i])
  }

  function HighestCandidate(rules: Rules, sig: Signature, args: seq<Type>): int {
    |sig.params| - Consumed(sig, args) - if StaysVariadic(rules, sig, args) then 0 else 1
  }

  function Arities(highest: int, keep: nat -> bool): (s: seq<int>)
    ensures forall i :: 0 <= i < |s| ==> 0 <= s[i] <= highest
    ensures forall i, j :: 0 <= i < j < |s| ==> s[i] < s[j]
    decreases highest + 1
  {
    if highest < 0 then [] else Arities(highest - 1, keep) + if keep(highest) then [highest] else []
  }

  lemma {:induction false} AritiesAreExact(highest: int, keep: nat -> bool)
    ensures forall n: nat :: n in Arities(highest, keep) <==> n <= highest && keep(n)
    decreases highest + 1
  {
    if highest >= 0 {
      AritiesAreExact(highest - 1, keep);
    }
  }

  /** The proven arities, or the ones not ruled out if none is proven. */
  function Surviving(rules: Rules, sig: Signature, args: seq<Type>): (s: seq<int>)
    ensures forall i :: 0 <= i < |s| ==> 0 <= s[i] <= HighestCandidate(rules, sig, args)
    ensures forall i, j :: 0 <= i < j < |s| ==> s[i] < s[j]
  {
    var highest := HighestCandidate(rules, sig, args);
    var allowed := Arities(highest, (n: nat) => AcceptsArity(rules, sig, args, n));
    if allowed == [] then Arities(highest, (n: nat) => !RulesOutArity(rules, sig, args, n)) else allowed
  }

  /** The start of the run of consecutive numbers that ends at index `i`. */
  function RunStart(s: seq<int>, i: nat): (j: nat)
    requires i < |s|
    ensures j <= i
  {
    if i > 0 && s[i - 1] == s[i] - 1 then RunStart(s, i - 1) else i
  }

  lemma {:induction false} RunIsContiguous(s: seq<int>, i: nat)
    requires i < |s| && forall a, b :: 0 <= a < b < |s| ==> s[a] < s[b]
    ensures var j := RunStart(s, i);
            s[j] == s[i] - (i - j) && forall a :: j <= a <= i ==> s[a] == s[j] + (a - j)
  {
    if i > 0 && s[i - 1] == s[i] - 1 {
      RunIsContiguous(s, i - 1);
    }
  }

  /** The signature for the arities `s`: the last run of consecutive numbers
      becomes the parameters with their defaults, the others are listed. */
  function Compressed(sig: Signature, args: seq<Type>, s: seq<int>, start: nat, stays: bool,
                      preserved: seq<int>): Signature
    requires start < |s| && 0 <= s[start] <= s[|s| - 1] <= |sig.params| && Consumed(sig, args) <= sig.unbound
  {
    var highest := s[|s| - 1];
    Signature(sig.params[..highest], highest - s[start], stays, if stays then sig.rest else None,
              s[..start] + preserved, sig.unbound - Consumed(sig, args))
  }

  function BindVariadic(rules: Rules, sig: Signature, args: seq<Type>): CallableType
    requires Valid(sig)
  {
    var s := Surviving(rules, sig, args);
    if s == [] then Plain else
    Explicit(Compressed(sig, args, s, RunStart(s, |s| - 1), StaysVariadic(rules, sig, args),
                        PreserveAll(rules, sig, args)))
  }

  /** A bind reports an error if a bound value conflicts with the rest type at
      every arity, or if no arity is left for the bound values. */
  predicate ReportsVariadic(rules: Rules, sig: Signature, args: seq<Type>) {
    (exists i :: TargetFixed(sig) <= i < Reaching(sig, args) && RestConflict(rules, sig, args[i])) ||
    Surviving(rules, sig, args) == []
  }

  method ParameterFits(rules: Rules, sig: Signature, args: seq<Type>, n: nat) returns (fits: bool)
    requires Valid(sig)
    ensures fits == forall i :: 0 <= i < ParameterFilled(sig, args, n) && n + i < |sig.params| ==>
            CanFill(rules, args[i], sig.params[n + i])
  {
    for i := 0 to ParameterFilled(sig, args, n)
      invariant forall j :: 0 <= j < i && n + j < |sig.params| ==> CanFill(rules, args[j], sig.params[n + j])
    {
      if !CanFill(rules, args[i], sig.params[n + i]) {
        return false;
      }
    }
    return true;
  }

  method AcceptsArityLoop(rules: Rules, sig: Signature, args: seq<Type>, n: nat) returns (accepts: bool)
    requires Valid(sig)
    ensures accepts == AcceptsArity(rules, sig, args, n)
  {
    if |sig.params| - n <= 0 {
      return true;
    }
    if !EnoughFilled(sig, args, n) {
      return false;
    }
    var fits := ParameterFits(rules, sig, args, n);
    if !fits {
      return false;
    }
    for i := ParameterFilled(sig, args, n) to Reaching(sig, args)
      invariant forall j :: ParameterFilled(sig, args, n) <= j < i ==> !RestConflict(rules, sig, args[j])
    {
      if RestConflict(rules, sig, args[i]) {
        return false;
      }
    }
    return true;
  }

  method RulesOutArityLoop(rules: Rules, sig: Signature, args: seq<Type>, n: nat) returns (ruledOut: bool)
    requires Valid(sig)
    ensures ruledOut == RulesOutArity(rules, sig, args, n)
  {
    if !EnoughFilled(sig, args, n) {
      return true;
    }
    for i := 0 to ParameterFilled(sig, args, n)
      invariant forall j :: 0 <= j < i && n + j < |sig.params| ==> !Conflicts(rules, args[j], sig.params[n + j])
    {
      if Conflicts(rules, args[i], sig.params[n + i]) {
        return true;
      }
    }
    for i := ParameterFilled(sig, args, n) to Reaching(sig, args)
      invariant forall j :: ParameterFilled(sig, args, n) <= j < i ==> !RestConflict(rules, sig, args[j])
    {
      if RestConflict(rules, sig, args[i]) {
        return true;
      }
    }
    return false;
  }

  method RestTailConflicts(rules: Rules, sig: Signature, args: seq<Type>) returns (conflicts: bool)
    requires Valid(sig)
    ensures conflicts == !StaysVariadic(rules, sig, args)
  {
    for i := 0 to Min(TargetFixed(sig), Reaching(sig, args))
      invariant forall j :: 0 <= j < i ==> !RestConflict(rules, sig, args[j])
    {
      if RestConflict(rules, sig, args[i]) {
        return true;
      }
    }
    return false;
  }

  method SurvivingArities(rules: Rules, sig: Signature, args: seq<Type>, stays: bool) returns (surviving: seq<int>)
    requires Valid(sig) && stays == StaysVariadic(rules, sig, args)
    ensures surviving == Surviving(rules, sig, args)
  {
    var highest := |sig.params| - Consumed(sig, args) - if stays then 0 else 1;
    ghost var accepts, remains := (n: nat) => AcceptsArity(rules, sig, args, n),
      (n: nat) => !RulesOutArity(rules, sig, args, n);
    var allowed, possible := [], [];
    var n := 0;
    while n <= highest
      invariant 0 <= n <= highest + 1
      invariant allowed == Arities(n - 1, accepts) && possible == Arities(n - 1, remains)
    {
      var accepted := AcceptsArityLoop(rules, sig, args, n);
      if accepted {
        allowed := allowed + [n];
      }
      var ruledOut := RulesOutArityLoop(rules, sig, args, n);
      if !ruledOut {
        possible := possible + [n];
      }
      n := n + 1;
    }
    surviving := if allowed == [] then possible else allowed;
  }

  method FindRunStart(s: seq<int>) returns (start: nat)
    requires s != []
    ensures start == RunStart(s, |s| - 1)
  {
    start := |s| - 1;
    while start > 0 && s[start - 1] == s[start] - 1
      invariant 0 <= start < |s| && RunStart(s, start) == RunStart(s, |s| - 1)
    {
      start := start - 1;
    }
  }

  method BindVariadicCallable(rules: Rules, sig: Signature, args: seq<Type>) returns (result: CallableType)
    requires Valid(sig)
    ensures result == BindVariadic(rules, sig, args)
  {
    var conflicts := RestTailConflicts(rules, sig, args);
    var s := SurvivingArities(rules, sig, args, !conflicts);
    if s == [] {
      return Plain;
    }
    var start := FindRunStart(s);
    var preserved := PreserveExtras(rules, sig, args);
    result := Explicit(Compressed(sig, args, s, start, !conflicts, preserved));
  }
}
