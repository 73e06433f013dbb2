/** Chains of `bind`, `bindv` and `unbind`: the compressed signature against the
    callable that the chain builds at run time. */
module CallableChains {
  import opened Options
  import opened CallableSignatures
  import opened CallableBinds

  /** The callable value: a function, or a callable that appends bound values to
      the arguments of a call, or one that drops the last arguments. */
  datatype Callee =
    | Function(params: seq<Type>, defaults: nat, vararg: bool, rest: Option<Type>)
    | Bound(target: Callee, args: seq<Type>)
    | Unbound(target: Callee, count: nat)

  function Values(args: seq<Type>): seq<Option<Type>> {
    seq(|args|, i requires 0 <= i < |args| => Some(args[i]))
  }

  /** The arguments of a call about whose types nothing is known. */
  function Unknown(n: nat): seq<Option<Type>> {
    seq(n, i => None)
  }

  /** Does a call with these arguments reach the function with an admissible
      number of arguments, and does every value of known type land on a
      parameter or rest slot with which it does not conflict? */
  predicate Succeeds(rules: Rules, c: Callee, args: seq<Option<Type>>) {
    match c
    case Function(params, defaults, vararg, rest) =>
      |args| >= |params| - defaults && (vararg || |args| <= |params|) &&
      forall i :: 0 <= i < |args| && args[i].Some? ==>
        if i < |params| then !Conflicts(rules, args[i].value, params[i])
        else rest.Some? && vararg ==> !Conflicts(rules, args[i].value, rest.value)
    case Bound(target, bound) => Succeeds(rules, target, args + Values(bound))
    case Unbound(target, count) => |args| >= count && Succeeds(rules, target, args[..|args| - count])
  }

  function SignatureOf(c: Callee): Signature
    requires c.Function?
  {
    Signature(c.params, c.defaults, c.vararg, if c.vararg then c.rest else None, [], 0)
  }

  function Variants(n: nat): seq<Type> {
    seq(n, i => VARIANT)
  }

  /** `unbind` appends a Variant parameter for each argument it drops. */
  function UnbindSignature(sig: Signature, count: nat): Signature {
    sig.(params := sig.params + Variants(count),
         extra := seq(|sig.extra|, i requires 0 <= i < |sig.extra| => sig.extra[i] + count),
         unbound := sig.unbound + count)
  }

  method UnbindCallable(sig: Signature, count: int) returns (result: CallableType)
    ensures result == if count <= 0 then Plain else Explicit(UnbindSignature(sig, count))
  {
    if count <= 0 {
      return Plain;
    }
    var params, extra := sig.params, [];
    for i := 0 to count
      invariant params == sig.params + Variants(i)
    {
      params := params + [VARIANT];
      assert Variants(i + 1) == Variants(i) + [VARIANT];
    }
    for i := 0 to |sig.extra|
      invariant extra == UnbindSignature(sig, count).extra[..i]
    {
      extra := extra + [sig.extra[i] + count];
    }
    result := Explicit(sig.(params := params, extra := extra, unbound := sig.unbound + count));
  }

  datatype Operation = Bind(args: seq<Type>) | Unbind(count: nat)

  function BindResult(rules: Rules, sig: Signature, args: seq<Type>): CallableType
    requires Valid(sig)
  {
    if sig.vararg then BindVariadic(rules, sig, args) else BindFixed(rules, sig, args)
  }

  /** The operation reports no error, and a bind of a variadic callable proves
      every possible arity or none.  `VariadicBindIsExactIff` shows that this is
      what an exact description needs. */
  predicate Clean(rules: Rules, t: CallableType, op: Operation) {
    match op
    case Unbind(count) => count >= 1
    case Bind(args) =>
      t.Explicit? ==>
        if t.sig.vararg then !ReportsVariadic(rules, t.sig, args) && ProvesAllOrNone(rules, t.sig, args)
        else |args| <= |t.sig.params| ==> NoConflictAt(rules, t.sig, args, |t.sig.params| - |args|)
  }

  /** A value of known type at position `i` of a call with `n` arguments. */
  predicate LandsWell(rules: Rules, sig: Signature, args: seq<Option<Type>>, reaching: int) {
    forall i :: 0 <= i < |args| && i < reaching && args[i].Some? ==>
      if i < TargetFixed(sig) then !Conflicts(rules, args[i].value, sig.params[i])
      else !RestConflict(rules, sig, args[i].value)
  }

  predicate Predicts(rules: Rules, sig: Signature, args: seq<Option<Type>>) {
    Admits(sig, |args|) && LandsWell(rules, sig, args, |args| - sig.unbound)
  }

  /** The static type says exactly which calls succeed. */
  ghost predicate Describes(rules: Rules, t: CallableType, c: Callee) {
    match t
    case Plain => false
    case OverBound => forall args :: !Succeeds(rules, c, args)
    case Explicit(sig) => Valid(sig) && forall args :: Succeeds(rules, c, args) <==> Predicts(rules, sig, args)
  }

  lemma UnbindAdmits(sig: Signature, count: nat, n: nat)
    requires Valid(sig)
    ensures Valid(UnbindSignature(sig, count))
    ensures Admits(UnbindSignature(sig, count), n) <==> n >= count && Admits(sig, n - count)
  {
    var r := UnbindSignature(sig, count);
    if i :| 0 <= i < |sig.extra| && sig.extra[i] + 0 == n - count {
      assert r.extra[i] + 0 == n;
    }
    if i :| 0 <= i < |r.extra| && r.extra[i] + 0 == n {
      assert sig.extra[i] + 0 == n - count;
    }
  }

  lemma UnbindIsDescribed(rules: Rules, sig: Signature, c: Callee, count: nat)
    requires Describes(rules, Explicit(sig), c)
    ensures Describes(rules, Explicit(UnbindSignature(sig, count)), Unbound(c, count))
  {
    var r := UnbindSignature(sig, count);
    UnbindAdmits(sig, count, 0);
    forall args: seq<Option<Type>>
      ensures Succeeds(rules, Unbound(c, count), args) <==> Predicts(rules, r, args)
    {
      UnbindAdmits(sig, count, |args|);
      if |args| >= count {
        var kept := args[..|args| - count];
        assert LandsWell(rules, sig, kept, |kept| - sig.unbound) == LandsWell(rules, r, args, |args| - r.unbound);
      }
    }
  }

  lemma BoundValuesLand(rules: Rules, sig: Signature, bound: seq<Type>, args: seq<Option<Type>>)
    requires Valid(sig)
    requires var all := args + Values(bound); LandsWell(rules, sig, all, |all| - sig.unbound)
    ensures LandsWell(rules, sig, args, |args| + |bound| - sig.unbound) && NoConflictAt(rules, sig, bound, |args|)
  {
    var all, n := args + Values(bound), |args|;
    forall i | 0 <= i < Reaching(sig, bound)
      ensures if n + i < TargetFixed(sig) then !Conflicts(rules, bound[i], sig.params[n + i])
              else !RestConflict(rules, sig, bound[i])
    {
      assert all[n + i] == Some(bound[i]);
    }
    forall i | 0 <= i < n && i < |all| - sig.unbound && args[i].Some?
      ensures if i < TargetFixed(sig) then !Conflicts(rules, args[i].value, sig.params[i])
              else !RestConflict(rules, sig, args[i].value)
    {
      assert all[i] == args[i];
    }
  }

  /** The bound values land where `NoConflictAt` looks, the arguments of the
      call before them. */
  lemma LandingOfBoundValues(rules: Rules, sig: Signature, bound: seq<Type>, args: seq<Option<Type>>)
    requires Valid(sig)
    ensures var all := args + Values(bound);
            LandsWell(rules, sig, all, |all| - sig.unbound) <==>
            LandsWell(rules, sig, args, |all| - sig.unbound) && NoConflictAt(rules, sig, bound, |args|)
  {
    var all, n := args + Values(bound), |args|;
    if LandsWell(rules, sig, all, |all| - sig.unbound) {
      BoundValuesLand(rules, sig, bound, args);
    } else {
      var i :| 0 <= i < |all| && i < |all| - sig.unbound && all[i].Some? &&
               !if i < TargetFixed(sig) then !Conflicts(rules, all[i].value, sig.params[i])
                else !RestConflict(rules, sig, all[i].value);
      if i >= n {
        assert bound[i - n] == all[i].value && 0 <= i - n < Reaching(sig, bound);
        assert !NoConflictAt(rules, sig, bound, n);
      } else {
        assert args[i] == all[i];
        assert !LandsWell(rules, sig, args, |all| - sig.unbound);
      }
    }
  }

  /** The arities of the result, for one error-free bind of either kind. */
  lemma BindAdmits(rules: Rules, sig: Signature, bound: seq<Type>, n: nat)
    requires Valid(sig) && Clean(rules, Explicit(sig), Bind(bound)) && (sig.vararg || |bound| <= |sig.params|)
    ensures BindResult(rules, sig, bound).Explicit? && Valid(BindResult(rules, sig, bound).sig)
    ensures Admits(BindResult(rules, sig, bound).sig, n) <==>
            Admits(sig, n + |bound|) && NoConflictAt(rules, sig, bound, n)
  {
    if sig.vararg {
      BindVariadicIsValid(rules, sig, bound);
      VariadicBindLeaves(rules, sig, bound, n);
    } else {
      BindFixedIsValid(rules, sig, bound);
      BindFixedIsExact(rules, sig, bound, n);
    }
  }

  /** Two signatures that agree on the slots in question. */
  lemma LandingAgrees(rules: Rules, a: Signature, b: Signature, args: seq<Option<Type>>, reachingA: int, reachingB: int)
    requires Valid(a) && Valid(b)
    requires reachingA == reachingB || (reachingA >= |args| && reachingB >= |args|)
    requires forall j :: 0 <= j < TargetFixed(a) && j < TargetFixed(b) ==> a.params[j] == b.params[j]
    requires (TargetFixed(a) == TargetFixed(b) && a.rest == b.rest) ||
             (Min(|args|, reachingA) <= TargetFixed(a) && Min(|args|, reachingB) <= TargetFixed(b))
    ensures LandsWell(rules, a, args, reachingA) <==> LandsWell(rules, b, args, reachingB)
  {
  }

  /** What a bind keeps of the signature. */
  ghost predicate Shortened(sig: Signature, r: Signature, bound: seq<Type>) {
    && |r.params| <= |sig.params| && r.params == sig.params[..|r.params|]
    && r.unbound == Max(sig.unbound - |bound|, 0)
    && (if r.vararg then r.rest == sig.rest && |r.params| == FixedArity(sig, bound)
        else |r.params| + |bound| <= |sig.params| || (sig.unbound < |bound| && |r.params| < TargetFixed(sig)))
  }

  lemma VariadicBindShortens(rules: Rules, sig: Signature, bound: seq<Type>)
    requires Valid(sig) && sig.vararg && !ReportsVariadic(rules, sig, bound)
    ensures BindVariadic(rules, sig, bound).Explicit? && Shortened(sig, BindVariadic(rules, sig, bound).sig, bound)
  {
    assert TailFits(rules, sig, bound);
    var s := Surviving(rules, sig, bound);
    if StaysVariadic(rules, sig, bound) {
      HighestSurvivor(rules, sig, bound);
    } else {
      assert Reaching(sig, bound) > 0;
      assert s[|s| - 1] <= HighestCandidate(rules, sig, bound);
    }
  }

  lemma BindShortens(rules: Rules, sig: Signature, bound: seq<Type>)
    requires Valid(sig) && if sig.vararg then !ReportsVariadic(rules, sig, bound) else |bound| <= |sig.params|
    ensures BindResult(rules, sig, bound).Explicit? && Shortened(sig, BindResult(rules, sig, bound).sig, bound)
  {
    if sig.vararg {
      VariadicBindShortens(rules, sig, bound);
    }
  }

  /** The arguments of the call keep their slots. */
  lemma BindKeepsSlots(rules: Rules, sig: Signature, r: Signature, bound: seq<Type>, args: seq<Option<Type>>)
    requires Valid(sig) && Valid(r) && Shortened(sig, r, bound) && (r.vararg || |args| <= |r.params|)
    ensures LandsWell(rules, r, args, |args| - r.unbound) <==>
            LandsWell(rules, sig, args, |args| + |bound| - sig.unbound)
  {
    assert forall j :: 0 <= j < |r.params| ==> r.params[j] == sig.params[j];
    LandingAgrees(rules, r, sig, args, |args| - r.unbound, |args| + |bound| - sig.unbound);
  }

  lemma BoundCallIsPredicted(rules: Rules, sig: Signature, c: Callee, bound: seq<Type>, args: seq<Option<Type>>)
    requires Describes(rules, Explicit(sig), c) && Clean(rules, Explicit(sig), Bind(bound))
    requires sig.vararg || |bound| <= |sig.params|
    ensures BindResult(rules, sig, bound).Explicit? && Valid(BindResult(rules, sig, bound).sig)
    ensures Succeeds(rules, Bound(c, bound), args) <==> Predicts(rules, BindResult(rules, sig, bound).sig, args)
  {
    BindShortens(rules, sig, bound);
    BindAdmits(rules, sig, bound, |args|);
    LandingOfBoundValues(rules, sig, bound, args);
    var r, all := BindResult(rules, sig, bound).sig, args + Values(bound);
    assert Succeeds(rules, Bound(c, bound), args) <==> Predicts(rules, sig, all);
    if Admits(r, |args|) {
      AdmitsAsMembership(r, |args|);
      BindKeepsSlots(rules, sig, r, bound, args);
    }
  }

  lemma BindIsDescribed(rules: Rules, sig: Signature, c: Callee, bound: seq<Type>)
    requires Describes(rules, Explicit(sig), c) && Clean(rules, Explicit(sig), Bind(bound))
    ensures Describes(rules, BindResult(rules, sig, bound), Bound(c, bound))
  {
    if !sig.vararg && |bound| > |sig.params| {
      forall args
        ensures !Succeeds(rules, Bound(c, bound), args)
      {
        AdmitsAsMembership(sig, |args + Values(bound)|);
      }
    } else {
      BindAdmits(rules, sig, bound, 0);
      BindShortens(rules, sig, bound);
      forall args: seq<Option<Type>>
        ensures Succeeds(rules, Bound(c, bound), args) <==> Predicts(rules, BindResult(rules, sig, bound).sig, args)
      {
        BoundCallIsPredicted(rules, sig, c, bound, args);
      }
    }
  }

  lemma LostCallIsNotDescribed(rules: Rules, sig: Signature, c: Callee, bound: seq<Type>, r: Signature, n: nat)
    requires Describes(rules, Explicit(sig), c) && Remains(rules, sig, bound, n) && !Admits(r, n)
    ensures !Describes(rules, Explicit(r), Bound(c, bound))
  {
    var args := Unknown(n);
    var all := args + Values(bound);
    LandingOfBoundValues(rules, sig, bound, args);
    assert LandsWell(rules, sig, args, |all| - sig.unbound);
    assert Predicts(rules, sig, all);
    assert Succeeds(rules, c, all);
    assert Succeeds(rules, Bound(c, bound), args) && !Predicts(rules, r, args);
  }

  /** The condition on variadic binds cannot be spared: without it the signature
      of the bound callable says something else than its calls. */
  lemma VariadicBindIsDescribedIff(rules: Rules, sig: Signature, c: Callee, bound: seq<Type>)
    requires Describes(rules, Explicit(sig), c) && sig.vararg && !ReportsVariadic(rules, sig, bound)
    ensures Describes(rules, BindVariadic(rules, sig, bound), Bound(c, bound)) <==> ProvesAllOrNone(rules, sig, bound)
  {
    VariadicBindIsExactIff(rules, sig, bound);
    if ProvesAllOrNone(rules, sig, bound) {
      BindIsDescribed(rules, sig, c, bound);
    } else {
      var r := BindVariadic(rules, sig, bound).sig;
      var n: nat :| !(Admits(r, n) <==> Remains(rules, sig, bound, n));
      if Admits(r, n) {
        VariadicBindIsSound(rules, sig, bound, n);
      }
      LostCallIsNotDescribed(rules, sig, c, bound, r, n);
    }
  }

  const SOFT := Type(2, false, false)

  /** Binding one untyped value to `f(a: T = t, ...)`: a call without further
      arguments would succeed, but the signature asks for one, because with one
      argument the value lands in the rest tail, where it is known to fit. */
  lemma UntypedBindLosesAnArity(rules: Rules, t: Type)
    requires !rules.strictDynamic && t.hard && !t.variant
    ensures var f := Function([t], 1, true, None);
            var sig := SignatureOf(f);
            && Valid(sig) && !ReportsVariadic(rules, sig, [SOFT]) && !ProvesAllOrNone(rules, sig, [SOFT])
            && Succeeds(rules, Bound(f, [SOFT]), Unknown(0))
            && BindVariadic(rules, sig, [SOFT]).Explicit? && !Admits(BindVariadic(rules, sig, [SOFT]).sig, 0)
  {
    var sig := SignatureOf(Function([t], 1, true, None));
    assert AcceptsArity(rules, sig, [SOFT], 1);
    assert !AcceptsArity(rules, sig, [SOFT], 0) by {
      assert ParameterFilled(sig, [SOFT], 0) == 1 && !CanFill(rules, [SOFT][0], sig.params[0]);
    }
    assert NoConflictAt(rules, sig, [SOFT], 0);
    SurvivorsAre(rules, sig, [SOFT], 1);
    assert 0 <= HighestCandidate(rules, sig, [SOFT]);
    LostArity(rules, sig, [SOFT], 0);
    assert |Unknown(0) + Values([SOFT])| == 1;
  }

  /** An over-bound callable stays over-bound. */
  function Apply(rules: Rules, t: CallableType, op: Operation): CallableType
    requires t.Explicit? ==> Valid(t.sig)
  {
    match t
    case Plain => Plain
    case OverBound => OverBound
    case Explicit(sig) =>
      match op
      case Bind(args) => BindResult(rules, sig, args)
      case Unbind(count) => if count == 0 then Plain else Explicit(UnbindSignature(sig, count))
  }

  method TypeCallableOperation(rules: Rules, t: CallableType, op: Operation) returns (result: CallableType)
    requires t.Explicit? ==> Valid(t.sig)
    ensures result == Apply(rules, t, op)
  {
    if t.OverBound? || t.Plain? {
      return t;
    }
    match op
    case Bind(args) =>
      if t.sig.vararg {
        result := BindVariadicCallable(rules, t.sig, args);
      } else {
        result := BindFixedArity(rules, t.sig, args);
      }
    case Unbind(count) => result := UnbindCallable(t.sig, count);
  }

  function Build(c: Callee, op: Operation): Callee {
    match op
    case Bind(args) => Bound(c, args)
    case Unbind(count) => Unbound(c, count)
  }

  lemma OperationIsDescribed(rules: Rules, t: CallableType, c: Callee, op: Operation)
    requires Describes(rules, t, c) && Clean(rules, t, op)
    ensures Describes(rules, Apply(rules, t, op), Build(c, op))
  {
    if t.Explicit? {
      match op
      case Bind(args) => BindIsDescribed(rules, t.sig, c, args);
      case Unbind(count) => UnbindIsDescribed(rules, t.sig, c, count);
    }
  }

  function BuildAll(c: Callee, ops: seq<Operation>): Callee
    decreases |ops|
  {
    if ops == [] then c else BuildAll(Build(c, ops[0]), ops[1..])
  }

  /** The types along a chain. */
  ghost predicate Chain(rules: Rules, ts: seq<CallableType>, ops: seq<Operation>) {
    && |ts| == |ops| + 1
    && forall i :: 0 <= i < |ops| ==>
       (ts[i].Explicit? ==> Valid(ts[i].sig)) && ts[i + 1] == Apply(rules, ts[i], ops[i]) && Clean(rules, ts[i], ops[i])
  }

  lemma {:induction false} ChainIsDescribed(rules: Rules, c: Callee, ts: seq<CallableType>, ops: seq<Operation>)
    requires Chain(rules, ts, ops) && Describes(rules, ts[0], c)
    ensures Describes(rules, ts[|ops|], BuildAll(c, ops))
    decreases ops
  {
    if ops != [] {
      OperationIsDescribed(rules, ts[0], c, ops[0]);
      var ts', ops' := ts[1..], ops[1..];
      forall i | 0 <= i < |ops'|
        ensures (ts'[i].Explicit? ==> Valid(ts'[i].sig)) && ts'[i + 1] == Apply(rules, ts'[i], ops'[i])
                && Clean(rules, ts'[i], ops'[i])
      {
        assert ts'[i] == ts[i + 1] && ts'[i + 1] == ts[i + 2] && ops'[i] == ops[i + 1];
      }
      ChainIsDescribed(rules, Build(c, ops[0]), ts', ops');
    }
  }

  /** For every function and every error-free chain of operations on it: the
      final signature admits `n` arguments if and only if the callable built by
      the chain accepts `n` arguments, and the callable is marked over-bound if
      and only if it accepts no number of arguments. */
  lemma ChainsRefineCallables(rules: Rules, c: Callee, ts: seq<CallableType>, ops: seq<Operation>, n: nat)
    requires c.Function? && c.defaults <= |c.params|
    requires Chain(rules, ts, ops) && ts[0] == Explicit(SignatureOf(c))
    ensures var t := ts[|ops|];
            var callee := BuildAll(c, ops);
            && (t.Explicit? ==> (Admits(t.sig, n) <==> Succeeds(rules, callee, Unknown(n))))
            && (t.OverBound? <==> forall m: nat :: !Succeeds(rules, callee, Unknown(m)))
  {
    ChainIsDescribed(rules, c, ts, ops);
    var t, callee := ts[|ops|], BuildAll(c, ops);
    if t.Explicit? {
      assert LandsWell(rules, t.sig, Unknown(n), n - t.sig.unbound);
      assert Predicts(rules, t.sig, Unknown(n)) <==> Admits(t.sig, n);
      var full := Unknown(|t.sig.params|);
      assert LandsWell(rules, t.sig, full, |full| - t.sig.unbound);
      assert Predicts(rules, t.sig, full);
      assert Succeeds(rules, callee, full);
    }
  }
}
