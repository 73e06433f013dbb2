/** What binding values to a variadic callable guarantees. */
module CallableBinds {
  import opened CallableSignatures

  /** The arity at and above which only the rest tail is reached. */
  function FixedArity(sig: Signature, args: seq<Type>): int {
    |sig.params| - Consumed(sig, args)
  }

  /** No bound value conflicts with the rest type at every arity. */
  predicate TailFits(rules: Rules, sig: Signature, args: seq<Type>) {
    forall i :: TargetFixed(sig) <= i < Reaching(sig, args) ==> !RestConflict(rules, sig, args[i])
  }

  lemma EnoughFilledIsArithmetic(sig: Signature, args: seq<Type>, n: nat)
    requires Valid(sig) && n <= |sig.params|
    ensures EnoughFilled(sig, args, n) <==> n + |args| >= |sig.params| - sig.defaults
  {
  }

  lemma RuledOutArities(rules: Rules, sig: Signature, args: seq<Type>, n: nat)
    requires Valid(sig) && n <= HighestCandidate(rules, sig, args)
    ensures RulesOutArity(rules, sig, args, n) <==>
            !(n + |args| >= |sig.params| - sig.defaults && NoConflictAt(rules, sig, args, n))
  {
    EnoughFilledIsArithmetic(sig, args, n);
  }

  lemma FitsExcludeConflicts(rules: Rules, sig: Signature, args: seq<Type>, n: nat)
    requires Valid(sig) && FitsAt(rules, sig, args, n)
    ensures NoConflictAt(rules, sig, args, n)
  {
    forall i | 0 <= i < Reaching(sig, args)
      ensures if n + i < TargetFixed(sig) then !Conflicts(rules, args[i], sig.params[n + i])
              else !RestConflict(rules, sig, args[i])
    {
      if n + i < TargetFixed(sig) {
        ConflictExcludesFit(rules, args[i], sig.params[n + i]);
      }
    }
  }

  lemma AcceptedAritiesFit(rules: Rules, sig: Signature, args: seq<Type>, n: nat)
    requires Valid(sig) && TailFits(rules, sig, args) && n <= HighestCandidate(rules, sig, args)
    ensures AcceptsArity(rules, sig, args, n) ==>
            n + |args| >= |sig.params| - sig.defaults && NoConflictAt(rules, sig, args, n)
  {
    EnoughFilledIsArithmetic(sig, args, n);
    if AcceptsArity(rules, sig, args, n) {
      forall i | 0 <= i < Reaching(sig, args)
        ensures if n + i < TargetFixed(sig) then !Conflicts(rules, args[i], sig.params[n + i])
                else !RestConflict(rules, sig, args[i])
      {
        if n + i < TargetFixed(sig) {
          ConflictExcludesFit(rules, args[i], sig.params[n + i]);
        }
      }
    }
  }

  /** Every surviving arity is possible, and every proven one survives. */
  lemma SurvivingIsBetween(rules: Rules, sig: Signature, args: seq<Type>, n: nat)
    requires Valid(sig) && TailFits(rules, sig, args)
    ensures n in Surviving(rules, sig, args) ==>
            n <= HighestCandidate(rules, sig, args) && n + |args| >= |sig.params| - sig.defaults
            && NoConflictAt(rules, sig, args, n)
    ensures n <= HighestCandidate(rules, sig, args) && n + |args| >= |sig.params| - sig.defaults
            && FitsAt(rules, sig, args, n)
            ==> n in Surviving(rules, sig, args)
  {
    SurvivorsAre(rules, sig, args, n);
    if n <= HighestCandidate(rules, sig, args) {
      EnoughFilledIsArithmetic(sig, args, n);
      if FitsAt(rules, sig, args, n) {
        FitsExcludeConflicts(rules, sig, args, n);
      }
      if AcceptsArity(rules, sig, args, n) {
        AcceptedAritiesFit(rules, sig, args, n);
      }
    }
  }

  /** A variadic result keeps all parameters but the consumed discards. */
  lemma HighestSurvivor(rules: Rules, sig: Signature, args: seq<Type>)
    requires Valid(sig) && TailFits(rules, sig, args) && StaysVariadic(rules, sig, args)
    ensures FixedArity(sig, args) in Surviving(rules, sig, args)
    ensures var s := Surviving(rules, sig, args); s[|s| - 1] == FixedArity(sig, args)
  {
    var n := FixedArity(sig, args);
    SurvivingIsBetween(rules, sig, args, n);
  }

  lemma MembersOfRun(s: seq<int>, n: int)
    requires s != [] && forall a, b :: 0 <= a < b < |s| ==> s[a] < s[b]
    ensures var start := RunStart(s, |s| - 1);
            n in s <==> (s[start] <= n <= s[|s| - 1] || n in s[..start])
  {
    var start := RunStart(s, |s| - 1);
    RunIsContiguous(s, |s| - 1);
    if s[start] <= n <= s[|s| - 1] {
      assert s[start + (n - s[start])] == n;
    }
    if n in s {
      var i :| 0 <= i < |s| && s[i] == n;
      if i < start {
        assert s[..start][i] == n;
      }
    }
  }

  lemma CompressedAdmits(sig: Signature, args: seq<Type>, s: seq<int>, stays: bool, preserved: seq<int>, n: nat)
    requires s != [] && (forall a, b :: 0 <= a < b < |s| ==> s[a] < s[b]) && 0 <= s[0] && s[|s| - 1] <= |sig.params|
    requires Consumed(sig, args) <= sig.unbound
    ensures var start := RunStart(s, |s| - 1);
            0 <= s[start] <= s[|s| - 1] &&
            (Admits(Compressed(sig, args, s, start, stays, preserved), n) <==>
             n in s || (stays && n > s[|s| - 1]) || n in preserved)
  {
    var start := RunStart(s, |s| - 1);
    RunIsContiguous(s, |s| - 1);
    MembersOfRun(s, n);
    AdmitsAsMembership(Compressed(sig, args, s, start, stays, preserved), n);
    assert n in s[..start] + preserved <==> n in s[..start] || n in preserved;
  }

  /** Which arities the result of a bind admits. */
  lemma VariadicBindAdmits(rules: Rules, sig: Signature, args: seq<Type>, n: nat)
    requires Valid(sig) && sig.vararg && !ReportsVariadic(rules, sig, args)
    ensures BindVariadic(rules, sig, args).Explicit?
    ensures Admits(BindVariadic(rules, sig, args).sig, n) <==>
            || n in Surviving(rules, sig, args)
            || (StaysVariadic(rules, sig, args) && n > FixedArity(sig, args))
            || n in PreserveAll(rules, sig, args)
  {
    var s := Surviving(rules, sig, args);
    assert TailFits(rules, sig, args);
    CompressedAdmits(sig, args, s, StaysVariadic(rules, sig, args), PreserveAll(rules, sig, args), n);
    if StaysVariadic(rules, sig, args) {
      HighestSurvivor(rules, sig, args);
    }
  }

  lemma PreservedAre(rules: Rules, sig: Signature, args: seq<Type>, n: nat)
    requires Valid(sig)
    ensures n in PreserveAll(rules, sig, args) <==>
            n + |args| in sig.extra && NoConflictAt(rules, sig, args, n)
  {
    PreserveIsExact(rules, sig, args, |sig.extra|, n);
    assert sig.extra[..|sig.extra|] == sig.extra;
    if n + |args| in sig.extra {
      SlotsAreLandings(rules, sig, args, n);
    }
  }

  /** First half of the sandwich: every arity that an error-free bind admits is
      one the source admits with the bound values added, and there no bound
      value conflicts with the parameter or rest slot on which it lands. */
  lemma VariadicBindIsSound(rules: Rules, sig: Signature, args: seq<Type>, n: nat)
    requires Valid(sig) && sig.vararg && !ReportsVariadic(rules, sig, args)
    requires Admits(BindVariadic(rules, sig, args).sig, n)
    ensures Admits(sig, n + |args|) && NoConflictAt(rules, sig, args, n)
  {
    VariadicBindAdmits(rules, sig, args, n);
    AdmitsAsMembership(sig, n + |args|);
    SurvivingIsBetween(rules, sig, args, n);
    PreservedAre(rules, sig, args, n);
  }

  /** Second half: every arity the source admits with the bound values added,
      and at which all bound values are known to fit, is admitted, also when a
      conflict with the rest type ends the variadic tail. */
  lemma VariadicBindIsComplete(rules: Rules, sig: Signature, args: seq<Type>, n: nat)
    requires Valid(sig) && sig.vararg && !ReportsVariadic(rules, sig, args)
    requires Admits(sig, n + |args|) && FitsAt(rules, sig, args, n)
    ensures Admits(BindVariadic(rules, sig, args).sig, n)
  {
    VariadicBindAdmits(rules, sig, args, n);
    AdmitsAsMembership(sig, n + |args|);
    SurvivingIsBetween(rules, sig, args, n);
    FitsExcludeConflicts(rules, sig, args, n);
    PreservedAre(rules, sig, args, n);
    if n >= FixedArity(sig, args) {
      HighestSurvivor(rules, sig, args);
    }
  }

  /** The variadic tail is lost exactly if no arity at or above the fixed arity
      can be called. */
  lemma VariadicTail(rules: Rules, sig: Signature, args: seq<Type>, n: nat)
    requires Valid(sig) && sig.vararg && !ReportsVariadic(rules, sig, args) && n >= FixedArity(sig, args)
    ensures BindVariadic(rules, sig, args).sig.vararg <==> NoConflictAt(rules, sig, args, n)
  {
  }

  /** The guard of the source: as soon as some arity is proven to fit, arities
      that are merely possible are dropped.  Nothing is lost if no arity is
      proven, or every possible one is. */
  predicate ProvesAllOrNone(rules: Rules, sig: Signature, args: seq<Type>) {
    var highest := HighestCandidate(rules, sig, args);
    || (forall n: nat :: n <= highest ==> !AcceptsArity(rules, sig, args, n))
    || (forall n: nat :: n <= highest && n + |args| >= |sig.params| - sig.defaults && NoConflictAt(rules, sig, args, n)
         ==> AcceptsArity(rules, sig, args, n))
  }

  /** The arities that a bind should leave: the source admits them with the bound
      values added, and none of these conflicts there. */
  predicate Remains(rules: Rules, sig: Signature, args: seq<Type>, n: nat) {
    Admits(sig, n + |args|) && NoConflictAt(rules, sig, args, n)
  }

  lemma {:induction false} NoArities(highest: int, keep: nat -> bool)
    ensures Arities(highest, keep) == [] <==> !exists m: nat :: m <= highest && keep(m)
    decreases highest + 1
  {
    if highest >= 0 {
      NoArities(highest - 1, keep);
    }
  }

  lemma AritiesAt(highest: int, keep: nat -> bool, n: nat)
    ensures n in Arities(highest, keep) <==> n <= highest && keep(n)
  {
    AritiesAreExact(highest, keep);
  }

  predicate SomeArityIsProven(rules: Rules, sig: Signature, args: seq<Type>) {
    exists m: nat :: m <= HighestCandidate(rules, sig, args) && AcceptsArity(rules, sig, args, m)
  }

  /** Which arities survive the selection among the contiguous ones. */
  lemma SurvivorsAre(rules: Rules, sig: Signature, args: seq<Type>, n: nat)
    requires Valid(sig)
    ensures n in Surviving(rules, sig, args) <==>
            n <= HighestCandidate(rules, sig, args) &&
            if SomeArityIsProven(rules, sig, args) then AcceptsArity(rules, sig, args, n)
            else n + |args| >= |sig.params| - sig.defaults && NoConflictAt(rules, sig, args, n)
  {
    var highest := HighestCandidate(rules, sig, args);
    var accepts, remains := (m: nat) => AcceptsArity(rules, sig, args, m),
      (m: nat) => !RulesOutArity(rules, sig, args, m);
    NoArities(highest, accepts);
    AritiesAt(highest, accepts, n);
    AritiesAt(highest, remains, n);
    assert (exists m: nat :: m <= highest && accepts(m)) <==> SomeArityIsProven(rules, sig, args) by {
      if m: nat :| m <= highest && AcceptsArity(rules, sig, args, m) {
        assert accepts(m);
      }
    }
    if n <= highest {
      RuledOutArities(rules, sig, args, n);
    }
  }

  /** Values of known type conflict with a typed parameter that they can neither go
      into nor be narrowed to, and fit exactly those that they can go into.  Only
      under strict rules an explicit Variant conflicts; nothing conflicts with an
      untyped parameter, and a soft one takes anything. */
  lemma ConflictsAndFits(rules: Rules, arg: Type, param: Type)
    ensures arg.hard && !arg.variant && param.hard && !param.variant ==>
            && (Conflicts(rules, arg, param) <==> !rules.compatible(param, arg) && !rules.narrows(param, arg))
            && (CanFill(rules, arg, param) <==> rules.compatible(param, arg))
    ensures arg.variant && param.hard && !param.variant ==> (Conflicts(rules, arg, param) <==> rules.strictDynamic)
    ensures !arg.hard && !arg.variant ==> !Conflicts(rules, arg, param)
    ensures arg.variant || !arg.hard ==> (CanFill(rules, arg, param) <==> !param.hard)
    ensures param.variant || !param.hard ==> !Conflicts(rules, arg, param)
    ensures !param.hard ==> CanFill(rules, arg, param)
    ensures arg.hard && !arg.variant && param.hard ==> (CanFill(rules, arg, param) <==> rules.compatible(param, arg))
  {
  }

  /** A bind of a variadic callable reports an error exactly if it leaves nothing:
      for no number of further arguments are there enough of them without a
      conflict of some bound value. */
  lemma ReportsIffNothingIsPossible(rules: Rules, sig: Signature, args: seq<Type>)
    requires Valid(sig) && sig.vararg
    ensures ReportsVariadic(rules, sig, args) <==>
            forall n: nat :: n + |args| >= |sig.params| - sig.defaults ==> !NoConflictAt(rules, sig, args, n)
  {
    var highest := HighestCandidate(rules, sig, args);
    if i :| TargetFixed(sig) <= i < Reaching(sig, args) && RestConflict(rules, sig, args[i]) {
      forall n: nat
        ensures !NoConflictAt(rules, sig, args, n)
      {
        assert n + i >= TargetFixed(sig);
      }
    } else if Surviving(rules, sig, args) == [] {
      forall n: nat | n + |args| >= |sig.params| - sig.defaults
        ensures !NoConflictAt(rules, sig, args, n)
      {
        SurvivorsAre(rules, sig, args, n);
        NothingIsProven(rules, sig, args);
        if n > highest {
          NoTailWithoutSurvivors(rules, sig, args, n);
        }
      }
    } else {
      var n := Surviving(rules, sig, args)[0];
      assert n in Surviving(rules, sig, args);
      SurvivorsAre(rules, sig, args, n);
      if SomeArityIsProven(rules, sig, args) {
        AcceptedAritiesFit(rules, sig, args, n);
      }
      assert n + |args| >= |sig.params| - sig.defaults && NoConflictAt(rules, sig, args, n);
    }
  }

  lemma NothingIsProven(rules: Rules, sig: Signature, args: seq<Type>)
    requires Valid(sig) && Surviving(rules, sig, args) == []
    ensures !SomeArityIsProven(rules, sig, args)
  {
    if m: nat :| m <= HighestCandidate(rules, sig, args) && AcceptsArity(rules, sig, args, m) {
      SurvivorsAre(rules, sig, args, m);
    }
  }

  /** If the tail stayed, the lowest arity that uses it would survive. */
  lemma NoTailWithoutSurvivors(rules: Rules, sig: Signature, args: seq<Type>, n: nat)
    requires Valid(sig) && sig.vararg && TailFits(rules, sig, args) && Surviving(rules, sig, args) == []
    requires n > HighestCandidate(rules, sig, args)
    ensures !NoConflictAt(rules, sig, args, n)
  {
    var fixed := FixedArity(sig, args);
    NothingIsProven(rules, sig, args);
    if StaysVariadic(rules, sig, args) {
      forall i | 0 <= i < Reaching(sig, args)
        ensures fixed + i >= TargetFixed(sig) && !RestConflict(rules, sig, args[i])
      {
      }
      assert NoConflictAt(rules, sig, args, fixed);
      SurvivorsAre(rules, sig, args, fixed);
      assert false;
    } else {
      var i :| 0 <= i < Min(TargetFixed(sig), Reaching(sig, args)) && RestConflict(rules, sig, args[i]);
      assert n + i >= TargetFixed(sig);
    }
  }

  /** An error-free bind of a variadic callable leaves exactly the arities it
      should if and only if every possible arity is proven or none is. */
  lemma VariadicBindIsExactIff(rules: Rules, sig: Signature, args: seq<Type>)
    requires Valid(sig) && sig.vararg && !ReportsVariadic(rules, sig, args)
    ensures BindVariadic(rules, sig, args).Explicit?
    ensures (forall n: nat :: Admits(BindVariadic(rules, sig, args).sig, n) <==> Remains(rules, sig, args, n))
            <==> ProvesAllOrNone(rules, sig, args)
  {
    VariadicBindAdmits(rules, sig, args, 0);
    if ProvesAllOrNone(rules, sig, args) {
      forall n: nat
        ensures Admits(BindVariadic(rules, sig, args).sig, n) <==> Remains(rules, sig, args, n)
      {
        VariadicBindLeaves(rules, sig, args, n);
      }
    } else {
      var highest := HighestCandidate(rules, sig, args);
      var n: nat :| n <= highest && n + |args| >= |sig.params| - sig.defaults && NoConflictAt(rules, sig, args, n)
                    && !AcceptsArity(rules, sig, args, n);
      LostArity(rules, sig, args, n);
    }
  }

  lemma VariadicBindLeaves(rules: Rules, sig: Signature, args: seq<Type>, n: nat)
    requires Valid(sig) && sig.vararg && !ReportsVariadic(rules, sig, args) && ProvesAllOrNone(rules, sig, args)
    ensures BindVariadic(rules, sig, args).Explicit?
    ensures Admits(BindVariadic(rules, sig, args).sig, n) <==> Remains(rules, sig, args, n)
  {
    VariadicBindAdmits(rules, sig, args, n);
    AdmitsAsMembership(sig, n + |args|);
    PreservedAre(rules, sig, args, n);
    SurvivorsAre(rules, sig, args, n);
    if Admits(BindVariadic(rules, sig, args).sig, n) {
      VariadicBindIsSound(rules, sig, args, n);
    } else if n > HighestCandidate(rules, sig, args) {
      VariadicTail(rules, sig, args, n);
    }
  }

  /** An arity that is possible but not proven beside a proven one is lost. */
  lemma LostArity(rules: Rules, sig: Signature, args: seq<Type>, n: nat)
    requires Valid(sig) && sig.vararg && !ReportsVariadic(rules, sig, args) && !ProvesAllOrNone(rules, sig, args)
    requires n <= HighestCandidate(rules, sig, args) && n + |args| >= |sig.params| - sig.defaults
    requires NoConflictAt(rules, sig, args, n) && !AcceptsArity(rules, sig, args, n)
    ensures Remains(rules, sig, args, n) && !Admits(BindVariadic(rules, sig, args).sig, n)
  {
    VariadicBindAdmits(rules, sig, args, n);
    AdmitsAsMembership(sig, n + |args|);
    PreservedAre(rules, sig, args, n);
    SurvivorsAre(rules, sig, args, n);
  }

  lemma PreservedLieBelow(rules: Rules, sig: Signature, args: seq<Type>, e: int)
    requires Valid(sig) && !ReportsVariadic(rules, sig, args) && e in PreserveAll(rules, sig, args)
    ensures var s := Surviving(rules, sig, args); 0 <= e < s[RunStart(s, |s| - 1)]
  {
    var s := Surviving(rules, sig, args);
    var lowest := s[RunStart(s, |s| - 1)];
    assert TailFits(rules, sig, args) && lowest in s;
    SurvivingIsBetween(rules, sig, args, lowest);
    PreserveIsExact(rules, sig, args, |sig.extra|, e);
    assert e + |args| in sig.extra;
  }

  lemma CompressedIsValid(sig: Signature, args: seq<Type>, s: seq<int>, start: nat, stays: bool, preserved: seq<int>)
    requires start < |s| && 0 <= s[start] <= s[|s| - 1] <= |sig.params| && Consumed(sig, args) <= sig.unbound
    requires forall i :: 0 <= i < start ==> 0 <= s[i] < s[start]
    requires forall i :: 0 <= i < |preserved| ==> 0 <= preserved[i] < s[start]
    requires sig.unbound - Consumed(sig, args) <= s[|s| - 1]
    requires forall i :: s[|s| - 1] - (sig.unbound - Consumed(sig, args)) <= i < s[|s| - 1] ==> sig.params[i].variant
    ensures Valid(Compressed(sig, args, s, start, stays, preserved))
  {
    var r := Compressed(sig, args, s, start, stays, preserved);
    forall i | 0 <= i < |r.extra|
      ensures 0 <= r.extra[i] < s[start]
    {
      assert r.extra[i] == if i < start then s[i] else preserved[i - start];
    }
  }

  /** The result keeps only slots that `unbind` appended as its last ones. */
  lemma LastSlotsStayVariant(rules: Rules, sig: Signature, args: seq<Type>)
    requires Valid(sig) && sig.vararg && !ReportsVariadic(rules, sig, args)
    ensures var s := Surviving(rules, sig, args);
            var highest, unbound := s[|s| - 1], sig.unbound - Consumed(sig, args);
            unbound <= highest <= |sig.params| && forall i :: highest - unbound <= i < highest ==> sig.params[i].variant
  {
    assert TailFits(rules, sig, args);
    if StaysVariadic(rules, sig, args) {
      HighestSurvivor(rules, sig, args);
    } else {
      assert Reaching(sig, args) > 0;
    }
  }

  lemma BindVariadicIsValid(rules: Rules, sig: Signature, args: seq<Type>)
    requires Valid(sig) && sig.vararg && !ReportsVariadic(rules, sig, args)
    ensures BindVariadic(rules, sig, args).Explicit? && Valid(BindVariadic(rules, sig, args).sig)
  {
    var s, preserved := Surviving(rules, sig, args), PreserveAll(rules, sig, args);
    LastSlotsStayVariant(rules, sig, args);
    forall i | 0 <= i < |preserved|
      ensures 0 <= preserved[i] < s[RunStart(s, |s| - 1)]
    {
      PreservedLieBelow(rules, sig, args, preserved[i]);
    }
    CompressedIsValid(sig, args, s, RunStart(s, |s| - 1), StaysVariadic(rules, sig, args), preserved);
  }
}
