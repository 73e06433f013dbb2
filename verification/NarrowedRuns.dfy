/** Narrowing over whole function bodies: the types that the analysis gives to
    every read, and the values those reads get when the body runs. */
module NarrowedRuns {
  import opened NarrowedTypes
  import opened FlowNarrowing

  datatype End = Fell | Broke | Continued | Returned | Paused

  datatype Stmt =
    | Use(operand: Operand)
    | Assign(target: Variable)
    | If(condition: Condition, whenTrue: seq<Stmt>, whenFalse: seq<Stmt>)
    | While(condition: Condition, loop: seq<Stmt>)
    | Assert(condition: Condition)
    | Jump(end: End)

  function Assigned(s: Stmt): set<Variable>
    decreases s
  {
    match s
    case Assign(target) => {target}
    case If(_, whenTrue, whenFalse) => AssignedInSuite(whenTrue) + AssignedInSuite(whenFalse)
    case While(_, loop) => AssignedInSuite(loop)
    case _ => {}
  }

  function AssignedInSuite(ss: seq<Stmt>): set<Variable>
    decreases ss
  {
    if ss == [] then {} else Assigned(ss[0]) + AssignedInSuite(ss[1..])
  }

  // ---------------------------------------------------------------- analysis

  /** The source restores the whole environment after a block.  A `careful`
      analysis would not restore what the block assigns. */
  function Restored(env: Environment, changed: set<Variable>, careful: bool): Environment {
    if careful then env - changed else env
  }

  /** The statement with all its types written in, and the environment behind it. */
  function Analyze(declared: Declared, env: Environment, s: Stmt, careful: bool): (Stmt, Environment)
    decreases s
  {
    match s
    case Use(operand) => (Use(ReduceOperand(declared, env, operand)), env)
    case Assign(target) => (s, env - {target})
    case If(condition, whenTrue, whenFalse) =>
      var c := ReduceCondition(declared, env, condition);
      (If(c, AnalyzeSuite(declared, Apply(env, c, true), whenTrue, careful).0,
             AnalyzeSuite(declared, Apply(env, c, false), whenFalse, careful).0),
       Restored(env, Assigned(s), careful))
    case While(condition, loop) =>
      var start := Restored(env, Assigned(s), careful);
      var c := ReduceCondition(declared, start, condition);
      (While(c, AnalyzeSuite(declared, Apply(start, c, true), loop, careful).0), start)
    case Assert(condition) =>
      var c := ReduceCondition(declared, env, condition);
      (Assert(c), Apply(env, c, true))
    case Jump(_) => (s, env)
  }

  function AnalyzeSuite(declared: Declared, env: Environment, ss: seq<Stmt>, careful: bool): (seq<Stmt>, Environment)
    decreases ss
  {
    if ss == [] then ([], env)
    else
      var first := Analyze(declared, env, ss[0], careful);
      var rest := AnalyzeSuite(declared, first.1, ss[1..], careful);
      ([first.0] + rest.0, rest.1)
  }

  predicate NormalStmt(s: Stmt)
    decreases s
  {
    match s
    case If(condition, whenTrue, whenFalse) => NormalTests(condition) && NormalSuite(whenTrue) && NormalSuite(whenFalse)
    case While(condition, loop) => NormalTests(condition) && NormalSuite(loop)
    case Assert(condition) => NormalTests(condition)
    case _ => true
  }

  predicate NormalSuite(ss: seq<Stmt>)
    decreases ss
  {
    ss != [] ==> NormalStmt(ss[0]) && NormalSuite(ss[1..])
  }

  // ---------------------------------------------------------------- runs

  /** Settles a run: the values that are assigned, the outcomes of conditions and
      the number of rounds.  A run may pause anywhere, so that a run without an
      end is covered by all its beginnings. */
  datatype Run =
    | Step
    | Written(value: Value)
    | Taken(outcome: bool, body: seq<Run>)
    | Rounds(rounds: seq<seq<Run>>)

  /** `possible`: conditions come out as they can, and values have the declared
      type of their variable.  `typed`: every read so far had a value of the type
      the analysis gave it. */
  datatype Result = Result(possible: bool, typed: bool, store: Store, end: End)

  ghost function Exec(w: World, declared: Declared, s: Stmt, run: Run, store: Store): Result
    decreases s, 0
  {
    match s
    case Use(operand) => Result(true, OperandTyped(w, store, operand), store, Fell)
    case Assign(target) =>
      if run.Written? then Result(Holds(w, declared(target), run.value), true, v => if v == target then run.value
                                                                                    else store(v), Fell)
      else Result(true, true, store, Paused)
    case If(condition, whenTrue, whenFalse) =>
      if !run.Taken? then Result(true, true, store, Paused) else
      var inner := ExecSuite(w, declared, if run.outcome then whenTrue else whenFalse, run.body, store);
      inner.(possible := CanBe(w, store, condition, run.outcome) && inner.possible,
             typed := WellTyped(w, store, condition) && inner.typed)
    case While(condition, loop) =>
      if !run.Rounds? then Result(true, true, store, Paused)
      else ExecLoop(w, declared, condition, loop, run.rounds, store)
    case Assert(condition) =>
      Result(CanBe(w, store, condition, true), WellTyped(w, store, condition), store, Fell)
    case Jump(end) => Result(true, true, store, end)
  }

  ghost function ExecSuite(w: World, declared: Declared, ss: seq<Stmt>, runs: seq<Run>, store: Store): Result
    decreases ss, 0
  {
    if ss == [] then Result(true, true, store, Fell)
    else if runs == [] then Result(true, true, store, Paused)
    else
      var first := Exec(w, declared, ss[0], runs[0], store);
      if first.end != Fell then first
      else
        var rest := ExecSuite(w, declared, ss[1..], runs[1..], first.store);
        rest.(possible := first.possible && rest.possible, typed := first.typed && rest.typed)
  }

  ghost function ExecLoop(w: World, declared: Declared, condition: Condition, loop: seq<Stmt>, rounds: seq<seq<Run>>,
                          store: Store): Result
    decreases loop, 1, |rounds|
  {
    if rounds == [] then Result(CanBe(w, store, condition, false), WellTyped(w, store, condition), store, Fell)
    else
      var round := ExecSuite(w, declared, loop, rounds[0], store);
      var begun := round.(possible := CanBe(w, store, condition, true) && round.possible,
                          typed := WellTyped(w, store, condition) && round.typed);
      if round.end.Broke? then begun.(end := Fell)
      else if round.end.Returned? || round.end.Paused? then begun
      else
        var rest := ExecLoop(w, declared, condition, loop, rounds[1..], round.store);
        rest.(possible := begun.possible && rest.possible, typed := begun.typed && rest.typed)
  }

  // ---------------------------------------------------------------- soundness

  /** What is left of a store once a block has run. */
  ghost predicate Changes(before: Store, after: Store, changed: set<Variable>) {
    forall v :: v !in changed ==> after(v) == before(v)
  }

  lemma RestoredIsSound(w: World, declared: Declared, env: Environment, changed: set<Variable>, careful: bool,
                        before: Store, after: Store)
    requires Sound(w, declared, env, before) && Sound(w, declared, map[], after) && Changes(before, after, changed)
    requires careful || changed !! env.Keys
    ensures Sound(w, declared, Restored(env, changed, careful), after)
  {
    var kept := Restored(env, changed, careful);
    forall v ensures Holds(w, Lookup(declared, kept, v), after(v)) && WellFormed(Lookup(declared, kept, v)) {
      if v.Local? && v in kept {
        assert Lookup(declared, kept, v) == Lookup(declared, env, v) && after(v) == before(v);
      } else {
        assert Lookup(declared, kept, v) == Lookup(declared, map[], v);
      }
    }
  }

  ghost predicate Normal(w: World, declared: Declared, store: Store) {
    Sound(w, declared, map[], store)
  }

  /** Reads are typed, values keep their declared types, nothing else changes, and
      where control falls through the new environment is sound. */
  ghost predicate Kept(w: World, declared: Declared, before: Store, r: Result, changed: set<Variable>,
                       behind: Environment) {
    r.possible ==>
      && r.typed
      && Normal(w, declared, r.store)
      && Changes(before, r.store, changed)
      && (r.end.Fell? ==> Sound(w, declared, behind, r.store))
  }

  lemma {:induction false} StatementIsTyped(w: World, declared: Declared, env: Environment, s: Stmt, run: Run,
                                            store: Store)
    requires Sound(w, declared, env, store) && Normal(w, declared, store) && NormalStmt(s)
    ensures Kept(w, declared, store, Exec(w, declared, Analyze(declared, env, s, true).0, run, store), Assigned(s),
                 Analyze(declared, env, s, true).1)
    decreases s, 1
  {
    var r := Exec(w, declared, Analyze(declared, env, s, true).0, run, store);
    match s
    case Use(_) =>
    case Assign(target) =>
      if run.Written? && r.possible {
        AssignedIsSound(w, declared, env, target, run.value, store, r.store);
      }
    case If(condition, whenTrue, whenFalse) =>
      if run.Taken? && r.possible {
        IfIsTyped(w, declared, env, s, run, store);
      } else if !run.Taken? {
        assert r.end.Paused?;
      }
    case While(condition, loop) =>
      if run.Rounds? {
        var start := Restored(env, Assigned(s), true);
        RestoredIsSound(w, declared, env, Assigned(s), true, store, store);
        LoopIsTyped(w, declared, start, condition, loop, run.rounds, store);
      } else {
        assert r.end.Paused?;
      }
    case Assert(condition) =>
      if r.possible {
        ReducedOutcomeIsSound(w, declared, env, store, condition, true);
      }
    case Jump(end) =>
  }

  lemma AssignedIsSound(w: World, declared: Declared, env: Environment, target: Variable, value: Value, before: Store,
                        after: Store)
    requires Sound(w, declared, env, before) && Normal(w, declared, before) && Holds(w, declared(target), value)
    requires forall v :: after(v) == if v == target then value else before(v)
    ensures Normal(w, declared, after) && Sound(w, declared, env - {target}, after)
  {
    forall v ensures Holds(w, declared(v), after(v)) && WellFormed(declared(v)) {
      assert Lookup(declared, map[], v) == declared(v);
    }
    var left := env - {target};
    forall v ensures Holds(w, Lookup(declared, left, v), after(v)) && WellFormed(Lookup(declared, left, v)) {
      if v.Local? && v in left {
        assert Lookup(declared, left, v) == Lookup(declared, env, v);
      } else {
        assert Lookup(declared, left, v) == declared(v);
      }
    }
  }

  /** The outcome is that of the reduced condition: reduction only writes types. */
  lemma ReducedOutcomeIsSound(w: World, declared: Declared, env: Environment, store: Store, c: Condition, outcome: bool)
    requires Sound(w, declared, env, store) && NormalTests(c)
    ensures WellTyped(w, store, ReduceCondition(declared, env, c))
    ensures CanBe(w, store, ReduceCondition(declared, env, c), outcome) ==>
      Sound(w, declared, Apply(env, ReduceCondition(declared, env, c), outcome), store)
  {
    ReducedConditionIsTyped(w, declared, env, store, c);
    if CanBe(w, store, ReduceCondition(declared, env, c), outcome) {
      ApplyIsSound(w, declared, env, store, ReduceCondition(declared, env, c), outcome);
    }
  }

  lemma {:induction false} IfIsTyped(w: World, declared: Declared, env: Environment, s: Stmt, run: Run, store: Store)
    requires s.If? && run.Taken?
    requires Sound(w, declared, env, store) && Normal(w, declared, store) && NormalStmt(s)
    ensures Kept(w, declared, store, Exec(w, declared, Analyze(declared, env, s, true).0, run, store), Assigned(s),
                 Analyze(declared, env, s, true).1)
    decreases s, 0
  {
    var c := ReduceCondition(declared, env, s.condition);
    var r := Exec(w, declared, Analyze(declared, env, s, true).0, run, store);
    ReducedOutcomeIsSound(w, declared, env, store, s.condition, run.outcome);
    if r.possible {
      var block := if run.outcome then s.whenTrue else s.whenFalse;
      SuiteIsTyped(w, declared, Apply(env, c, run.outcome), block, run.body, store);
      RestoredIsSound(w, declared, env, Assigned(s), true, store, r.store);
    }
  }

  lemma {:induction false} SuiteIsTyped(w: World, declared: Declared, env: Environment, ss: seq<Stmt>, runs: seq<Run>,
                                        store: Store)
    requires Sound(w, declared, env, store) && Normal(w, declared, store) && NormalSuite(ss)
    ensures Kept(w, declared, store, ExecSuite(w, declared, AnalyzeSuite(declared, env, ss, true).0, runs, store),
                 AssignedInSuite(ss), AnalyzeSuite(declared, env, ss, true).1)
    decreases ss, 0
  {
    if ss != [] && runs != [] {
      var first := Analyze(declared, env, ss[0], true);
      var rest := AnalyzeSuite(declared, first.1, ss[1..], true);
      var typed := [first.0] + rest.0;
      assert typed[0] == first.0 && typed[1..] == rest.0;
      StatementIsTyped(w, declared, env, ss[0], runs[0], store);
      var r := Exec(w, declared, first.0, runs[0], store);
      if r.possible && r.end.Fell? {
        SuiteIsTyped(w, declared, first.1, ss[1..], runs[1..], r.store);
      }
    }
  }

  lemma {:induction false} LoopIsTyped(w: World, declared: Declared, start: Environment, condition: Condition,
                                       loop: seq<Stmt>,
                                       rounds: seq<seq<Run>>, store: Store)
    requires Sound(w, declared, start, store) && Normal(w, declared, store)
    requires NormalTests(condition) && NormalSuite(loop)
    requires AssignedInSuite(loop) !! start.Keys
    ensures var c := ReduceCondition(declared, start, condition);
            Kept(w, declared, store,
                 ExecLoop(w, declared, c, AnalyzeSuite(declared, Apply(start, c, true), loop, true).0, rounds, store),
                 AssignedInSuite(loop), start)
    decreases loop, 1, |rounds|
  {
    var c := ReduceCondition(declared, start, condition);
    var typed := AnalyzeSuite(declared, Apply(start, c, true), loop, true).0;
    ReducedOutcomeIsSound(w, declared, start, store, condition, true);
    if rounds != [] && CanBe(w, store, c, true) {
      SuiteIsTyped(w, declared, Apply(start, c, true), loop, rounds[0], store);
      var round := ExecSuite(w, declared, typed, rounds[0], store);
      if round.possible {
        RestoredIsSound(w, declared, start, AssignedInSuite(loop), false, store, round.store);
        LoopIsTyped(w, declared, start, condition, loop, rounds[1..], round.store);
      }
    }
  }

  // ---------------------------------------------------------------- results

  /** An analysis that does not restore what a block assigns needs no condition. */
  lemma CarefulBodiesAreTyped(w: World, declared: Declared, body: seq<Stmt>, runs: seq<Run>, store: Store)
    requires Normal(w, declared, store) && NormalSuite(body)
    requires ExecSuite(w, declared, AnalyzeSuite(declared, map[], body, true).0, runs, store).possible
    ensures ExecSuite(w, declared, AnalyzeSuite(declared, map[], body, true).0, runs, store).typed
  {
    SuiteIsTyped(w, declared, map[], body, runs, store);
  }

  // ---------------------------------------------------------------- a stale narrowing

  const X := Local(0)
  const MAYBE := Type(Plain(0), true)
  const CERTAIN := Type(Plain(0), false)
  const X_NOT_NULL := Compare(false, Name(X, UNSET), NullLiteral)
  const BRANCH := If(Other([]), [Assign(X)], [])
  const STALE := [Assert(X_NOT_NULL), BRANCH, Use(Name(X, UNSET))]
  const TYPED := [Assert(Compare(false, Name(X, MAYBE), NullLiteral)), BRANCH, Use(Name(X, CERTAIN))]

  lemma OneStatement(declared: Declared, env: Environment, s: Stmt)
    ensures AnalyzeSuite(declared, env, [s], false)
            == ([Analyze(declared, env, s, false).0], Analyze(declared, env, s, false).1)
  {
    var first := Analyze(declared, env, s, false);
    var rest := AnalyzeSuite(declared, first.1, [s][1..], false);
    assert rest == ([], first.1);
    assert [first.0] + rest.0 == [first.0];
  }

  lemma OneStep(w: World, declared: Declared, s: Stmt, run: Run, store: Store)
    ensures ExecSuite(w, declared, [s], [run], store) == Exec(w, declared, s, run, store)
  {
    var first := Exec(w, declared, s, run, store);
    assert [s][1..] == [] && [run][1..] == [];
    assert ExecSuite(w, declared, [s][1..], [run][1..], first.store) == Result(true, true, first.store, Fell);
    assert [s][0] == s && [run][0] == run;
  }

  lemma StaleAnalysis(declared: Declared)
    requires declared(X) == MAYBE
    ensures AnalyzeSuite(declared, map[], STALE, false).0 == TYPED
  {
    var env := map[X := CERTAIN];
    var test := Analyze(declared, map[], STALE[0], false);
    assert test == (TYPED[0], env);
    assert ReduceCondition(declared, env, Other([])) == Other([]);
    OneStatement(declared, env, Assign(X));
    assert AnalyzeSuite(declared, Apply(env, Other([]), false), [], false).0 == [];
    var branch := Analyze(declared, env, BRANCH, false);
    assert branch.0.whenTrue == [Assign(X)] && branch.0.whenFalse == [];
    assert branch == (BRANCH, env);
    OneStatement(declared, env, Use(Name(X, UNSET)));
    assert STALE[1..][1..] == [Use(Name(X, UNSET))];
    assert AnalyzeSuite(declared, env, STALE[1..][1..], false).0 == [Use(Name(X, CERTAIN))];
    assert AnalyzeSuite(declared, env, STALE[1..], false).0 == [BRANCH, Use(Name(X, CERTAIN))];
  }

  /** `assert x != null`, then `x = null` in a branch, then a read of `x`: the
      branch ends, the narrowing comes back, and the read is typed without null. */
  lemma StaleNarrowingIsUnsound(w: World, declared: Declared, store: Store)
    requires forall v :: declared(v) == MAYBE
    requires Normal(w, declared, store) && store(X) != Null
    ensures var typed := AnalyzeSuite(declared, map[], STALE, false).0;
            var r := ExecSuite(w, declared, typed, [Step, Taken(true, [Written(Null)]), Step], store);
            typed == TYPED && r.possible && r.end.Fell? && r.store(X) == Null && !r.typed
  {
    StaleAnalysis(declared);
    var runs := [Step, Taken(true, [Written(Null)]), Step];
    assert OperandCanBe(store, Name(X, MAYBE), store(X)) && OperandCanBe(store, NullLiteral, Null);
    assert CanBe(w, store, TYPED[0].condition, true);
    var inner := ExecSuite(w, declared, [Assign(X)], [Written(Null)], store);
    assert Holds(w, declared(X), Null);
    OneStep(w, declared, Assign(X), Written(Null), store);
    assert inner.possible && inner.end.Fell? && inner.store(X) == Null;
    var last := [Use(Name(X, CERTAIN))];
    assert TYPED[1..][1..] == last && runs[1..][1..] == [Step];
    OneStep(w, declared, last[0], Step, inner.store);
    var read := ExecSuite(w, declared, last, [Step], inner.store);
    assert !OperandTyped(w, inner.store, Name(X, CERTAIN));
    assert read.possible && read.end.Fell? && !read.typed && read.store == inner.store;
    var taken := Exec(w, declared, BRANCH, Taken(true, [Written(Null)]), store);
    assert WellTyped(w, store, Other([]));
    assert taken.possible && taken.end.Fell? && taken.store == inner.store;
    assert TYPED[1..][0] == BRANCH && runs[1..][0] == Taken(true, [Written(Null)]);
    var behind := ExecSuite(w, declared, TYPED[1..], runs[1..], store);
    assert behind.possible && behind.end.Fell? && !behind.typed && behind.store(X) == Null;
  }
}
