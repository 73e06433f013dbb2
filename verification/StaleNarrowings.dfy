/** After a block the whole table of narrowed types is put back, also for variables
    that the block has assigned.  Such an entry is stale.  It does harm if and
    only if some path leads on to a read of the variable. */
module StaleNarrowings {
  import opened Options
  import opened NarrowedTypes
  import opened FlowNarrowing
  import opened NarrowedRuns

  // ---------------------------------------------------------------------------
  // What paths assign.
  // ---------------------------------------------------------------------------

  /** For each way to leave a statement: `None` if no path does, otherwise the
      variables that some path which does has assigned. */
  datatype Exits = Exits(next: Option<set<Variable>>, broke: Option<set<Variable>>, continued: Option<set<Variable>>)

  const NOWHERE := Exits(None, None, None)

  function Union(a: Option<set<Variable>>, b: Option<set<Variable>>): Option<set<Variable>> {
    if a.None? then b else if b.None? then a else Some(a.value + b.value)
  }

  function Either(a: Exits, b: Exits): Exits {
    Exits(Union(a.next, b.next), Union(a.broke, b.broke), Union(a.continued, b.continued))
  }

  function Beyond(before: set<Variable>, a: Option<set<Variable>>): Option<set<Variable>> {
    if a.None? then None else Some(before + a.value)
  }

  function Elements(a: Option<set<Variable>>): set<Variable> {
    if a.None? then {} else a.value
  }

  function ExitsOf(s: Stmt): Exits
    decreases s, 0
  {
    match s
    case Assign(target) => NOWHERE.(next := Some({target}))
    case If(_, whenTrue, whenFalse) => Either(ExitsOfSuite(whenTrue), ExitsOfSuite(whenFalse))
    case While(_, loop) => NOWHERE.(next := Some(AtHead(loop) + Elements(ExitsOfSuite(loop).broke)))
    case Jump(end) =>
      (match end
       case Fell => NOWHERE.(next := Some({}))
       case Broke => NOWHERE.(broke := Some({}))
       case Continued => NOWHERE.(continued := Some({}))
       case _ => NOWHERE)
    case _ => NOWHERE.(next := Some({}))
  }

  function ExitsOfSuite(ss: seq<Stmt>): Exits
    decreases ss, 0
  {
    if ss == [] then NOWHERE.(next := Some({})) else
    var first := ExitsOf(ss[0]);
    if first.next.None? then first else
    var rest := ExitsOfSuite(ss[1..]);
    Exits(Beyond(first.next.value, rest.next),
          Union(first.broke, Beyond(first.next.value, rest.broke)),
          Union(first.continued, Beyond(first.next.value, rest.continued)))
  }

  /** What earlier rounds may have assigned when the loop tests its condition. */
  function AtHead(loop: seq<Stmt>): set<Variable>
    decreases loop, 1
  {
    Elements(ExitsOfSuite(loop).next) + Elements(ExitsOfSuite(loop).continued)
  }

  function ExitBy(exits: Exits, end: End): Option<set<Variable>> {
    match end
    case Fell => exits.next
    case Broke => exits.broke
    case Continued => exits.continued
    case _ => None
  }

  predicate Leaves(end: End) {
    end.Fell? || end.Broke? || end.Continued?
  }

  // ---------------------------------------------------------------------------
  // Stale reads.
  // ---------------------------------------------------------------------------

  function MentionedBy(o: Operand): set<Variable> {
    if o.Name? && o.variable.Local? then {o.variable} else {}
  }

  function MentionedIn(c: Condition): set<Variable> {
    match c
    case And(left, right) => MentionedIn(left) + MentionedIn(right)
    case Compare(_, first, second) => MentionedBy(first) + MentionedBy(second)
    case TypeTest(operand, _) => MentionedBy(operand)
    case Not(inner) => MentionedIn(inner)
    case Other(operands) => set i, v | 0 <= i < |operands| && v in MentionedBy(operands[i]) :: v
  }

  /** The variables that a condition narrows when it has the outcome. */
  function NarrowedBy(c: Condition, outcome: bool): set<Variable> {
    Apply(map[], c, outcome).Keys
  }

  /** The variables assigned since their entry in the table was made, behind `s`. */
  function DirtyBehind(declared: Declared, env: Environment, s: Stmt, dirty: set<Variable>): set<Variable> {
    match s
    case Assert(condition) => dirty - NarrowedBy(ReduceCondition(declared, env, condition), true)
    case _ => dirty + Elements(ExitsOf(s).next)
  }

  /** Variables of which a stale entry is read on some path through `s`. */
  function StaleReads(declared: Declared, env: Environment, s: Stmt, dirty: set<Variable>): set<Variable>
    decreases s
  {
    match s
    case Use(operand) => MentionedBy(operand) * dirty * env.Keys
    case If(condition, whenTrue, whenFalse) =>
      var c := ReduceCondition(declared, env, condition);
      MentionedIn(condition) * dirty * env.Keys
      + StaleReadsInSuite(declared, Apply(env, c, true), whenTrue, dirty - NarrowedBy(c, true))
      + StaleReadsInSuite(declared, Apply(env, c, false), whenFalse, dirty - NarrowedBy(c, false))
    case While(condition, loop) =>
      var c := ReduceCondition(declared, env, condition);
      var head := dirty + AtHead(loop);
      MentionedIn(condition) * head * env.Keys
      + StaleReadsInSuite(declared, Apply(env, c, true), loop, head - NarrowedBy(c, true))
    case Assert(condition) => MentionedIn(condition) * dirty * env.Keys
    case _ => {}
  }

  function StaleReadsInSuite(declared: Declared, env: Environment, ss: seq<Stmt>, dirty: set<Variable>): set<Variable>
    decreases ss
  {
    if ss == [] then {} else
    StaleReads(declared, env, ss[0], dirty) +
    (if ExitsOf(ss[0]).next.None? then {}
     else StaleReadsInSuite(declared, Analyze(declared, env, ss[0], false).1, ss[1..],
                            DirtyBehind(declared, env, ss[0], dirty)))
  }

  // ---------------------------------------------------------------------------
  // Without stale reads every read is typed.
  // ---------------------------------------------------------------------------

  /** Narrowing only puts entries over the table. */
  lemma {:induction false} ApplyOverlays(env: Environment, c: Condition, outcome: bool)
    ensures Apply(env, c, outcome) == env + Apply(map[], c, outcome)
    decreases c
  {
    if c.And? && outcome {
      var l, r := Apply(map[], c.left, true), Apply(map[], c.right, true);
      ApplyOverlays(env, c.left, true);
      ApplyOverlays(env + l, c.right, true);
      ApplyOverlays(l, c.right, true);
      assert (env + l) + r == env + (l + r);
    }
  }

  /** What is left of the table when the dirty entries are ignored. */
  lemma CleanOverlay(env: Environment, c: Condition, outcome: bool, dirty: set<Variable>)
    ensures Apply(env, c, outcome) - (dirty - NarrowedBy(c, outcome)) == Apply(env - dirty, c, outcome)
  {
    ApplyOverlays(env, c, outcome);
    ApplyOverlays(env - dirty, c, outcome);
  }

  lemma SameOperand(declared: Declared, env: Environment, o: Operand, dirty: set<Variable>)
    requires MentionedBy(o) * dirty * env.Keys == {}
    ensures ReduceOperand(declared, env, o) == ReduceOperand(declared, env - dirty, o)
  {
    forall v | v in MentionedBy(o) && v in env
      ensures v !in dirty
    {
      assert v in dirty ==> v in MentionedBy(o) * dirty * env.Keys;
    }
    assert o.Name? && o.variable.Local? ==> o.variable in MentionedBy(o);
  }

  lemma {:induction false} SameExpression(declared: Declared, env: Environment, c: Condition, dirty: set<Variable>)
    requires MentionedIn(c) * dirty * env.Keys == {}
    ensures ReduceExpression(declared, env, c) == ReduceExpression(declared, env - dirty, c)
    decreases c
  {
    match c
    case And(left, right) =>
      SameExpression(declared, env, left, dirty);
      SameExpression(declared, env, right, dirty);
    case Compare(_, first, second) =>
      SameOperand(declared, env, first, dirty);
      SameOperand(declared, env, second, dirty);
    case TypeTest(operand, _) => SameOperand(declared, env, operand, dirty);
    case Not(inner) => SameExpression(declared, env, inner, dirty);
    case Other(operands) =>
      forall i | 0 <= i < |operands|
        ensures ReduceOperand(declared, env, operands[i]) == ReduceOperand(declared, env - dirty, operands[i])
      {
        assert MentionedBy(operands[i]) <= MentionedIn(c);
        SameOperand(declared, env, operands[i], dirty);
      }
  }

  /** A condition that mentions no stale entry is reduced as if there were none. */
  lemma {:induction false} SameCondition(declared: Declared, env: Environment, c: Condition, dirty: set<Variable>)
    requires MentionedIn(c) * dirty * env.Keys == {}
    ensures ReduceCondition(declared, env, c) == ReduceCondition(declared, env - dirty, c)
    decreases c
  {
    if c.And? {
      SameCondition(declared, env, c.left, dirty);
      var l := ReduceCondition(declared, env, c.left);
      var later := dirty - NarrowedBy(l, true);
      ApplyOverlays(env, l, true);
      CleanOverlay(env, l, true, dirty);
      SameCondition(declared, Apply(env, l, true), c.right, later);
    } else {
      SameExpression(declared, env, c, dirty);
    }
  }

  lemma OutcomeIsSound(w: World, declared: Declared, env: Environment, dirty: set<Variable>, store: Store,
                       condition: Condition, outcome: bool)
    requires Sound(w, declared, env - dirty, store) && NormalTests(condition)
             && MentionedIn(condition) * dirty * env.Keys == {}
    ensures var c := ReduceCondition(declared, env, condition);
            && WellTyped(w, store, c)
            && (CanBe(w, store, c, outcome) ==>
                Sound(w, declared, Apply(env, c, outcome) - (dirty - NarrowedBy(c, outcome)), store))
  {
    SameCondition(declared, env, condition, dirty);
    ReducedOutcomeIsSound(w, declared, env - dirty, store, condition, outcome);
    CleanOverlay(env, ReduceCondition(declared, env, condition), outcome, dirty);
  }

  /** Entries of variables that nobody changed stay right. */
  lemma UnchangedStaySound(w: World, declared: Declared, env: Environment, dirty: set<Variable>, more: set<Variable>,
                           before: Store, after: Store)
    requires Sound(w, declared, env - dirty, before) && Normal(w, declared, after) && Changes(before, after, more)
    ensures Sound(w, declared, env - (dirty + more), after)
  {
    var left := env - (dirty + more);
    forall v ensures Holds(w, Lookup(declared, left, v), after(v)) && WellFormed(Lookup(declared, left, v)) {
      if v.Local? && v in left {
        assert Lookup(declared, left, v) == Lookup(declared, env - dirty, v) && after(v) == before(v);
      } else {
        assert Lookup(declared, left, v) == Lookup(declared, map[], v);
      }
    }
  }

  /** Reads are typed, and what the run changed is what its path could assign. */
  ghost predicate Fine(w: World, declared: Declared, before: Store, r: Result, exits: Exits) {
    r.possible ==>
      && r.typed
      && Normal(w, declared, r.store)
      && (Leaves(r.end) ==> ExitBy(exits, r.end).Some? && Changes(before, r.store, ExitBy(exits, r.end).value))
  }

  lemma {:induction false} StatementIsFine(w: World, declared: Declared, env: Environment, s: Stmt,
                                           dirty: set<Variable>, run: Run, store: Store)
    requires Normal(w, declared, store) && Sound(w, declared, env - dirty, store) && NormalStmt(s)
    requires StaleReads(declared, env, s, dirty) == {}
    ensures var typed := Analyze(declared, env, s, false);
            var r := Exec(w, declared, typed.0, run, store);
            && Fine(w, declared, store, r, ExitsOf(s))
            && (r.possible && r.end.Fell? ==>
                Sound(w, declared, typed.1 - DirtyBehind(declared, env, s, dirty), r.store))
    decreases s, 1
  {
    var r := Exec(w, declared, Analyze(declared, env, s, false).0, run, store);
    match s
    case Use(operand) =>
      SameOperand(declared, env, operand, dirty);
      assert dirty + {} == dirty;
    case Assign(target) =>
      if run.Written? && r.possible {
        AssignedStaysSound(w, declared, env, dirty, target, run.value, store, r.store);
      }
    case If(condition, whenTrue, whenFalse) =>
      if run.Taken? {
        IfIsFine(w, declared, env, s, dirty, run, store);
      }
    case While(condition, loop) =>
      if run.Rounds? {
        var head := dirty + AtHead(loop);
        UnchangedStaySound(w, declared, env, dirty, AtHead(loop), store, store);
        LoopIsFine(w, declared, env, condition, loop, head, run.rounds, store);
        if r.possible && r.end.Fell? {
          UnchangedStaySound(w, declared, env, dirty, Elements(ExitsOf(s).next), store, r.store);
        }
      }
    case Assert(condition) => OutcomeIsSound(w, declared, env, dirty, store, condition, true);
    case Jump(end) => assert dirty + {} == dirty;
  }

  lemma AssignedStaysSound(w: World, declared: Declared, env: Environment, dirty: set<Variable>, target: Variable,
                           value: Value,
                           before: Store, after: Store)
    requires Sound(w, declared, env - dirty, before) && Normal(w, declared, before) && Holds(w, declared(target), value)
    requires forall v :: after(v) == if v == target then value else before(v)
    ensures Normal(w, declared, after) && Sound(w, declared, (env - {target}) - (dirty + {target}), after)
  {
    AssignedIsSound(w, declared, env - dirty, target, value, before, after);
    assert (env - {target}) - (dirty + {target}) == (env - dirty) - {target};
  }

  lemma {:induction false} IfIsFine(w: World, declared: Declared, env: Environment, s: Stmt, dirty: set<Variable>,
                                    run: Run, store: Store)
    requires s.If? && run.Taken?
    requires Normal(w, declared, store) && Sound(w, declared, env - dirty, store) && NormalStmt(s)
    requires StaleReads(declared, env, s, dirty) == {}
    ensures var typed := Analyze(declared, env, s, false);
            var r := Exec(w, declared, typed.0, run, store);
            && Fine(w, declared, store, r, ExitsOf(s))
            && (r.possible && r.end.Fell? ==>
                Sound(w, declared, typed.1 - DirtyBehind(declared, env, s, dirty), r.store))
    decreases s, 0
  {
    var c := ReduceCondition(declared, env, s.condition);
    var r := Exec(w, declared, Analyze(declared, env, s, false).0, run, store);
    OutcomeIsSound(w, declared, env, dirty, store, s.condition, run.outcome);
    if r.possible {
      var block := if run.outcome then s.whenTrue else s.whenFalse;
      SuiteIsFine(w, declared, Apply(env, c, run.outcome), block, dirty - NarrowedBy(c, run.outcome), run.body, store);
      if r.end.Fell? {
        UnchangedStaySound(w, declared, env, dirty, ExitsOf(s).next.value, store, r.store);
      }
    }
  }

  lemma {:induction false} SuiteIsFine(w: World, declared: Declared, env: Environment, ss: seq<Stmt>,
                                       dirty: set<Variable>, runs: seq<Run>, store: Store)
    requires Normal(w, declared, store) && Sound(w, declared, env - dirty, store) && NormalSuite(ss)
    requires StaleReadsInSuite(declared, env, ss, dirty) == {}
    ensures Fine(w, declared, store, ExecSuite(w, declared, AnalyzeSuite(declared, env, ss, false).0, runs, store),
                 ExitsOfSuite(ss))
    decreases ss, 0
  {
    if ss != [] && runs != [] {
      var first := Analyze(declared, env, ss[0], false);
      var rest := AnalyzeSuite(declared, first.1, ss[1..], false);
      var typed := [first.0] + rest.0;
      assert typed[0] == first.0 && typed[1..] == rest.0;
      StatementIsFine(w, declared, env, ss[0], dirty, runs[0], store);
      var r := Exec(w, declared, first.0, runs[0], store);
      if r.possible && r.end.Fell? {
        SuiteIsFine(w, declared, first.1, ss[1..], DirtyBehind(declared, env, ss[0], dirty), runs[1..], r.store);
      }
    }
  }

  lemma {:induction false} LoopIsFine(w: World, declared: Declared, env: Environment, condition: Condition,
                                      loop: seq<Stmt>, head: set<Variable>,
                                      rounds: seq<seq<Run>>, store: Store)
    requires Normal(w, declared, store) && Sound(w, declared, env - head, store) && NormalTests(condition)
             && NormalSuite(loop)
    requires AtHead(loop) <= head && MentionedIn(condition) * head * env.Keys == {}
    requires var c := ReduceCondition(declared, env, condition);
             StaleReadsInSuite(declared, Apply(env, c, true), loop, head - NarrowedBy(c, true)) == {}
    ensures var c := ReduceCondition(declared, env, condition);
            var r := ExecLoop(w, declared, c, AnalyzeSuite(declared, Apply(env, c, true), loop, false).0, rounds,
                              store);
            Fine(w, declared, store, r, NOWHERE.(next := Some(AtHead(loop) + Elements(ExitsOfSuite(loop).broke))))
    decreases loop, 1, |rounds|
  {
    var c := ReduceCondition(declared, env, condition);
    var typed := AnalyzeSuite(declared, Apply(env, c, true), loop, false).0;
    OutcomeIsSound(w, declared, env, head, store, condition, true);
    if rounds != [] && CanBe(w, store, c, true) {
      SuiteIsFine(w, declared, Apply(env, c, true), loop, head - NarrowedBy(c, true), rounds[0], store);
      var round := ExecSuite(w, declared, typed, rounds[0], store);
      if round.possible && (round.end.Fell? || round.end.Continued?) {
        UnchangedStaySound(w, declared, env, head, ExitBy(ExitsOfSuite(loop), round.end).value, store, round.store);
        assert head + ExitBy(ExitsOfSuite(loop), round.end).value == head;
        LoopIsFine(w, declared, env, condition, loop, head, rounds[1..], round.store);
      }
    }
  }

  /** If no path leads from an assignment in a block to a read of a stale entry,
      every read of every run gets a value of the type it was analysed with. */
  lemma BodiesWithoutStaleReadsAreTyped(w: World, declared: Declared, env: Environment, body: seq<Stmt>,
                                        runs: seq<Run>, store: Store)
    requires Normal(w, declared, store) && Sound(w, declared, env, store) && NormalSuite(body)
    requires StaleReadsInSuite(declared, env, body, {}) == {}
    requires ExecSuite(w, declared, AnalyzeSuite(declared, env, body, false).0, runs, store).possible
    ensures ExecSuite(w, declared, AnalyzeSuite(declared, env, body, false).0, runs, store).typed
  {
    assert env - {} == env;
    SuiteIsFine(w, declared, env, body, {}, runs, store);
  }

  // ---------------------------------------------------------------------------
  // Where conditions tell nothing, a stale read goes wrong.
  // ---------------------------------------------------------------------------

  /** All conditions can have either outcome, whatever the store. */
  predicate Opaque(s: Stmt)
    decreases s
  {
    match s
    case If(condition, whenTrue, whenFalse) => condition.Other? && OpaqueSuite(whenTrue) && OpaqueSuite(whenFalse)
    case While(condition, loop) => condition.Other? && OpaqueSuite(loop)
    case Assert(condition) => condition.Other?
    case _ => true
  }

  predicate OpaqueSuite(ss: seq<Stmt>)
    decreases ss
  {
    ss == [] || (Opaque(ss[0]) && OpaqueSuite(ss[1..]))
  }

  lemma OpaqueNarrowsNothing(declared: Declared, env: Environment, condition: Condition, outcome: bool,
                             dirty: set<Variable>)
    requires condition.Other?
    ensures var c := ReduceCondition(declared, env, condition);
            c.Other? && Apply(env, c, outcome) == env && dirty - NarrowedBy(c, outcome) == dirty
  {
  }

  /** A variable and a value of its declared type that its entry excludes. */
  ghost predicate Excluded(w: World, declared: Declared, env: Environment, v: Variable, bad: Value) {
    v.Local? && Holds(w, declared(v), bad) && (v in env ==> !Holds(w, env[v], bad))
  }

  /** The run takes the exit, and `v` has the bad value if the exit allows it. */
  ghost predicate Took(w: World, declared: Declared, r: Result, exits: Exits, end: End, v: Variable, bad: Value,
                       before: Store) {
    && r.possible && r.end == end && Normal(w, declared, r.store) && ExitBy(exits, end).Some?
    && (v in ExitBy(exits, end).value || before(v) == bad ==> r.store(v) == bad)
  }

  lemma StoresKeepTypes(w: World, declared: Declared, store: Store, target: Variable)
    requires Normal(w, declared, store)
    ensures Holds(w, declared(target), store(target))
  {
    assert Lookup(declared, map[], target) == declared(target);
  }

  lemma AssignIsTaken(w: World, declared: Declared, target: Variable, v: Variable, bad: Value, store: Store)
    returns (run: Run)
    requires Normal(w, declared, store) && Holds(w, declared(v), bad)
    ensures Took(w, declared, Exec(w, declared, Assign(target), run, store), ExitsOf(Assign(target)), Fell, v, bad,
                 store)
  {
    var value := if target == v then bad else store(target);
    StoresKeepTypes(w, declared, store, target);
    run := Written(value);
    AssignedIsSound(w, declared, map[], target, value, store, Exec(w, declared, Assign(target), run, store).store);
    var none: Environment := map[];
    assert none - {target} == none;
  }

  lemma {:induction false} ExitIsTaken(w: World, declared: Declared, env: Environment, s: Stmt, end: End, v: Variable,
                                       bad: Value, store: Store)
    returns (run: Run)
    requires Opaque(s) && Normal(w, declared, store) && Holds(w, declared(v), bad) && ExitBy(ExitsOf(s), end).Some?
    ensures Took(w, declared, Exec(w, declared, Analyze(declared, env, s, false).0, run, store), ExitsOf(s), end, v,
                 bad, store)
    decreases s, 1
  {
    run := Step;
    match s
    case Assign(target) =>
      run := AssignIsTaken(w, declared, target, v, bad, store);
    case If(condition, whenTrue, whenFalse) =>
      run := BranchExitIsTaken(w, declared, env, s, end, v, bad, store);
    case While(condition, loop) =>
      var rounds := LoopExitIsTaken(w, declared, env, condition, loop, v, bad, store);
      run := Rounds(rounds);
    case _ =>
  }

  lemma {:induction false} BranchExitIsTaken(w: World, declared: Declared, env: Environment, s: Stmt, end: End,
                                             v: Variable, bad: Value, store: Store)
    returns (run: Run)
    requires s.If? && Opaque(s) && Normal(w, declared, store) && Holds(w, declared(v), bad)
             && ExitBy(ExitsOf(s), end).Some?
    ensures Took(w, declared, Exec(w, declared, Analyze(declared, env, s, false).0, run, store), ExitsOf(s), end, v,
                 bad, store)
    decreases s, 0
  {
    OpaqueNarrowsNothing(declared, env, s.condition, true, {});
    OpaqueNarrowsNothing(declared, env, s.condition, false, {});
    var t, e := ExitBy(ExitsOfSuite(s.whenTrue), end), ExitBy(ExitsOfSuite(s.whenFalse), end);
    if t.Some? && (e.None? || v in t.value) {
      var body := SuiteExitIsTaken(w, declared, env, s.whenTrue, end, v, bad, store);
      run := Taken(true, body);
    } else {
      var body := SuiteExitIsTaken(w, declared, env, s.whenFalse, end, v, bad, store);
      run := Taken(false, body);
    }
  }

  lemma {:induction false} SuiteExitIsTaken(w: World, declared: Declared, env: Environment, ss: seq<Stmt>, end: End,
                                            v: Variable, bad: Value, store: Store)
    returns (runs: seq<Run>)
    requires OpaqueSuite(ss) && Normal(w, declared, store) && Holds(w, declared(v), bad)
             && ExitBy(ExitsOfSuite(ss), end).Some?
    ensures Took(w, declared, ExecSuite(w, declared, AnalyzeSuite(declared, env, ss, false).0, runs, store),
                 ExitsOfSuite(ss), end, v, bad, store)
    decreases ss, 0
  {
    runs := [];
    if ss != [] {
      var typed := Analyze(declared, env, ss[0], false);
      var tail := AnalyzeSuite(declared, typed.1, ss[1..], false).0;
      assert ([typed.0] + tail)[1..] == tail;
      var first := ExitsOf(ss[0]);
      var direct := if end == Fell then None else ExitBy(first, end);
      if direct.Some? && (v in direct.value || first.next.None? || ExitBy(ExitsOfSuite(ss[1..]), end).None?) {
        var run := ExitIsTaken(w, declared, env, ss[0], end, v, bad, store);
        runs := [run];
      } else {
        var run := ExitIsTaken(w, declared, env, ss[0], Fell, v, bad, store);
        var after := Exec(w, declared, typed.0, run, store).store;
        var rest := SuiteExitIsTaken(w, declared, typed.1, ss[1..], end, v, bad, after);
        runs := [run] + rest;
        assert runs[1..] == rest;
      }
    }
  }

  /** At most one round brings the loop back to its test. */
  lemma {:induction false} HeadIsReached(w: World, declared: Declared, env: Environment, condition: Condition,
                                         loop: seq<Stmt>, v: Variable, bad: Value, store: Store)
    returns (rounds: seq<seq<Run>>)
    requires condition.Other? && OpaqueSuite(loop) && Normal(w, declared, store) && Holds(w, declared(v), bad)
    ensures |rounds| <= 1
    ensures var typed := AnalyzeSuite(declared, env, loop, false).0;
            |rounds| == 1 ==>
              var round := ExecSuite(w, declared, typed, rounds[0], store);
              && round.possible && (round.end == Fell || round.end == Continued) && Normal(w, declared, round.store)
              && round.store(v) == bad
    ensures (v in AtHead(loop) || store(v) == bad) ==> |rounds| == 1 || store(v) == bad
    decreases loop, 1
  {
    rounds := [];
    var exits := ExitsOfSuite(loop);
    if v in Elements(exits.next) {
      var body := SuiteExitIsTaken(w, declared, env, loop, Fell, v, bad, store);
      rounds := [body];
    } else if v in Elements(exits.continued) {
      var body := SuiteExitIsTaken(w, declared, env, loop, Continued, v, bad, store);
      rounds := [body];
    }
  }

  lemma {:induction false} LoopExitIsTaken(w: World, declared: Declared, env: Environment, condition: Condition,
                                           loop: seq<Stmt>, v: Variable, bad: Value, store: Store)
    returns (rounds: seq<seq<Run>>)
    requires condition.Other? && OpaqueSuite(loop) && Normal(w, declared, store) && Holds(w, declared(v), bad)
    ensures Took(w, declared,
                 ExecLoop(w, declared, ReduceCondition(declared, env, condition),
                          AnalyzeSuite(declared, env, loop, false).0, rounds, store),
                 ExitsOf(While(condition, loop)), Fell, v, bad, store)
    decreases loop, 2
  {
    var exits := ExitsOfSuite(loop);
    if v in Elements(exits.broke) {
      var body := SuiteExitIsTaken(w, declared, env, loop, Broke, v, bad, store);
      rounds := [body];
    } else {
      rounds := HeadIsReached(w, declared, env, condition, loop, v, bad, store);
      if rounds != [] {
        assert rounds[1..] == [];
      }
    }
  }

  ghost predicate GoesWrong(r: Result) {
    r.possible && !r.typed
  }

  lemma MentionIsMistyped(w: World, declared: Declared, env: Environment, o: Operand, v: Variable, store: Store)
    requires v in MentionedBy(o) && v in env && !Holds(w, env[v], store(v))
    ensures !OperandTyped(w, store, ReduceOperand(declared, env, o))
  {
  }

  lemma ConditionIsMistyped(w: World, declared: Declared, env: Environment, c: Condition, v: Variable, store: Store)
    requires c.Other? && v in MentionedIn(c) && v in env && !Holds(w, env[v], store(v))
    ensures !WellTyped(w, store, ReduceCondition(declared, env, c))
  {
    var i :| 0 <= i < |c.operands| && v in MentionedBy(c.operands[i]);
    MentionIsMistyped(w, declared, env, c.operands[i], v, store);
    assert ReduceCondition(declared, env, c).operands[i] == ReduceOperand(declared, env, c.operands[i]);
  }

  lemma {:induction false} StaleReadHappens(w: World, declared: Declared, env: Environment, s: Stmt,
                                            dirty: set<Variable>, v: Variable, bad: Value, store: Store)
    returns (run: Run)
    requires Opaque(s) && Normal(w, declared, store) && Excluded(w, declared, env, v, bad)
    requires v in StaleReads(declared, env, s, dirty) && (v in dirty ==> store(v) == bad)
    ensures GoesWrong(Exec(w, declared, Analyze(declared, env, s, false).0, run, store))
    decreases s, 1
  {
    run := Step;
    match s
    case Use(operand) => MentionIsMistyped(w, declared, env, operand, v, store);
    case Assert(condition) => ConditionIsMistyped(w, declared, env, condition, v, store);
    case If(condition, whenTrue, whenFalse) =>
      OpaqueNarrowsNothing(declared, env, condition, true, dirty);
      OpaqueNarrowsNothing(declared, env, condition, false, dirty);
      if v in MentionedIn(condition) * dirty * env.Keys {
        ConditionIsMistyped(w, declared, env, condition, v, store);
        run := Taken(true, []);
        PausedIsPossible(w, declared, AnalyzeSuite(declared, env, whenTrue, false).0, store);
      } else if v in StaleReadsInSuite(declared, env, whenTrue, dirty) {
        var body := StaleReadInSuiteHappens(w, declared, env, whenTrue, dirty, v, bad, store);
        run := Taken(true, body);
      } else {
        var body := StaleReadInSuiteHappens(w, declared, env, whenFalse, dirty, v, bad, store);
        run := Taken(false, body);
      }
    case While(condition, loop) =>
      var rounds := StaleReadInLoopHappens(w, declared, env, condition, loop, dirty, v, bad, store);
      run := Rounds(rounds);
    case _ =>
  }

  lemma PausedIsPossible(w: World, declared: Declared, ss: seq<Stmt>, store: Store)
    ensures ExecSuite(w, declared, ss, [], store).possible
  {
  }

  lemma {:induction false} StaleReadInSuiteHappens(w: World, declared: Declared, env: Environment, ss: seq<Stmt>,
                                                   dirty: set<Variable>, v: Variable, bad: Value, store: Store)
    returns (runs: seq<Run>)
    requires OpaqueSuite(ss) && Normal(w, declared, store) && Excluded(w, declared, env, v, bad)
    requires v in StaleReadsInSuite(declared, env, ss, dirty) && (v in dirty ==> store(v) == bad)
    ensures GoesWrong(ExecSuite(w, declared, AnalyzeSuite(declared, env, ss, false).0, runs, store))
    decreases ss, 0
  {
    var typed := Analyze(declared, env, ss[0], false);
    var tail := AnalyzeSuite(declared, typed.1, ss[1..], false).0;
    assert ([typed.0] + tail)[1..] == tail;
    if v in StaleReads(declared, env, ss[0], dirty) {
      var run := StaleReadHappens(w, declared, env, ss[0], dirty, v, bad, store);
      runs := [run];
      PausedIsPossible(w, declared, tail, Exec(w, declared, typed.0, run, store).store);
    } else {
      var run := ExitIsTaken(w, declared, env, ss[0], Fell, v, bad, store);
      var after := Exec(w, declared, typed.0, run, store).store;
      var rest := StaleReadInSuiteHappens(w, declared, typed.1, ss[1..], DirtyBehind(declared, env, ss[0], dirty), v,
                                          bad, after);
      runs := [run] + rest;
      assert runs[1..] == rest;
    }
  }

  lemma {:induction false} StaleReadInLoopHappens(w: World, declared: Declared, env: Environment, condition: Condition,
                                                  loop: seq<Stmt>,
                                                  dirty: set<Variable>, v: Variable, bad: Value, store: Store)
    returns (rounds: seq<seq<Run>>)
    requires condition.Other? && OpaqueSuite(loop) && Normal(w, declared, store) && Excluded(w, declared, env, v, bad)
    requires v in StaleReads(declared, env, While(condition, loop), dirty) && (v in dirty ==> store(v) == bad)
    ensures GoesWrong(ExecLoop(w, declared, ReduceCondition(declared, env, condition),
                               AnalyzeSuite(declared, env, loop, false).0, rounds, store))
    decreases loop, 2
  {
    var c := ReduceCondition(declared, env, condition);
    var typed := AnalyzeSuite(declared, env, loop, false).0;
    var head := dirty + AtHead(loop);
    OpaqueNarrowsNothing(declared, env, condition, true, head);
    var first := HeadIsReached(w, declared, env, condition, loop, v, bad, store);
    var atHead := if first == [] then store else ExecSuite(w, declared, typed, first[0], store).store;
    var last: seq<seq<Run>> := [];
    if v in MentionedIn(condition) * head * env.Keys {
      ConditionIsMistyped(w, declared, env, condition, v, atHead);
    } else {
      var body := StaleReadInSuiteHappens(w, declared, env, loop, head, v, bad, atHead);
      last := [body];
      assert last[1..] == [];
    }
    assert GoesWrong(ExecLoop(w, declared, c, typed, last, atHead));
    rounds := first + last;
    if first == [] {
      assert rounds == last;
    } else {
      assert rounds[0] == first[0] && rounds[1..] == last;
    }
  }

  /** Every possible run of the analysed body reads what it was told. */
  ghost predicate AlwaysTyped(w: World, declared: Declared, typed: seq<Stmt>, store: Store) {
    forall runs :: !GoesWrong(ExecSuite(w, declared, typed, runs, store))
  }

  /** Where every condition can have either outcome and every entry of the table
      excludes some value of the declared type, the body is typed in every run if
      and only if no path leads to a read of a stale entry. */
  lemma OpaqueBodiesAreTypedIff(w: World, declared: Declared, env: Environment, body: seq<Stmt>, store: Store)
    requires Normal(w, declared, store) && Sound(w, declared, env, store) && NormalSuite(body) && OpaqueSuite(body)
    requires forall v :: v in env ==> exists bad :: Excluded(w, declared, env, v, bad)
    ensures AlwaysTyped(w, declared, AnalyzeSuite(declared, env, body, false).0, store)
            <==> StaleReadsInSuite(declared, env, body, {}) == {}
  {
    var typed := AnalyzeSuite(declared, env, body, false).0;
    if v :| v in StaleReadsInSuite(declared, env, body, {}) {
      StaleReadsAreEntries(declared, env, body, {}, v);
      var bad :| Excluded(w, declared, env, v, bad);
      var runs := StaleReadInSuiteHappens(w, declared, env, body, {}, v, bad, store);
      assert GoesWrong(ExecSuite(w, declared, typed, runs, store));
      assert !AlwaysTyped(w, declared, typed, store);
    } else {
      forall runs
        ensures !GoesWrong(ExecSuite(w, declared, typed, runs, store))
      {
        if GoesWrong(ExecSuite(w, declared, typed, runs, store)) {
          BodiesWithoutStaleReadsAreTyped(w, declared, env, body, runs, store);
        }
      }
      assert AlwaysTyped(w, declared, typed, store);
    }
  }

  lemma {:induction false} StaleReadsAreEntries(declared: Declared, env: Environment, ss: seq<Stmt>,
                                                dirty: set<Variable>, v: Variable)
    requires OpaqueSuite(ss) && v in StaleReadsInSuite(declared, env, ss, dirty)
    ensures v in env
    decreases ss
  {
    if v in StaleReads(declared, env, ss[0], dirty) {
      match ss[0]
      case If(condition, whenTrue, whenFalse) =>
        OpaqueNarrowsNothing(declared, env, condition, true, dirty);
        OpaqueNarrowsNothing(declared, env, condition, false, dirty);
        if v in StaleReadsInSuite(declared, env, whenTrue, dirty) {
          StaleReadsAreEntries(declared, env, whenTrue, dirty, v);
        } else if v in StaleReadsInSuite(declared, env, whenFalse, dirty) {
          StaleReadsAreEntries(declared, env, whenFalse, dirty, v);
        }
      case While(condition, loop) =>
        OpaqueNarrowsNothing(declared, env, condition, true, dirty + AtHead(loop));
        if v in StaleReadsInSuite(declared, env, loop, dirty + AtHead(loop)) {
          StaleReadsAreEntries(declared, env, loop, dirty + AtHead(loop), v);
        }
      case _ =>
    } else {
      StaleReadsAreEntries(declared, Analyze(declared, env, ss[0], false).1, ss[1..],
                           DirtyBehind(declared, env, ss[0], dirty), v);
    }
  }
}
