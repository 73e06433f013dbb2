/** When does a body write some final twice?  The analysis looks at a loop body
    once, so it cannot answer for loops that write finals.  `Flow` answers
    exactly: it follows `break` and `continue` and lets a loop go round again. */
module WriteOnce {
  import opened Options
  import opened Syntax
  import opened FinalResolution
  import opened DefiniteAssignment
  import opened AssignmentRuns

  /** For each way to leave a statement: `None` if it cannot happen, otherwise
      the finals that may have been written by then. */
  datatype Flow = Flow(next: Option<set<Variable>>, broke: Option<set<Variable>>, continued: Option<set<Variable>>,
                       twice: set<Variable>)

  const NOWHERE := Flow(None, None, None, {})

  function Join(a: Option<set<Variable>>, b: Option<set<Variable>>): Option<set<Variable>> {
    if a.None? then b else if b.None? then a else Some(a.value + b.value)
  }

  function JoinFlows(a: Flow, b: Flow): Flow {
    Flow(Join(a.next, b.next), Join(a.broke, b.broke), Join(a.continued, b.continued), a.twice + b.twice)
  }

  function Elements(a: Option<set<Variable>>): set<Variable> {
    if a.None? then {} else a.value
  }

  /** The finals that an assignment may write, as a whole or in part. */
  function Touched(ctx: Context, assignee: Expr): set<Variable> {
    Slot(ctx, assignee) + LateSlots(ctx, assignee) + PartSlots(ctx, assignee)
  }

  function FlowStatement(ctx: Context, s: Stmt, before: set<Variable>): Flow
    decreases s, 0
  {
    var on := NOWHERE.(next := Some(before));
    match s
    case Assignment(assignee, _, _) =>
      var targets := Slot(ctx, assignee) + LateSlots(ctx, assignee);
      NOWHERE.(next := Some(before + targets), twice := before * Touched(ctx, assignee))
    case If(_, trueBlock, falseBlock) =>
      JoinFlows(FlowSuite(ctx, trueBlock, before), FlowSuite(ctx, falseBlock, before))
    case For(_, loop) => FlowLoop(ctx, loop, before)
    case While(_, loop) => FlowLoop(ctx, loop, before)
    case Match(_, branches) => FlowBranches(ctx, branches, before)
    case Return(_) => NOWHERE
    case Break => NOWHERE.(broke := Some(before))
    case Continue => NOWHERE.(continued := Some(before))
    case Declare(variable, initializer) =>
      if initializer.None? then on
      else on.(next := Some(before + Declared(ctx, if variable.isFinal then {variable} else {})))
    case Destructure(bindings, initializer) =>
      if initializer.None? then on else on.(next := Some(before + Declared(ctx, AsSet(bindings))))
    case Assert(_, _) => on
    case Suite(statements) => FlowSuite(ctx, statements, before)
    case Evaluate(e) => if NeverReturns(e) then NOWHERE else on
    case Pass => on
  }

  function FlowSuite(ctx: Context, ss: seq<Stmt>, before: set<Variable>): Flow
    decreases ss, 0
  {
    if ss == [] then NOWHERE.(next := Some(before)) else
    var first := FlowStatement(ctx, ss[0], before);
    if first.next.None? then first
    else JoinFlows(first.(next := None), FlowSuite(ctx, ss[1..], first.next.value))
  }

  /** What may be written when the loop tests its condition. */
  function AtHead(once: Flow, before: set<Variable>): set<Variable> {
    before + Elements(once.next) + Elements(once.continued)
  }

  function FlowLoop(ctx: Context, loop: seq<Stmt>, before: set<Variable>): Flow
    decreases loop, 1
  {
    var head := AtHead(FlowSuite(ctx, loop, before), before);
    var again := FlowSuite(ctx, loop, head);
    NOWHERE.(next := Some(head + Elements(again.broke)), twice := again.twice)
  }

  function FlowBlock(ctx: Context, b: Branch, before: set<Variable>): Flow
    decreases b, 0
  {
    if b.guard.Some? && NeverReturns(b.guard.value) then NOWHERE else FlowSuite(ctx, b.block, before)
  }

  function FlowBranches(ctx: Context, bs: seq<Branch>, before: set<Variable>): Flow
    decreases bs, 0
  {
    if bs == [] then NOWHERE.(next := Some(before))
    else if CatchAll(bs[0]) then FlowBlock(ctx, bs[0], before)
    else JoinFlows(FlowBlock(ctx, bs[0], before), FlowBranches(ctx, bs[1..], before))
  }

  function Exit(flow: Flow, outcome: Outcome): Option<set<Variable>> {
    match outcome
    case Next => flow.next
    case Broke => flow.broke
    case Continued => flow.continued
    case _ => None
  }

  predicate Leaves(o: Outcome) {
    o.Next? || o.Broke? || o.Continued?
  }

  function Widened(a: Option<set<Variable>>, more: set<Variable>): Option<set<Variable>> {
    if a.None? then None else Some(a.value + more)
  }

  /** What was written earlier only adds to what is written at every exit. */
  ghost predicate Distributes(narrow: Flow, wide: Flow, more: set<Variable>) {
    && wide.next == Widened(narrow.next, more)
    && wide.broke == Widened(narrow.broke, more)
    && wide.continued == Widened(narrow.continued, more)
    && narrow.twice <= wide.twice
  }

  lemma JoinsDistribute(a: Flow, a': Flow, b: Flow, b': Flow, more: set<Variable>)
    requires Distributes(a, a', more) && Distributes(b, b', more)
    ensures Distributes(JoinFlows(a, b), JoinFlows(a', b'), more)
  {
    WidenedJoin(a.next, b.next, more);
    WidenedJoin(a.broke, b.broke, more);
    WidenedJoin(a.continued, b.continued, more);
  }

  lemma WidenedJoin(a: Option<set<Variable>>, b: Option<set<Variable>>, more: set<Variable>)
    ensures Join(Widened(a, more), Widened(b, more)) == Widened(Join(a, b), more)
  {
    if a.Some? && b.Some? {
      assert a.value + more + (b.value + more) == a.value + b.value + more;
    }
  }

  lemma {:induction false} FlowDistributes(ctx: Context, s: Stmt, before: set<Variable>, more: set<Variable>)
    ensures Distributes(FlowStatement(ctx, s, before), FlowStatement(ctx, s, before + more), more)
    decreases s, 0
  {
    match s
    case If(_, trueBlock, falseBlock) =>
      SuiteDistributes(ctx, trueBlock, before, more);
      SuiteDistributes(ctx, falseBlock, before, more);
      JoinsDistribute(FlowSuite(ctx, trueBlock, before), FlowSuite(ctx, trueBlock, before + more),
                      FlowSuite(ctx, falseBlock, before), FlowSuite(ctx, falseBlock, before + more), more);
    case For(_, loop) => LoopDistributes(ctx, loop, before, more);
    case While(_, loop) => LoopDistributes(ctx, loop, before, more);
    case Match(_, branches) => BranchesDistribute(ctx, branches, before, more);
    case Suite(statements) => SuiteDistributes(ctx, statements, before, more);
    case Assignment(assignee, _, _) =>
      var targets := Slot(ctx, assignee) + LateSlots(ctx, assignee);
      assert before + more + targets == before + targets + more;
    case Declare(variable, _) =>
      var vs := Declared(ctx, if variable.isFinal then {variable} else {});
      assert before + more + vs == before + vs + more;
    case Destructure(bindings, _) =>
      var vs := Declared(ctx, AsSet(bindings));
      assert before + more + vs == before + vs + more;
    case _ =>
  }

  lemma {:induction false} SuiteDistributes(ctx: Context, ss: seq<Stmt>, before: set<Variable>, more: set<Variable>)
    ensures Distributes(FlowSuite(ctx, ss, before), FlowSuite(ctx, ss, before + more), more)
    decreases ss, 0
  {
    if ss != [] {
      FlowDistributes(ctx, ss[0], before, more);
      var first := FlowStatement(ctx, ss[0], before);
      if first.next.Some? {
        SuiteDistributes(ctx, ss[1..], first.next.value, more);
        var wide := FlowStatement(ctx, ss[0], before + more);
        JoinsDistribute(first.(next := None), wide.(next := None),
                        FlowSuite(ctx, ss[1..], first.next.value), FlowSuite(ctx, ss[1..], first.next.value + more),
                        more);
      }
    }
  }

  lemma {:induction false} LoopDistributes(ctx: Context, loop: seq<Stmt>, before: set<Variable>, more: set<Variable>)
    ensures Distributes(FlowLoop(ctx, loop, before), FlowLoop(ctx, loop, before + more), more)
    decreases loop, 1
  {
    SuiteDistributes(ctx, loop, before, more);
    var head := AtHead(FlowSuite(ctx, loop, before), before);
    assert AtHead(FlowSuite(ctx, loop, before + more), before + more) == head + more;
    SuiteDistributes(ctx, loop, head, more);
    var again, wide := FlowSuite(ctx, loop, head), FlowSuite(ctx, loop, head + more);
    assert head + more + Elements(wide.broke) == head + Elements(again.broke) + more;
  }

  lemma {:induction false} BranchesDistribute(ctx: Context, bs: seq<Branch>, before: set<Variable>, more: set<Variable>)
    ensures Distributes(FlowBranches(ctx, bs, before), FlowBranches(ctx, bs, before + more), more)
    decreases bs, 0
  {
    if bs != [] {
      SuiteDistributes(ctx, bs[0].block, before, more);
      BranchesDistribute(ctx, bs[1..], before, more);
      JoinsDistribute(FlowBlock(ctx, bs[0], before), FlowBlock(ctx, bs[0], before + more),
                      FlowBranches(ctx, bs[1..], before), FlowBranches(ctx, bs[1..], before + more), more);
    }
  }

  /** Going round again writes nothing new: the head is a fixed point. */
  lemma HeadIsStable(ctx: Context, loop: seq<Stmt>, before: set<Variable>)
    ensures var once := FlowSuite(ctx, loop, before);
            var head := AtHead(once, before);
            var again := FlowSuite(ctx, loop, head);
            Elements(again.next) <= head && Elements(again.continued) <= head && Distributes(once, again, head)
  {
    var head := AtHead(FlowSuite(ctx, loop, before), before);
    SuiteDistributes(ctx, loop, before, head);
    assert before + head == head;
  }

  ghost predicate ExitsWithin(flow: Flow, bound: set<Variable>) {
    Elements(flow.next) <= bound && Elements(flow.broke) <= bound && Elements(flow.continued) <= bound
  }

  lemma {:induction false} FlowGrows(ctx: Context, s: Stmt, before: set<Variable>)
    ensures ExitsWithin(FlowStatement(ctx, s, before), before + Writes(ctx, s))
    ensures FlowStatement(ctx, s, before).twice <= before + Writes(ctx, s)
    decreases s, 0
  {
    match s
    case If(_, trueBlock, falseBlock) =>
      SuiteFlowGrows(ctx, trueBlock, before);
      SuiteFlowGrows(ctx, falseBlock, before);
    case For(_, loop) => LoopFlowGrows(ctx, loop, before);
    case While(_, loop) => LoopFlowGrows(ctx, loop, before);
    case Match(_, branches) => BranchesFlowGrows(ctx, branches, before);
    case Suite(statements) => SuiteFlowGrows(ctx, statements, before);
    case _ =>
  }

  lemma {:induction false} SuiteFlowGrows(ctx: Context, ss: seq<Stmt>, before: set<Variable>)
    ensures ExitsWithin(FlowSuite(ctx, ss, before), before + WritesOfAll(ctx, ss))
    ensures FlowSuite(ctx, ss, before).twice <= before + WritesOfAll(ctx, ss)
    decreases ss, 0
  {
    if ss != [] {
      FlowGrows(ctx, ss[0], before);
      var first := FlowStatement(ctx, ss[0], before);
      if first.next.Some? {
        SuiteFlowGrows(ctx, ss[1..], first.next.value);
      }
    }
  }

  lemma {:induction false} LoopFlowGrows(ctx: Context, loop: seq<Stmt>, before: set<Variable>)
    ensures ExitsWithin(FlowLoop(ctx, loop, before), before + WritesOfAll(ctx, loop))
    ensures FlowLoop(ctx, loop, before).twice <= before + WritesOfAll(ctx, loop)
    decreases loop, 1
  {
    SuiteFlowGrows(ctx, loop, before);
    SuiteFlowGrows(ctx, loop, AtHead(FlowSuite(ctx, loop, before), before));
  }

  lemma {:induction false} BranchesFlowGrows(ctx: Context, bs: seq<Branch>, before: set<Variable>)
    ensures ExitsWithin(FlowBranches(ctx, bs, before), before + WritesOfBranches(ctx, bs))
    ensures FlowBranches(ctx, bs, before).twice <= before + WritesOfBranches(ctx, bs)
    decreases bs, 0
  {
    if bs != [] {
      SuiteFlowGrows(ctx, bs[0].block, before);
      BranchesFlowGrows(ctx, bs[1..], before);
    }
  }

  /** No run writes more, or writes more often, than `flow` says. */
  ghost predicate Covers(flow: Flow, r: Run) {
    && (Leaves(r.outcome) ==> Exit(flow, r.outcome).Some? && r.written <= Exit(flow, r.outcome).value)
    && (forall v :: WrittenTwice(v) in r.faults ==> v in flow.twice)
  }

  lemma StoreCovers(ctx: Context, assignee: Expr, compound: bool, assignedValue: Expr, before: set<Variable>,
                    path: Path, written: set<Variable>)
    requires written <= before
    ensures Covers(FlowStatement(ctx, Assignment(assignee, compound, assignedValue), before),
                   ExecAssignment(ctx, assignee, compound, assignedValue, path, written))
  {
    var stored, altered := Stored(ctx, assignee, EvalAt(path, 1)), Altered(ctx, assignee, EvalAt(path, 1));
    assert stored <= Slot(ctx, assignee) + LateSlots(ctx, assignee);
    assert stored + altered <= Touched(ctx, assignee);
    StoreWritesTwice(ctx, assignee, compound, assignedValue, path, written);
    assert (stored + altered) * written <= before * Touched(ctx, assignee);
  }

  lemma LeafCovers(ctx: Context, s: Stmt, before: set<Variable>, path: Path, written: set<Variable>)
    requires written <= before && IsLeaf(s)
    ensures Covers(FlowStatement(ctx, s, before), Exec(ctx, s, path, written))
  {
    if s.Assignment? && !path.Stopped? {
      StoreCovers(ctx, s.assignee, s.compound, s.assignedValue, before, path, written);
    }
  }

  lemma {:induction false} FlowCovers(ctx: Context, s: Stmt, before: set<Variable>, path: Path, written: set<Variable>)
    requires written <= before
    ensures Covers(FlowStatement(ctx, s, before), Exec(ctx, s, path, written))
    decreases s, 1, 0
  {
    match s
    case If(_, trueBlock, falseBlock) =>
      if path.Branching? { SuiteCovers(ctx, if path.taken then trueBlock else falseBlock, before, path.body, written); }
    case For(_, loop) => if path.Looping? { LoopCovers(ctx, Literal, loop, before, path.rounds, written); }
    case While(condition, loop) => if path.Looping? { LoopCovers(ctx, condition, loop, before, path.rounds, written); }
    case Match(_, branches) => if path.Matching? { BranchesCover(ctx, branches, before, path.arms, written); }
    case Suite(statements) => if path.Branching? { SuiteCovers(ctx, statements, before, path.body, written); }
    case _ => LeafCovers(ctx, s, before, path, written);
  }

  lemma {:induction false} SuiteCovers(ctx: Context, ss: seq<Stmt>, before: set<Variable>, paths: seq<Path>,
                                       written: set<Variable>)
    requires written <= before
    ensures Covers(FlowSuite(ctx, ss, before), ExecSuite(ctx, ss, paths, written))
    decreases ss, 1, 0
  {
    if ss != [] && paths != [] {
      FlowCovers(ctx, ss[0], before, paths[0], written);
      var first := Exec(ctx, ss[0], paths[0], written);
      if first.outcome == Next {
        SuiteCovers(ctx, ss[1..], FlowStatement(ctx, ss[0], before).next.value, paths[1..], first.written);
      }
    }
  }

  lemma LoopCovers(ctx: Context, test: Expr, loop: seq<Stmt>, before: set<Variable>, rounds: seq<Round>,
                   written: set<Variable>)
    requires written <= before
    ensures Covers(FlowLoop(ctx, loop, before), ExecLoop(ctx, test, loop, rounds, written))
    decreases loop, 3, 0
  {
    HeadIsStable(ctx, loop, before);
    RoundsCover(ctx, test, loop, AtHead(FlowSuite(ctx, loop, before), before), rounds, written);
  }

  lemma {:induction false} RoundsCover(ctx: Context, test: Expr, loop: seq<Stmt>, head: set<Variable>,
                                       rounds: seq<Round>, written: set<Variable>)
    requires written <= head
    requires var again := FlowSuite(ctx, loop, head); Elements(again.next) <= head && Elements(again.continued) <= head
    ensures var again := FlowSuite(ctx, loop, head);
            Covers(NOWHERE.(next := Some(head + Elements(again.broke)), twice := again.twice),
                   ExecLoop(ctx, test, loop, rounds, written))
    decreases loop, 2, |rounds|
  {
    if rounds != [] {
      SuiteCovers(ctx, loop, head, rounds[0].body, written);
      var body := ExecSuite(ctx, loop, rounds[0].body, written);
      if body.outcome == Next || body.outcome == Continued {
        RoundsCover(ctx, test, loop, head, rounds[1..], body.written);
      }
    }
  }

  lemma {:induction false} BranchesCover(ctx: Context, bs: seq<Branch>, before: set<Variable>, arms: seq<Arm>,
                                         written: set<Variable>)
    requires written <= before
    ensures Covers(FlowBranches(ctx, bs, before), ExecBranches(ctx, bs, arms, written))
    decreases bs, 1, 0
  {
    if bs != [] && arms != [] {
      SuiteCovers(ctx, bs[0].block, before, arms[0].body, written);
      BranchesCover(ctx, bs[1..], before, arms[1..], written);
    }
  }

  /** Loops declare no tracked final: always so for member and static finals. */
  predicate LoopsDeclareNothing(ctx: Context, s: Stmt)
    decreases s, 0
  {
    match s
    case If(_, trueBlock, falseBlock) =>
      SuiteLoopsDeclareNothing(ctx, trueBlock) && SuiteLoopsDeclareNothing(ctx, falseBlock)
    case For(_, loop) => DeclaresOfAll(ctx, loop) == {} && SuiteLoopsDeclareNothing(ctx, loop)
    case While(_, loop) => DeclaresOfAll(ctx, loop) == {} && SuiteLoopsDeclareNothing(ctx, loop)
    case Match(_, branches) => BranchLoopsDeclareNothing(ctx, branches)
    case Suite(statements) => SuiteLoopsDeclareNothing(ctx, statements)
    case _ => true
  }

  predicate SuiteLoopsDeclareNothing(ctx: Context, ss: seq<Stmt>)
    decreases ss, 0
  {
    ss == [] || (LoopsDeclareNothing(ctx, ss[0]) && SuiteLoopsDeclareNothing(ctx, ss[1..]))
  }

  predicate BranchLoopsDeclareNothing(ctx: Context, bs: seq<Branch>)
    decreases bs, 0
  {
    bs == [] || (SuiteLoopsDeclareNothing(ctx, bs[0].block) && BranchLoopsDeclareNothing(ctx, bs[1..]))
  }

  /** Every exit in `flow` is taken by some run, and that run can be chosen to
      have written any one final that `flow` allows there. */
  ghost predicate Reached(flow: Flow, outcome: Outcome, v: Variable, r: Run) {
    r.outcome == outcome && Exit(flow, outcome).Some? && (v in Exit(flow, outcome).value ==> v in r.written)
  }

  lemma {:induction false} ExitIsReached(ctx: Context, s: Stmt, before: set<Variable>, outcome: Outcome, v: Variable,
                                         written: set<Variable>)
    returns (path: Path)
    requires Exit(FlowStatement(ctx, s, before), outcome).Some? && (v in before ==> v in written)
    requires Scoped(ctx, s) && LoopsDeclareNothing(ctx, s) && before !! Declares(ctx, s)
    ensures Once(path)
    ensures Reached(FlowStatement(ctx, s, before), outcome, v, Exec(ctx, s, path, written))
    decreases s, 1, 0
  {
    path := Simple([Eval(false, []), Eval(false, [], Some(v))]);
    match s
    case If(_, trueBlock, falseBlock) =>
      var t, e := Exit(FlowSuite(ctx, trueBlock, before), outcome), Exit(FlowSuite(ctx, falseBlock, before), outcome);
      if t.Some? && (e.None? || v in t.value) {
        var body := SuiteExitIsReached(ctx, trueBlock, before, outcome, v, written);
        path := Branching([], true, body);
      } else {
        var body := SuiteExitIsReached(ctx, falseBlock, before, outcome, v, written);
        path := Branching([], false, body);
      }
    case For(_, loop) =>
      var rounds := LoopExitIsReached(ctx, Literal, loop, before, v, written);
      path := Looping([], rounds);
    case While(condition, loop) =>
      var rounds := LoopExitIsReached(ctx, condition, loop, before, v, written);
      path := Looping([], rounds);
    case Match(_, branches) =>
      var arms := BranchExitIsReached(ctx, branches, before, outcome, v, written);
      path := Matching([], arms);
    case Suite(statements) =>
      var body := SuiteExitIsReached(ctx, statements, before, outcome, v, written);
      path := Branching([], true, body);
    case _ =>
  }

  lemma {:induction false} SuiteExitIsReached(ctx: Context, ss: seq<Stmt>, before: set<Variable>, outcome: Outcome,
                                              v: Variable, written: set<Variable>)
    returns (paths: seq<Path>)
    requires Exit(FlowSuite(ctx, ss, before), outcome).Some? && (v in before ==> v in written)
    requires ScopedSuite(ctx, ss) && SuiteLoopsDeclareNothing(ctx, ss) && before !! DeclaresOfAll(ctx, ss)
    ensures AllOnce(paths)
    ensures Reached(FlowSuite(ctx, ss, before), outcome, v, ExecSuite(ctx, ss, paths, written))
    decreases ss, 1, 0
  {
    paths := [];
    if ss != [] {
      var first := FlowStatement(ctx, ss[0], before);
      FlowGrows(ctx, ss[0], before);
      var direct := if outcome == Next then None else Exit(first, outcome);
      if direct.Some? && (v in direct.value || first.next.None?
                          || Exit(FlowSuite(ctx, ss[1..], first.next.value), outcome).None?) {
        var head := ExitIsReached(ctx, ss[0], before, outcome, v, written);
        paths := [head];
      } else {
        var head := ExitIsReached(ctx, ss[0], before, Next, v, written);
        var tail := SuiteExitIsReached(ctx, ss[1..], first.next.value, outcome, v,
                                       Exec(ctx, ss[0], head, written).written);
        paths := [head] + tail;
      }
    }
  }

  /** At most one round brings the loop back to its test with `v` written. */
  lemma {:induction false} HeadIsReached(ctx: Context, test: Expr, loop: seq<Stmt>, before: set<Variable>, v: Variable,
                                         written: set<Variable>)
    returns (rounds: seq<Round>)
    requires v in before ==> v in written
    requires ScopedSuite(ctx, loop) && SuiteLoopsDeclareNothing(ctx, loop) && DeclaresOfAll(ctx, loop) == {}
    ensures |rounds| == 1 ==> AllOnce(rounds[0].body)
    ensures |rounds| <= 1
    ensures |rounds| == 1 ==>
            var o := ExecSuite(ctx, loop, rounds[0].body, written).outcome; o == Next || o == Continued
    ensures v in AtHead(FlowSuite(ctx, loop, before), before) ==>
            v in ExecLoop(ctx, test, loop, rounds, written).written
    ensures ExecLoop(ctx, test, loop, rounds, written).outcome == Next
    decreases loop, 2, 0
  {
    var once := FlowSuite(ctx, loop, before);
    rounds := [];
    if v !in before {
      if v in Elements(once.next) {
        var body := SuiteExitIsReached(ctx, loop, before, Next, v, written);
        rounds := [Round(Eval(false, []), body)];
      } else if v in Elements(once.continued) {
        var body := SuiteExitIsReached(ctx, loop, before, Continued, v, written);
        rounds := [Round(Eval(false, []), body)];
      }
    }
  }

  lemma {:induction false} LoopExitIsReached(ctx: Context, test: Expr, loop: seq<Stmt>, before: set<Variable>,
                                             v: Variable, written: set<Variable>)
    returns (rounds: seq<Round>)
    requires v in before ==> v in written
    requires ScopedSuite(ctx, loop) && SuiteLoopsDeclareNothing(ctx, loop) && DeclaresOfAll(ctx, loop) == {}
    ensures |rounds| <= 1 && (|rounds| == 1 ==> AllOnce(rounds[0].body))
    ensures Reached(FlowLoop(ctx, loop, before), Next, v, ExecLoop(ctx, test, loop, rounds, written))
    decreases loop, 3, 0
  {
    var once := FlowSuite(ctx, loop, before);
    HeadIsStable(ctx, loop, before);
    if v !in AtHead(once, before) && v in Elements(once.broke) {
      var body := SuiteExitIsReached(ctx, loop, before, Broke, v, written);
      rounds := [Round(Eval(false, []), body)];
    } else {
      rounds := HeadIsReached(ctx, test, loop, before, v, written);
    }
  }

  const SKIPPED_ARM := Arm(Eval(false, []), false, Eval(false, []), false, [])

  lemma {:induction false} BranchExitIsReached(ctx: Context, bs: seq<Branch>, before: set<Variable>, outcome: Outcome,
                                               v: Variable, written: set<Variable>)
    returns (arms: seq<Arm>)
    requires Exit(FlowBranches(ctx, bs, before), outcome).Some? && (v in before ==> v in written)
    requires ScopedBranches(ctx, bs) && BranchLoopsDeclareNothing(ctx, bs) && before !! DeclaresOfBranches(ctx, bs)
    ensures forall i :: 0 <= i < |arms| ==> AllOnce(arms[i].body)
    ensures Reached(FlowBranches(ctx, bs, before), outcome, v, ExecBranches(ctx, bs, arms, written))
    decreases bs, 1, 0
  {
    arms := [];
    if bs != [] {
      var here := Exit(FlowBlock(ctx, bs[0], before), outcome);
      if here.Some? && (CatchAll(bs[0]) || v in here.value || Exit(FlowBranches(ctx, bs[1..], before), outcome).None?) {
        var body := SuiteExitIsReached(ctx, bs[0].block, before, outcome, v, written);
        arms := [SKIPPED_ARM.(matches := true, guardHolds := true, body := body)];
      } else {
        var rest := BranchExitIsReached(ctx, bs[1..], before, outcome, v, written);
        arms := [SKIPPED_ARM] + rest;
        assert arms[1..] == rest;
      }
    }
  }

  /** Whatever `Flow` says is written twice, some run writes twice. */
  lemma {:induction false} SecondWriteHappens(ctx: Context, s: Stmt, before: set<Variable>, v: Variable,
                                              written: set<Variable>)
    returns (path: Path)
    requires v in FlowStatement(ctx, s, before).twice && (v in before ==> v in written)
    requires Scoped(ctx, s) && LoopsDeclareNothing(ctx, s) && before !! Declares(ctx, s)
    ensures WrittenTwice(v) in Exec(ctx, s, path, written).faults
    decreases s, 1, 0
  {
    path := Simple([Eval(false, []), Eval(false, [], Some(v))]);
    match s
    case If(_, trueBlock, falseBlock) =>
      if v in FlowSuite(ctx, trueBlock, before).twice {
        var body := SecondWriteInSuite(ctx, trueBlock, before, v, written);
        path := Branching([], true, body);
      } else {
        var body := SecondWriteInSuite(ctx, falseBlock, before, v, written);
        path := Branching([], false, body);
      }
    case For(_, loop) =>
      var rounds := SecondWriteInLoop(ctx, Literal, loop, before, v, written);
      path := Looping([], rounds);
    case While(condition, loop) =>
      var rounds := SecondWriteInLoop(ctx, condition, loop, before, v, written);
      path := Looping([], rounds);
    case Match(_, branches) =>
      var arms := SecondWriteInBranches(ctx, branches, before, v, written);
      path := Matching([], arms);
    case Suite(statements) =>
      var body := SecondWriteInSuite(ctx, statements, before, v, written);
      path := Branching([], true, body);
    case _ =>
  }

  lemma {:induction false} SecondWriteInSuite(ctx: Context, ss: seq<Stmt>, before: set<Variable>, v: Variable,
                                              written: set<Variable>)
    returns (paths: seq<Path>)
    requires v in FlowSuite(ctx, ss, before).twice && (v in before ==> v in written)
    requires ScopedSuite(ctx, ss) && SuiteLoopsDeclareNothing(ctx, ss) && before !! DeclaresOfAll(ctx, ss)
    ensures WrittenTwice(v) in ExecSuite(ctx, ss, paths, written).faults
    decreases ss, 1, 0
  {
    var first := FlowStatement(ctx, ss[0], before);
    FlowGrows(ctx, ss[0], before);
    if v in first.twice {
      var head := SecondWriteHappens(ctx, ss[0], before, v, written);
      paths := [head];
      assert Exec(ctx, ss[0], paths[0], written).faults <= ExecSuite(ctx, ss, paths, written).faults;
    } else {
      var head := ExitIsReached(ctx, ss[0], before, Next, v, written);
      var tail := SecondWriteInSuite(ctx, ss[1..], first.next.value, v, Exec(ctx, ss[0], head, written).written);
      paths := [head] + tail;
    }
  }

  lemma {:induction false} SecondWriteInLoop(ctx: Context, test: Expr, loop: seq<Stmt>, before: set<Variable>,
                                             v: Variable, written: set<Variable>)
    returns (rounds: seq<Round>)
    requires v in FlowLoop(ctx, loop, before).twice && (v in before ==> v in written)
    requires ScopedSuite(ctx, loop) && SuiteLoopsDeclareNothing(ctx, loop) && DeclaresOfAll(ctx, loop) == {}
    ensures WrittenTwice(v) in ExecLoop(ctx, test, loop, rounds, written).faults
    decreases loop, 3, 0
  {
    var head := AtHead(FlowSuite(ctx, loop, before), before);
    var prefix := HeadIsReached(ctx, test, loop, before, v, written);
    var atHead := ExecLoop(ctx, test, loop, prefix, written).written;
    var body := SecondWriteInSuite(ctx, loop, head, v, atHead);
    var last := Round(Eval(false, []), body);
    assert WrittenTwice(v) in ExecLoop(ctx, test, loop, [last], atHead).faults;
    rounds := prefix + [last];
    if prefix != [] {
      assert rounds[0] == prefix[0] && rounds[1..] == [last] && prefix[1..] == [];
      assert atHead == ExecSuite(ctx, loop, prefix[0].body, written).written;
    } else {
      assert rounds == [last];
    }
  }

  lemma {:induction false} SecondWriteInBranches(ctx: Context, bs: seq<Branch>, before: set<Variable>, v: Variable,
                                                 written: set<Variable>)
    returns (arms: seq<Arm>)
    requires v in FlowBranches(ctx, bs, before).twice && (v in before ==> v in written)
    requires ScopedBranches(ctx, bs) && BranchLoopsDeclareNothing(ctx, bs) && before !! DeclaresOfBranches(ctx, bs)
    ensures WrittenTwice(v) in ExecBranches(ctx, bs, arms, written).faults
    decreases bs, 1, 0
  {
    if v in FlowBlock(ctx, bs[0], before).twice {
      var body := SecondWriteInSuite(ctx, bs[0].block, before, v, written);
      arms := [SKIPPED_ARM.(matches := true, guardHolds := true, body := body)];
    } else {
      var rest := SecondWriteInBranches(ctx, bs[1..], before, v, written);
      arms := [SKIPPED_ARM] + rest;
      assert arms[1..] == rest;
    }
  }

  /** For every body, with any loops: no run writes a final twice if and only if
      `Flow` finds no final that may be written twice. */
  lemma WritesOnceIffFlowSaysSo(ctx: Context, ss: seq<Stmt>, written: set<Variable>)
    requires ScopedSuite(ctx, ss) && SuiteLoopsDeclareNothing(ctx, ss) && written !! DeclaresOfAll(ctx, ss)
    ensures FlowSuite(ctx, ss, written).twice == {}
            <==> forall paths, v :: WrittenTwice(v) !in ExecSuite(ctx, ss, paths, written).faults
  {
    forall paths
      ensures Covers(FlowSuite(ctx, ss, written), ExecSuite(ctx, ss, paths, written))
    {
      SuiteCovers(ctx, ss, written, paths, written);
    }
    if v :| v in FlowSuite(ctx, ss, written).twice {
      var paths := SecondWriteInSuite(ctx, ss, written, v, written);
      assert WrittenTwice(v) in ExecSuite(ctx, ss, paths, written).faults;
    }
  }
}
