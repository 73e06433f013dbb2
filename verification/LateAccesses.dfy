/** Accesses that reach a final without denoting it.  Some find their target only
    at run time: `self["x"]`, an attribute of an untyped value, a call of `get`.
    Others change a part of the final in place, as `x.y = 1` does where `x` holds
    a vector.  The check does not follow them; a run does.  Here the two are
    compared, and it is shown when a body that the check accepts really is free
    of faults, and when one that it rejects really has some. */
module LateAccesses {
  import opened Options
  import opened Syntax
  import opened FinalResolution
  import opened DefiniteAssignment
  import opened AssignmentRuns
  import opened AssignmentExactness

  /** The same rules for a run. */
  function Running(ctx: Context): Context {
    ctx.(late := true)
  }

  // ---------------------------------------------------------------------------
  // Bodies without late accesses.
  // ---------------------------------------------------------------------------

  /** No evaluation of `e` reaches a tracked final that it does not denote. */
  predicate NothingLate(ctx: Context, e: Expr)
    decreases e, 1
  {
    LateTargets(ctx, e) == {} && NothingLateBelow(ctx, e)
  }

  predicate NothingLateBelow(ctx: Context, e: Expr)
    decreases e, 0
  {
    match e
    case Attribute(base, _, _, _, _) => DescendsBelow(ctx, e) ==> NothingLate(ctx, base)
    case Operation(_, parts) => NothingLateInAll(ctx, parts)
    case _ => true
  }

  predicate NothingLateInAll(ctx: Context, es: seq<Expr>)
    decreases es, 0
  {
    es == [] || (NothingLate(ctx, es[0]) && NothingLateInAll(ctx, es[1..]))
  }

  predicate NothingLateInOptional(ctx: Context, e: Option<Expr>) {
    e.None? || NothingLate(ctx, e.value)
  }

  predicate NothingLateInPattern(ctx: Context, p: Pattern) {
    match p
    case Leaf => true
    case Test(e, _) => NothingLate(ctx, e)
    case Group(parts) => NothingLateInPatterns(ctx, parts)
  }

  predicate NothingLateInPatterns(ctx: Context, ps: seq<Pattern>) {
    ps == [] || (NothingLateInPattern(ctx, ps[0]) && NothingLateInPatterns(ctx, ps[1..]))
  }

  predicate NothingLateIn(ctx: Context, s: Stmt)
    decreases s
  {
    match s
    case Assignment(assignee, _, assignedValue) =>
      NothingLate(ctx, assignee) && PartTargets(ctx, assignee) !! ctx.finals && NothingLate(ctx, assignedValue)
    case If(condition, trueBlock, falseBlock) =>
      NothingLate(ctx, condition) && NothingLateInSuite(ctx, trueBlock) && NothingLateInSuite(ctx, falseBlock)
    case For(list, loop) => NothingLate(ctx, list) && NothingLateInSuite(ctx, loop)
    case While(condition, loop) => NothingLate(ctx, condition) && NothingLateInSuite(ctx, loop)
    case Match(test, branches) => NothingLate(ctx, test) && NothingLateInBranches(ctx, branches)
    case Return(result) => NothingLate(ctx, result)
    case Declare(_, initializer) => NothingLateInOptional(ctx, initializer)
    case Destructure(_, initializer) => NothingLateInOptional(ctx, initializer)
    case Assert(condition, message) => NothingLate(ctx, condition) && NothingLate(ctx, message)
    case Suite(statements) => NothingLateInSuite(ctx, statements)
    case Evaluate(e) => NothingLate(ctx, e)
    case _ => true
  }

  predicate NothingLateInSuite(ctx: Context, ss: seq<Stmt>)
    decreases ss
  {
    ss == [] || (NothingLateIn(ctx, ss[0]) && NothingLateInSuite(ctx, ss[1..]))
  }

  predicate NothingLateInBranch(ctx: Context, b: Branch)
    decreases b
  {
    NothingLateInPatterns(ctx, b.patterns) && NothingLateInOptional(ctx, b.guard) && NothingLateInSuite(ctx, b.block)
  }

  predicate NothingLateInBranches(ctx: Context, bs: seq<Branch>)
    decreases bs
  {
    bs == [] || (NothingLateInBranch(ctx, bs[0]) && NothingLateInBranches(ctx, bs[1..]))
  }

  /** No assignment names a tracked final on `self`, as `self["x"] = 0` does. */
  predicate NothingNamedIn(ctx: Context, s: Stmt)
    decreases s
  {
    match s
    case Assignment(assignee, _, _) => NamedOnSelf(ctx, assignee).None?
    case If(_, trueBlock, falseBlock) => NothingNamedInSuite(ctx, trueBlock) && NothingNamedInSuite(ctx, falseBlock)
    case For(_, loop) => NothingNamedInSuite(ctx, loop)
    case While(_, loop) => NothingNamedInSuite(ctx, loop)
    case Match(_, branches) => NothingNamedInBranches(ctx, branches)
    case Suite(statements) => NothingNamedInSuite(ctx, statements)
    case _ => true
  }

  predicate NothingNamedInSuite(ctx: Context, ss: seq<Stmt>)
    decreases ss
  {
    ss == [] || (NothingNamedIn(ctx, ss[0]) && NothingNamedInSuite(ctx, ss[1..]))
  }

  predicate NothingNamedInBranches(ctx: Context, bs: seq<Branch>)
    decreases bs
  {
    bs == [] || (NothingNamedInSuite(ctx, bs[0].block) && NothingNamedInBranches(ctx, bs[1..]))
  }

  lemma NamedAccessesAreLate(ctx: Context, e: Expr)
    ensures !ctx.late && NamedOnSelf(ctx, e).Some? ==> LateTargets(ctx, e) == {NamedOnSelf(ctx, e).value}
  {
  }

  lemma {:induction false} NothingLateIsNamed(ctx: Context, s: Stmt)
    requires !ctx.late && NothingLateIn(ctx, s)
    ensures NothingNamedIn(ctx, s)
    decreases s
  {
    match s
    case Assignment(assignee, _, _) => NamedAccessesAreLate(ctx, assignee);
    case If(_, trueBlock, falseBlock) =>
      NothingLateIsNamedInSuite(ctx, trueBlock);
      NothingLateIsNamedInSuite(ctx, falseBlock);
    case For(_, loop) => NothingLateIsNamedInSuite(ctx, loop);
    case While(_, loop) => NothingLateIsNamedInSuite(ctx, loop);
    case Match(_, branches) => NothingLateIsNamedInBranches(ctx, branches);
    case Suite(statements) => NothingLateIsNamedInSuite(ctx, statements);
    case _ =>
  }

  lemma {:induction false} NothingLateIsNamedInSuite(ctx: Context, ss: seq<Stmt>)
    requires !ctx.late && NothingLateInSuite(ctx, ss)
    ensures NothingNamedInSuite(ctx, ss)
    decreases ss
  {
    if ss != [] {
      NothingLateIsNamed(ctx, ss[0]);
      NothingLateIsNamedInSuite(ctx, ss[1..]);
    }
  }

  lemma {:induction false} NothingLateIsNamedInBranches(ctx: Context, bs: seq<Branch>)
    requires !ctx.late && NothingLateInBranches(ctx, bs)
    ensures NothingNamedInBranches(ctx, bs)
    decreases bs
  {
    if bs != [] {
      NothingLateIsNamedInSuite(ctx, bs[0].block);
      NothingLateIsNamedInBranches(ctx, bs[1..]);
    }
  }

  // ---------------------------------------------------------------------------
  // The check reports no more than a check that followed late accesses, unless
  // an assignment names a tracked final on `self`.
  // ---------------------------------------------------------------------------

  lemma SameTargets(ctx: Context, e: Expr)
    requires !ctx.late
    ensures DescendsBelow(Running(ctx), e) == DescendsBelow(ctx, e)
    ensures Slot(ctx, e) <= Slot(Running(ctx), e)
    ensures IsSlot(ctx, e) ==> SlotOf(Running(ctx), e) == SlotOf(ctx, e)
    ensures NamedOnSelf(ctx, e).None? ==>
            && SlotOf(Running(ctx), e) == SlotOf(ctx, e) && LateTargets(Running(ctx), e) == LateTargets(ctx, e)
    ensures LateTargets(ctx, e) == {} ==> NamedOnSelf(ctx, e).None?
    ensures PartTargets(Running(ctx), e) == PartTargets(ctx, e)
  {
    NamedAccessesAreLate(ctx, e);
  }

  lemma ReadsWiden(ctx: Context, e: Expr)
    requires !ctx.late
    ensures Reads(ctx, e) <= Reads(Running(ctx), e)
    ensures NothingLate(ctx, e) ==> Reads(ctx, e) == Reads(Running(ctx), e)
    decreases e, 1
  {
    SameTargets(ctx, e);
    ReadsBelowWiden(ctx, e);
  }

  lemma {:induction false} ReadsBelowWiden(ctx: Context, e: Expr)
    requires !ctx.late
    ensures ReadsBelow(ctx, e) <= ReadsBelow(Running(ctx), e)
    ensures NothingLateBelow(ctx, e) ==> ReadsBelow(ctx, e) == ReadsBelow(Running(ctx), e)
    decreases e, 0
  {
    SameTargets(ctx, e);
    match e
    case Attribute(base, _, _, _, _) => ReadsWiden(ctx, base);
    case Operation(_, parts) => ReadsOfAllWiden(ctx, parts);
    case _ =>
  }

  lemma {:induction false} ReadsOfAllWiden(ctx: Context, es: seq<Expr>)
    requires !ctx.late
    ensures ReadsOfAll(ctx, es) <= ReadsOfAll(Running(ctx), es)
    ensures NothingLateInAll(ctx, es) ==> ReadsOfAll(ctx, es) == ReadsOfAll(Running(ctx), es)
    decreases es, 0
  {
    if es != [] {
      ReadsWiden(ctx, es[0]);
      ReadsOfAllWiden(ctx, es[1..]);
    }
  }

  lemma {:induction false} PatternReadsWiden(ctx: Context, p: Pattern)
    requires !ctx.late
    ensures PatternReads(ctx, p) <= PatternReads(Running(ctx), p)
    ensures NothingLateInPattern(ctx, p) ==> PatternReads(ctx, p) == PatternReads(Running(ctx), p)
    decreases p
  {
    match p
    case Leaf =>
    case Test(e, _) => ReadsWiden(ctx, e);
    case Group(parts) => PatternsReadWiden(ctx, parts);
  }

  lemma {:induction false} PatternsReadWiden(ctx: Context, ps: seq<Pattern>)
    requires !ctx.late
    ensures PatternsRead(ctx, ps) <= PatternsRead(Running(ctx), ps)
    ensures NothingLateInPatterns(ctx, ps) ==> PatternsRead(ctx, ps) == PatternsRead(Running(ctx), ps)
    decreases ps
  {
    if ps != [] {
      PatternReadsWiden(ctx, ps[0]);
      PatternsReadWiden(ctx, ps[1..]);
    }
  }

  ghost predicate NoNarrower(f: Facts, wide: Facts) {
    f.definite == wide.definite && f.reachable == wide.reachable && f.possible <= wide.possible
  }

  ghost predicate Widens(r: Report, wide: Report) {
    NoNarrower(r.facts, wide.facts) && (wide.diagnostics == {} ==> r.diagnostics == {})
  }

  lemma MergesWiden(a: Facts, b: Facts, wideA: Facts, wideB: Facts)
    requires NoNarrower(a, wideA) && NoNarrower(b, wideB)
    ensures NoNarrower(Merge(a, b), Merge(wideA, wideB))
  {
  }

  lemma OtherStoreWidens(ctx: Context, assignee: Expr, compound: bool, assignedValue: Expr, f: Facts, wide: Facts)
    requires !ctx.late && NoNarrower(f, wide) && !IsSlot(ctx, assignee) && !IsSlot(Running(ctx), assignee)
    ensures Widens(AnalyzeAssignment(ctx, assignee, compound, assignedValue, f),
                   AnalyzeAssignment(Running(ctx), assignee, compound, assignedValue, wide))
    ensures f == wide && NothingLateIn(ctx, Assignment(assignee, compound, assignedValue)) ==>
            AnalyzeAssignment(ctx, assignee, compound, assignedValue, f) ==
            AnalyzeAssignment(Running(ctx), assignee, compound, assignedValue, wide)
  {
    SameTargets(ctx, assignee);
    ReadsWiden(ctx, assignedValue);
    ReadsBelowWiden(ctx, assignee);
    OtherStores(ctx, assignee, compound, assignedValue, f);
    if NothingLateIn(ctx, Assignment(assignee, compound, assignedValue)) {
      OtherStores(Running(ctx), assignee, compound, assignedValue, wide);
    }
  }

  lemma StoreWidens(ctx: Context, assignee: Expr, compound: bool, assignedValue: Expr, f: Facts, wide: Facts)
    requires !ctx.late && NoNarrower(f, wide) && NamedOnSelf(ctx, assignee).None?
    ensures Widens(AnalyzeAssignment(ctx, assignee, compound, assignedValue, f),
                   AnalyzeAssignment(Running(ctx), assignee, compound, assignedValue, wide))
    ensures f == wide && NothingLateIn(ctx, Assignment(assignee, compound, assignedValue)) ==>
            AnalyzeAssignment(ctx, assignee, compound, assignedValue, f) ==
            AnalyzeAssignment(Running(ctx), assignee, compound, assignedValue, wide)
  {
    SameTargets(ctx, assignee);
    ReadsWiden(ctx, assignedValue);
    if !IsSlot(ctx, assignee) {
      OtherStoreWidens(ctx, assignee, compound, assignedValue, f, wide);
    }
  }

  lemma LeafWidens(ctx: Context, s: Stmt, f: Facts, wide: Facts)
    requires !ctx.late && NoNarrower(f, wide) && f.reachable
    requires IsLeaf(s) && NothingNamedIn(ctx, s)
    ensures Widens(AnalyzeStatement(ctx, s, f), AnalyzeStatement(Running(ctx), s, wide))
    ensures f == wide && NothingLateIn(ctx, s) ==>
            AnalyzeStatement(ctx, s, f) == AnalyzeStatement(Running(ctx), s, wide)
  {
    match s
    case Assignment(assignee, compound, assignedValue) => StoreWidens(ctx, assignee, compound, assignedValue, f, wide);
    case Return(result) => ReadsWiden(ctx, result);
    case Declare(_, initializer) => if initializer.Some? { ReadsWiden(ctx, initializer.value); }
    case Destructure(_, initializer) => if initializer.Some? { ReadsWiden(ctx, initializer.value); }
    case Assert(condition, message) =>
      ReadsWiden(ctx, condition);
      ReadsWiden(ctx, message);
    case Evaluate(e) => ReadsWiden(ctx, e);
    case _ =>
  }

  lemma {:induction false} StatementWidens(ctx: Context, s: Stmt, f: Facts, wide: Facts)
    requires !ctx.late && NoNarrower(f, wide) && NothingNamedIn(ctx, s)
    ensures Widens(AnalyzeStatement(ctx, s, f), AnalyzeStatement(Running(ctx), s, wide))
    ensures f == wide && NothingLateIn(ctx, s) ==>
            AnalyzeStatement(ctx, s, f) == AnalyzeStatement(Running(ctx), s, wide)
    decreases s
  {
    if f.reachable {
      match s
      case If(condition, trueBlock, falseBlock) =>
        ReadsWiden(ctx, condition);
        SuiteWidens(ctx, trueBlock, f, wide);
        SuiteWidens(ctx, falseBlock, f, wide);
        MergesWiden(AnalyzeSuite(ctx, trueBlock, f).facts, AnalyzeSuite(ctx, falseBlock, f).facts,
                    AnalyzeSuite(Running(ctx), trueBlock, wide).facts,
                    AnalyzeSuite(Running(ctx), falseBlock, wide).facts);
      case For(list, loop) =>
        ReadsWiden(ctx, list);
        SuiteWidens(ctx, loop, f, wide);
      case While(condition, loop) =>
        ReadsWiden(ctx, condition);
        SuiteWidens(ctx, loop, f, wide);
      case Match(test, branches) =>
        ReadsWiden(ctx, test);
        MatchWidens(ctx, branches, f, wide);
      case Suite(statements) => SuiteWidens(ctx, statements, f, wide);
      case _ => LeafWidens(ctx, s, f, wide);
    }
  }

  lemma MatchWidens(ctx: Context, bs: seq<Branch>, f: Facts, wide: Facts)
    requires !ctx.late && NoNarrower(f, wide) && NothingNamedInBranches(ctx, bs)
    ensures var m := AnalyzeBranches(ctx, bs, f, Facts({}, {}, false), false);
            var w := AnalyzeBranches(Running(ctx), bs, wide, Facts({}, {}, false), false);
            && Widens(Report(AfterMatch(m, f), m.diagnostics), Report(AfterMatch(w, wide), w.diagnostics))
            && (f == wide && NothingLateInBranches(ctx, bs) ==> m == w)
    decreases bs, 1
  {
    BranchesWiden(ctx, bs, f, wide, Facts({}, {}, false), Facts({}, {}, false), false);
    MergesWiden(AnalyzeBranches(ctx, bs, f, Facts({}, {}, false), false).merged, f,
                AnalyzeBranches(Running(ctx), bs, wide, Facts({}, {}, false), false).merged, wide);
  }

  lemma {:induction false} SuiteWidens(ctx: Context, ss: seq<Stmt>, f: Facts, wide: Facts)
    requires !ctx.late && NoNarrower(f, wide) && NothingNamedInSuite(ctx, ss)
    ensures Widens(AnalyzeSuite(ctx, ss, f), AnalyzeSuite(Running(ctx), ss, wide))
    ensures f == wide && NothingLateInSuite(ctx, ss) ==>
            AnalyzeSuite(ctx, ss, f) == AnalyzeSuite(Running(ctx), ss, wide)
    decreases ss
  {
    if ss != [] {
      StatementWidens(ctx, ss[0], f, wide);
      SuiteWidens(ctx, ss[1..], AnalyzeStatement(ctx, ss[0], f).facts,
                  AnalyzeStatement(Running(ctx), ss[0], wide).facts);
    }
  }

  lemma {:induction false} BranchWidens(ctx: Context, b: Branch, f: Facts, wide: Facts)
    requires !ctx.late && NoNarrower(f, wide) && NothingNamedInSuite(ctx, b.block)
    ensures Widens(AnalyzeBranch(ctx, b, f), AnalyzeBranch(Running(ctx), b, wide))
    ensures f == wide && NothingLateInBranch(ctx, b) ==>
            AnalyzeBranch(ctx, b, f) == AnalyzeBranch(Running(ctx), b, wide)
    decreases b
  {
    PatternsReadWiden(ctx, b.patterns);
    if b.guard.None? {
      SuiteWidens(ctx, b.block, f, wide);
    } else {
      ReadsWiden(ctx, b.guard.value);
      SuiteWidens(ctx, b.block, AnalyzeExpression(ctx, b.guard.value, f).facts,
                  AnalyzeExpression(Running(ctx), b.guard.value, wide).facts);
    }
  }

  lemma {:induction false} BranchesWiden(ctx: Context, bs: seq<Branch>, f: Facts, wide: Facts, merged: Facts,
                                         wideMerged: Facts, hasBranch: bool)
    requires !ctx.late && NoNarrower(f, wide) && NoNarrower(merged, wideMerged) && NothingNamedInBranches(ctx, bs)
    ensures var m := AnalyzeBranches(ctx, bs, f, merged, hasBranch);
            var w := AnalyzeBranches(Running(ctx), bs, wide, wideMerged, hasBranch);
            NoNarrower(m.merged, w.merged) && m.hasBranch == w.hasBranch && m.hasCatchAll == w.hasCatchAll
            && (w.diagnostics == {} ==> m.diagnostics == {})
    ensures f == wide && merged == wideMerged && NothingLateInBranches(ctx, bs) ==>
            AnalyzeBranches(ctx, bs, f, merged, hasBranch)
            == AnalyzeBranches(Running(ctx), bs, wide, wideMerged, hasBranch)
    decreases bs, 0
  {
    if bs != [] {
      BranchWidens(ctx, bs[0], f, wide);
      var branch, wideBranch := AnalyzeBranch(ctx, bs[0], f).facts, AnalyzeBranch(Running(ctx), bs[0], wide).facts;
      MergesWiden(merged, branch, wideMerged, wideBranch);
      if !CatchAll(bs[0]) {
        BranchesWiden(ctx, bs[1..], f, wide, if hasBranch then Merge(merged, branch) else branch,
                      if hasBranch then Merge(wideMerged, wideBranch) else wideBranch, true);
      }
    }
  }

  // ---------------------------------------------------------------------------
  // The main results.
  // ---------------------------------------------------------------------------

  /** What the check says about a body of which late accesses are followed when
      it runs.  No run goes wrong exactly if a check that followed them would
      accept the body.  A rejected body has a run that goes wrong, unless it
      names finals on `self`, and where nothing is late the check is exact. */
  lemma CheckedBodiesRunWell(ctx: Context, ss: seq<Stmt>, written: set<Variable>)
    requires !ctx.late && QuietSuite(Running(ctx), ss) && ScopedSuite(Running(ctx), ss)
             && written !! DeclaresOfAll(Running(ctx), ss)
    ensures var start := Facts(written, written, true);
            var accepted := AnalyzeSuite(ctx, ss, start).diagnostics == {};
            && (NeverFaults(Running(ctx), ss, written) <==> AnalyzeSuite(Running(ctx), ss, start).diagnostics == {})
            && (!accepted && NothingNamedInSuite(ctx, ss) ==> !NeverFaults(Running(ctx), ss, written))
            && (NothingLateInSuite(ctx, ss) ==> (accepted <==> NeverFaults(Running(ctx), ss, written)))
  {
    var start := Facts(written, written, true);
    if NothingLateInSuite(ctx, ss) {
      NothingLateIsNamedInSuite(ctx, ss);
    }
    if NothingNamedInSuite(ctx, ss) {
      SuiteWidens(ctx, ss, start, start);
    }
    AcceptedIffNoRunFaults(Running(ctx), ss, written);
  }

  // ---------------------------------------------------------------------------
  // Late accesses that the check misses.
  // ---------------------------------------------------------------------------

  const INDEXED_SELF := Operation(Index(Receiver(true, false), Literally("x")), [SelfReference, Literal])

  lemma IndexedSelf(ctx: Context)
    requires ctx == MEMBERS || ctx == Running(MEMBERS)
    ensures ReadsBelow(ctx, INDEXED_SELF) == {} && !Denotes(ctx, INDEXED_SELF)
            && NamedOnSelf(ctx, INDEXED_SELF) == Some(X)
    ensures if ctx.late then Slot(ctx, INDEXED_SELF) == {X} else LateTargets(ctx, INDEXED_SELF) == {X}
  {
    var parts := INDEXED_SELF.parts;
    assert parts[1..] == [Literal] && parts[1..][1..] == [];
    assert Reads(ctx, SelfReference) == {} && Reads(ctx, Literal) == {};
    assert ReadsOfAll(ctx, [Literal]) == {};
  }

  const EARLY_INDEX := [Evaluate(INDEXED_SELF), WRITE_X]

  lemma EarlyIndexIsAccepted()
    ensures AnalyzeSuite(MEMBERS, EARLY_INDEX, Facts({}, {}, true)).diagnostics == {}
  {
    var start := Facts({}, {}, true);
    IndexedSelf(MEMBERS);
    assert EARLY_INDEX[1..] == [WRITE_X] && [WRITE_X][1..] == [];
    assert AnalyzeStatement(MEMBERS, EARLY_INDEX[0], start) == Report(start, {}) by {
      assert Reads(MEMBERS, INDEXED_SELF) == {};
    }
    assert AnalyzeStatement(MEMBERS, WRITE_X, start).diagnostics == {};
    assert AnalyzeSuite(MEMBERS, [WRITE_X], start).diagnostics == {};
  }

  /** `use(self["x"])` before `x = 0` is accepted, and reads `x` unwritten. */
  lemma IndexReadsEarly()
    ensures AnalyzeSuite(MEMBERS, EARLY_INDEX, Facts({}, {}, true)).diagnostics == {}
    ensures exists paths :: ReadUnassigned(X) in ExecSuite(Running(MEMBERS), EARLY_INDEX, paths, {}).faults
  {
    EarlyIndexIsAccepted();
    IndexedSelf(Running(MEMBERS));
    var path := Simple([]);
    assert ReadUnassigned(X) in Exec(Running(MEMBERS), EARLY_INDEX[0], path, {}).faults by {
      assert X in ReadIn(Running(MEMBERS), INDEXED_SELF, EvalAt(path, 0));
    }
    assert ReadUnassigned(X) in ExecSuite(Running(MEMBERS), EARLY_INDEX, [path], {}).faults;
  }

  const STORE_AGAIN := Assignment(INDEXED_SELF, false, Literal)
  const LATE_STORE := [WRITE_X, STORE_AGAIN]

  lemma LateStoreIsAccepted()
    ensures AnalyzeSuite(MEMBERS, LATE_STORE, Facts({}, {}, true)).diagnostics == {}
  {
    var start, after := Facts({}, {}, true), Facts({X}, {X}, true);
    IndexedSelf(MEMBERS);
    assert LATE_STORE[1..] == [STORE_AGAIN] && [STORE_AGAIN][1..] == [];
    assert AnalyzeStatement(MEMBERS, WRITE_X, start) == Report(after, {}) by {
      assert start.Assign({X}) == after;
    }
    assert AnalyzeStatement(MEMBERS, STORE_AGAIN, after).diagnostics == {} by {
      assert Rewritten(({} + {}) * after.possible) == {};
    }
    assert AnalyzeSuite(MEMBERS, [STORE_AGAIN], after).diagnostics == {};
  }

  const LATE_STORE_EVALS := [Eval(false, []), Eval(false, [], Some(X))]

  lemma LateStoreHits()
    ensures WrittenTwice(X) in ExecSuite(Running(MEMBERS), [STORE_AGAIN], [Simple(LATE_STORE_EVALS)], {X}).faults
  {
    var ctx := Running(MEMBERS);
    IndexedSelf(ctx);
    assert Stored(ctx, INDEXED_SELF, LATE_STORE_EVALS[1]) == {X};
    assert WrittenTwice(X) in SecondWrites({X} * {X});
    assert WrittenTwice(X) in Exec(ctx, STORE_AGAIN, Simple(LATE_STORE_EVALS), {X}).faults;
  }

  lemma FirstStore()
    ensures var first := Exec(Running(MEMBERS), WRITE_X, Simple([]), {}); first.outcome == Next && first.written == {X}
  {
    assert Stored(Running(MEMBERS), X_SLOT, Eval(false, [])) == {X};
  }

  lemma OneAfterTheOther(ctx: Context, first: Stmt, second: Stmt, path: Path, later: Path, written: set<Variable>)
    requires Exec(ctx, first, path, written).outcome == Next
    ensures ExecSuite(ctx, [second], [later], Exec(ctx, first, path, written).written).faults
         <= ExecSuite(ctx, [first, second], [path, later], written).faults
  {
    assert [first, second][1..] == [second] && [path, later][1..] == [later];
  }

  /** `x = 0` before `self["x"] = 1` is accepted, and writes `x` twice. */
  lemma IndexWritesTwice()
    ensures AnalyzeSuite(MEMBERS, LATE_STORE, Facts({}, {}, true)).diagnostics == {}
    ensures exists paths :: WrittenTwice(X) in ExecSuite(Running(MEMBERS), LATE_STORE, paths, {}).faults
  {
    LateStoreIsAccepted();
    LateStoreHits();
    FirstStore();
    OneAfterTheOther(Running(MEMBERS), WRITE_X, STORE_AGAIN, Simple([]), Simple(LATE_STORE_EVALS), {});
    var paths := [Simple([]), Simple(LATE_STORE_EVALS)];
    assert WrittenTwice(X) in ExecSuite(Running(MEMBERS), LATE_STORE, paths, {}).faults;
  }

  const NAMED_STORE := [STORE_AGAIN, Evaluate(X_SLOT)]

  lemma NamedStoreIsReported()
    ensures UsedBeforeAssignment(X) in AnalyzeSuite(MEMBERS, NAMED_STORE, Facts({}, {}, true)).diagnostics
  {
    var start := Facts({}, {}, true);
    IndexedSelf(MEMBERS);
    OtherStores(MEMBERS, INDEXED_SELF, false, Literal, start);
    assert NAMED_STORE[1..] == [Evaluate(X_SLOT)];
    assert AnalyzeStatement(MEMBERS, STORE_AGAIN, start).facts == start;
    assert X in Reads(MEMBERS, X_SLOT) by {
      assert Slot(MEMBERS, X_SLOT) == {X};
    }
    assert UsedBeforeAssignment(X) in AnalyzeStatement(MEMBERS, Evaluate(X_SLOT), start).diagnostics;
  }

  lemma QuietPair(ctx: Context, first: Stmt, second: Stmt)
    requires QuietLoops(ctx, first) && QuietLoops(ctx, second)
    ensures QuietSuite(ctx, [first, second])
  {
    assert [first, second][1..] == [second] && [second][1..] == [];
    assert QuietSuite(ctx, [second]);
  }

  lemma NamedStoreIsFine()
    ensures AnalyzeSuite(Running(MEMBERS), NAMED_STORE, Facts({}, {}, true)).diagnostics == {}
  {
    var ctx, start, after := Running(MEMBERS), Facts({}, {}, true), Facts({X}, {X}, true);
    IndexedSelf(ctx);
    var last := [Evaluate(X_SLOT)];
    assert NAMED_STORE[1..] == last && last[1..] == [];
    assert AnalyzeStatement(ctx, STORE_AGAIN, start) == Report(after, {}) by {
      assert start.Assign({X}) == after;
    }
    assert AnalyzeStatement(ctx, last[0], after).diagnostics == {} by {
      assert Reads(ctx, X_SLOT) == {X};
    }
    assert AnalyzeSuite(ctx, last, after).diagnostics == {};
  }

  /** `self["x"] = 1` before a read of `x` is rejected, although no run goes wrong. */
  lemma NamedStoreIsRejectedNeedlessly()
    ensures AnalyzeSuite(MEMBERS, NAMED_STORE, Facts({}, {}, true)).diagnostics != {}
    ensures NeverFaults(Running(MEMBERS), NAMED_STORE, {})
  {
    NamedStoreIsReported();
    NamedStoreIsFine();
    MemberSuitesAreScoped(Running(MEMBERS), NAMED_STORE);
    QuietPair(Running(MEMBERS), STORE_AGAIN, Evaluate(X_SLOT));
    AcceptedIffNoRunFaults(Running(MEMBERS), NAMED_STORE, {});
  }

  // ---------------------------------------------------------------------------
  // Stores into a part.
  // ---------------------------------------------------------------------------

  const PART_OF_X := Attribute(X_SLOT, "y", UndefinedSource, None, Receiver(false, true))
  const ALTER_X := Assignment(PART_OF_X, false, Literal)
  const PART_STORE := [WRITE_X, ALTER_X]

  lemma PartOfX(ctx: Context)
    requires ctx == MEMBERS || ctx == Running(MEMBERS)
    ensures Slot(ctx, PART_OF_X) == {} && LateTargets(ctx, PART_OF_X) == {} && PartTargets(ctx, PART_OF_X) == {X}
    ensures ReadsBelow(ctx, PART_OF_X) == {X}
  {
    assert TargetOf(ctx, X_SLOT) == Final(X, true);
    assert Slot(ctx, X_SLOT) == {X} && LateSlots(ctx, X_SLOT) == {} && ReadsBelow(ctx, X_SLOT) == {};
  }

  lemma PartStoreIsAccepted()
    ensures AnalyzeSuite(MEMBERS, PART_STORE, Facts({}, {}, true)).diagnostics == {}
  {
    var start, after := Facts({}, {}, true), Facts({X}, {X}, true);
    PartOfX(MEMBERS);
    assert PART_STORE[1..] == [ALTER_X] && [ALTER_X][1..] == [];
    assert AnalyzeStatement(MEMBERS, WRITE_X, start) == Report(after, {}) by {
      assert start.Assign({X}) == after;
    }
    assert AnalyzeStatement(MEMBERS, ALTER_X, after).diagnostics == {} by {
      OtherStores(MEMBERS, PART_OF_X, false, Literal, after);
    }
    assert AnalyzeSuite(MEMBERS, [ALTER_X], after).diagnostics == {};
  }

  lemma PartStoreHits()
    ensures WrittenTwice(X) in ExecSuite(Running(MEMBERS), [ALTER_X], [Simple(LATE_STORE_EVALS)], {X}).faults
  {
    var ctx := Running(MEMBERS);
    PartOfX(ctx);
    assert Altered(ctx, PART_OF_X, LATE_STORE_EVALS[1]) == {X} && Stored(ctx, PART_OF_X, LATE_STORE_EVALS[1]) == {};
    assert WrittenTwice(X) in SecondWrites(({} + {X}) * {X});
    assert WrittenTwice(X) in Exec(ctx, ALTER_X, Simple(LATE_STORE_EVALS), {X}).faults;
  }

  /** `x = ZERO` before `x.y = 1` is accepted, and writes `x` a second time where
      `x` holds a vector. */
  lemma PartStoreWritesTwice()
    ensures AnalyzeSuite(MEMBERS, PART_STORE, Facts({}, {}, true)).diagnostics == {}
    ensures exists paths :: WrittenTwice(X) in ExecSuite(Running(MEMBERS), PART_STORE, paths, {}).faults
  {
    PartStoreIsAccepted();
    PartStoreHits();
    FirstStore();
    OneAfterTheOther(Running(MEMBERS), WRITE_X, ALTER_X, Simple([]), Simple(LATE_STORE_EVALS), {});
    var paths := [Simple([]), Simple(LATE_STORE_EVALS)];
    assert WrittenTwice(X) in ExecSuite(Running(MEMBERS), PART_STORE, paths, {}).faults;
  }
}
