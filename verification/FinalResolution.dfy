/** Which final variable an expression denotes, which it may reach at run time,
    and which tracked finals the evaluation of an expression can read. */
module FinalResolution {
  import opened Options
  import opened Syntax

  datatype Scope = LocalScope | InstanceMember | StaticMember

  /** What one check tracks: its finals, the same finals by name, the scope, and
      whether the body under analysis comes from a flattened trait, together
      with the final nodes declared by the traits of the class.  The check does
      not track the `inherited` finals, those of the bases by name.  `late` says
      whether accesses are followed that reach a final without denoting it: they
      are when a body runs, but the check does not follow them. */
  datatype Context = Context(finals: set<Variable>, byName: map<string, Variable>, scope: Scope,
                             inFlattenedTrait: bool, traitNodes: set<Variable>, inherited: map<string, Variable>,
                             late: bool)

  datatype Target = NoTarget | Final(variable: Variable, onSelf: bool)

  predicate IsLocalSource(s: Source) {
    s in {FunctionParameter, LocalVariable, LocalConstant, LocalIterator, LocalBind}
  }

  predicate IsMemberSource(s: Source) {
    s in {MemberVariable, InheritedVariable, StaticVariable}
  }

  predicate IsFinalNode(v: Option<Variable>) {
    v.Some? && v.value.isFinal
  }

  /** The first half of the lookup for a body flattened in from a trait: a bare
      or `self` name means the implementing class's slot of that name.  `None`
      means that the ordinary rules decide. */
  function FlattenedTarget(ctx: Context, e: Expr): Option<Target> {
    match e
    case Identifier(name, source, variable) =>
      if IsLocalSource(source) then Some(NoTarget)
      else if name in ctx.byName then Some(Final(ctx.byName[name], true))
      else if IsMemberSource(source) && variable.Some? && variable.value in ctx.traitNodes then Some(NoTarget)
      else None
    case Attribute(base, name, source, variable, _) =>
      if base != SelfReference then None
      else if name in ctx.byName then Some(Final(ctx.byName[name], true))
      else if IsMemberSource(source) && variable.Some? && variable.value in ctx.traitNodes then Some(NoTarget)
      else None
    case _ => Some(NoTarget)
  }

  function OrdinaryTarget(ctx: Context, e: Expr): Target {
    match e
    case Identifier(_, source, variable) =>
      var expected := match ctx.scope
        case InstanceMember => source == MemberVariable || source == InheritedVariable
        case StaticMember => source == StaticVariable
        case LocalScope => source == LocalVariable;
      if expected && IsFinalNode(variable) then Final(variable.value, true) else NoTarget
    case Attribute(base, name, source, variable, _) =>
      (match ctx.scope
       case LocalScope => NoTarget
       case StaticMember =>
         if source == StaticVariable && IsFinalNode(variable)
         then Final(variable.value, name in ctx.byName && ctx.byName[name] == variable.value)
         else NoTarget
       case InstanceMember =>
         var instanceFinal := IsMemberSource(source) && IsFinalNode(variable) && !variable.value.isStatic;
         if base == SelfReference then
           if name in ctx.byName then Final(ctx.byName[name], true)
           else if instanceFinal then Final(variable.value, true)
           else NoTarget
         else if instanceFinal then Final(variable.value, false)
         else NoTarget)
    case _ => NoTarget
  }

  /** The final variable that `e` denotes, if any, and whether the receiver is
      known to be `self`. */
  function TargetOf(ctx: Context, e: Expr): Target {
    if ctx.inFlattenedTrait && FlattenedTarget(ctx, e).Some?
    then FlattenedTarget(ctx, e).value
    else OrdinaryTarget(ctx, e)
  }

  /** What name resolution found for an access, and under which name. */
  function Resolved(e: Expr): Option<(string, Source, Variable)> {
    match e
    case Identifier(name, source, Some(variable)) => Some((name, source, variable))
    case Attribute(_, name, source, Some(variable), _) => Some((name, source, variable))
    case _ => None
  }

  /** Every access that name resolution resolves to a final is claimed by exactly
      one check, that of local, of instance or of static finals, and all agree on
      the variable.  A bare name stands for the object's own slot; for an
      attribute of anything but `self` the instance check leaves that open. */
  lemma FinalsAreClaimedOnce(local: Context, instance: Context, static_: Context, e: Expr)
    requires local.scope == LocalScope && instance.scope == InstanceMember && static_.scope == StaticMember
    requires !local.inFlattenedTrait && !instance.inFlattenedTrait && !static_.inFlattenedTrait
    requires Resolved(e).Some? && Resolved(e).value.2.isFinal
    requires var (name, source, v) := Resolved(e).value;
             if v.isStatic then source == StaticVariable
             else if e.Attribute? then source in {MemberVariable, InheritedVariable}
             else source in {LocalVariable, MemberVariable, InheritedVariable}
    requires var (name, source, v) := Resolved(e).value;
             name in instance.byName ==> instance.byName[name] == v && !v.isStatic
    ensures var (name, source, v) := Resolved(e).value;
            && TargetOf(local, e) == (if source == LocalVariable then Final(v, true) else NoTarget)
            && TargetOf(static_, e).Final? == (source == StaticVariable)
            && TargetOf(instance, e).Final? == (source != LocalVariable && source != StaticVariable)
            && (TargetOf(static_, e).Final? ==> TargetOf(static_, e).variable == v)
            && (TargetOf(instance, e).Final? ==> TargetOf(instance, e).variable == v)
            && (TargetOf(instance, e).Final? ==>
                (TargetOf(instance, e).onSelf <==> e.Identifier? || e.base == SelfReference))
  {
  }

  /** What name resolution resolves to no final is claimed by no check, except for
      `self` with the name of a tracked final. */
  lemma OthersAreNotClaimed(ctx: Context, e: Expr)
    requires !ctx.inFlattenedTrait && (Resolved(e).Some? ==> !Resolved(e).value.2.isFinal)
    ensures TargetOf(ctx, e).Final? ==>
            && ctx.scope == InstanceMember && e.Attribute? && e.base == SelfReference
            && e.name in ctx.byName && TargetOf(ctx, e) == Final(ctx.byName[e.name], true)
  {
  }

  /** `e` denotes a tracked final of the object under construction. */
  predicate Denotes(ctx: Context, e: Expr) {
    TargetOf(ctx, e).Final? && TargetOf(ctx, e).onSelf && TargetOf(ctx, e).variable in ctx.finals
  }

  /** An index on `self` with the name of a tracked final always reaches it. */
  function NamedOnSelf(ctx: Context, e: Expr): Option<Variable> {
    match e
    case Operation(Index(receiver, Literally(name)), parts) =>
      if ctx.scope == InstanceMember && receiver.mayBeObject && parts == [SelfReference, Literal]
         && name in ctx.byName && ctx.byName[name] in ctx.finals
      then Some(ctx.byName[name])
      else None
    case _ => None
  }

  /** The tracked final that `e` stands for whenever it is evaluated. */
  function SlotOf(ctx: Context, e: Expr): Option<Variable> {
    if Denotes(ctx, e) then Some(TargetOf(ctx, e).variable) else if ctx.late then NamedOnSelf(ctx, e) else None
  }

  predicate IsSlot(ctx: Context, e: Expr) {
    SlotOf(ctx, e).Some?
  }

  function Slot(ctx: Context, e: Expr): set<Variable> {
    if IsSlot(ctx, e) then {SlotOf(ctx, e).value} else {}
  }

  function KeyTargets(ctx: Context, key: Key): set<Variable> {
    match key
    case NoKey => {}
    case Literally(name) => if name in ctx.byName then {ctx.byName[name]} * ctx.finals else {}
    case AnyKey => ctx.finals
  }

  /** What an access looks up on what may be the object. */
  function LookedUp(e: Expr): Key {
    match e
    case Attribute(_, name, _, _, receiver) => if receiver.mayBeObject then Literally(name) else NoKey
    case Operation(Index(receiver, key), _) => if receiver.mayBeObject then key else NoKey
    case Operation(Call(_, reflection), _) => reflection.read
    case _ => NoKey
  }

  /** The tracked finals of the object that an access may reach although it does
      not denote them. */
  function LateTargets(ctx: Context, e: Expr): set<Variable> {
    if ctx.scope == LocalScope || IsSlot(ctx, e) then {} else KeyTargets(ctx, LookedUp(e))
  }

  function LateSlots(ctx: Context, e: Expr): set<Variable> {
    if ctx.late then LateTargets(ctx, e) else {}
  }

  /** The expression of whose value an assignment to `e` may change a part. */
  function PartBase(e: Expr): Option<Expr> {
    match e
    case Attribute(base, _, _, _, receiver) => if receiver.mayBeValue then Some(base) else None
    case Operation(Index(receiver, _), parts) => if receiver.mayBeValue && parts != [] then Some(parts[0]) else None
    case _ => None
  }

  /** The final, tracked or inherited, that an assignment to `e` changes in place
      although it does not denote it: `v` in `v.x = 1` or `self.v[0] = 1`, when
      `v` holds a vector.  Such an assignment works on the slot of the variable
      itself; static variables and all that is further away are copied first. */
  function PartTargets(ctx: Context, e: Expr): set<Variable> {
    if ctx.scope == StaticMember || Denotes(ctx, e) || PartBase(e).None? then {} else
    var target := TargetOf(ctx, PartBase(e).value);
    if target.Final? && target.onSelf then {target.variable} else {}
  }

  function PartSlots(ctx: Context, e: Expr): set<Variable> {
    if ctx.late && !IsSlot(ctx, e) then PartTargets(ctx, e) * ctx.finals else {}
  }

  predicate DescendsBelow(ctx: Context, e: Expr) {
    e.Attribute? ==> !(TargetOf(ctx, e).Final? && TargetOf(ctx, e).onSelf)
  }

  /** What the object's own slots are, apart from bodies of traits and from late
      accesses: bare names resolved to a tracked final, and `self` with the name of
      one or with an attribute resolved to one. */
  lemma OwnSlotsAre(ctx: Context, e: Expr, v: Variable)
    requires !ctx.inFlattenedTrait && !ctx.late && (v in ctx.finals ==> v.isFinal)
    ensures v in Slot(ctx, e) ==> v in ctx.finals
    ensures v in ctx.finals ==>
            (v in Slot(ctx, e) <==>
            match ctx.scope
            case LocalScope => e.Identifier? && e.source == LocalVariable && e.variable == Some(v)
            case InstanceMember =>
              || (e.Identifier? && e.source in {MemberVariable, InheritedVariable} && e.variable == Some(v))
              || (e.Attribute? && e.base == SelfReference
                  && if e.name in ctx.byName then ctx.byName[e.name] == v
                     else e.variable == Some(v) && !v.isStatic
                          && e.source in {MemberVariable, InheritedVariable, StaticVariable})
            case StaticMember =>
              && (e.Identifier? || (e.Attribute? && e.name in ctx.byName && ctx.byName[e.name] == v))
              && e.source == StaticVariable && e.variable == Some(v))
  {
  }

  /** The base of an attribute is looked at, unless the attribute is a final of
      `self` or an own static final. */
  lemma BasesAreLookedAt(ctx: Context, e: Expr)
    requires e.Attribute? && !ctx.inFlattenedTrait && !DescendsBelow(ctx, e)
    ensures match ctx.scope
            case LocalScope => false
            case InstanceMember => e.base == SelfReference
            case StaticMember => e.source == StaticVariable && e.name in ctx.byName
                                 && e.variable == Some(ctx.byName[e.name])
  {
  }

  /** Every tracked final that some evaluation of `e` may read.  The body of a
      lambda is not evaluated where the lambda stands. */
  function Reads(ctx: Context, e: Expr): set<Variable>
    decreases e, 1
  {
    Slot(ctx, e) + LateSlots(ctx, e) + ReadsBelow(ctx, e)
  }

  function ReadsBelow(ctx: Context, e: Expr): set<Variable>
    decreases e, 0
  {
    match e
    case Attribute(base, _, _, _, _) => if DescendsBelow(ctx, e) then Reads(ctx, base) else {}
    case Operation(_, parts) => ReadsOfAll(ctx, parts)
    case _ => {}
  }

  function ReadsOfAll(ctx: Context, es: seq<Expr>): set<Variable>
    decreases es, 0
  {
    if es == [] then {} else Reads(ctx, es[0]) + ReadsOfAll(ctx, es[1..])
  }

  function PatternReads(ctx: Context, p: Pattern): set<Variable> {
    match p
    case Leaf => {}
    case Test(e, _) => Reads(ctx, e)
    case Group(parts) => PatternsRead(ctx, parts)
  }

  function PatternsRead(ctx: Context, ps: seq<Pattern>): set<Variable> {
    if ps == [] then {} else PatternReads(ctx, ps[0]) + PatternsRead(ctx, ps[1..])
  }

  /** How one evaluation goes: which operators stop early or take their second
      alternative, how the parts are evaluated, and which final an access
      reaches that finds its target at run time. */
  datatype Eval = Eval(skips: bool, parts: seq<Eval>, hit: Option<Variable> := None)

  function Rest(ev: Eval): Eval {
    ev.(parts := if ev.parts == [] then [] else ev.parts[1..])
  }

  function First(ev: Eval): Eval {
    if ev.parts == [] then Eval(false, []) else ev.parts[0]
  }

  function HitBy(ctx: Context, e: Expr, ev: Eval): set<Variable> {
    if ev.hit.Some? && ev.hit.value in LateSlots(ctx, e) then {ev.hit.value} else {}
  }

  /** The tracked finals that the evaluation `ev` of `e` reads. */
  function ReadIn(ctx: Context, e: Expr, ev: Eval): set<Variable>
    decreases e, 1
  {
    Slot(ctx, e) + HitBy(ctx, e, ev) + ReadBelow(ctx, e, ev)
  }

  function ReadBelow(ctx: Context, e: Expr, ev: Eval): set<Variable>
    decreases e, 0
  {
    match e
    case Attribute(base, _, _, _, _) => if DescendsBelow(ctx, e) then ReadIn(ctx, base, First(ev)) else {}
    case Operation(kind, parts) =>
      if kind == ShortCircuitOperator && |parts| == 2 && ev.skips then ReadIn(ctx, parts[0], First(ev))
      else if kind == TernaryOperator && |parts| == 3 then
        ReadIn(ctx, parts[0], First(ev)) +
        (if ev.skips then ReadIn(ctx, parts[2], First(Rest(Rest(ev)))) else ReadIn(ctx, parts[1], First(Rest(ev))))
      else ReadInAll(ctx, parts, ev)
    case _ => {}
  }

  function ReadInAll(ctx: Context, es: seq<Expr>, ev: Eval): set<Variable>
    decreases es, 0
  {
    if es == [] then {} else ReadIn(ctx, es[0], First(ev)) + ReadInAll(ctx, es[1..], Rest(ev))
  }

  /** A pattern that is not tried reads nothing. */
  function ReadInPattern(ctx: Context, p: Pattern, ev: Eval): set<Variable> {
    if ev.skips then {} else
    match p
    case Leaf => {}
    case Test(e, _) => ReadIn(ctx, e, First(ev))
    case Group(parts) => ReadInPatterns(ctx, parts, ev)
  }

  function ReadInPatterns(ctx: Context, ps: seq<Pattern>, ev: Eval): set<Variable> {
    if ps == [] then {} else ReadInPattern(ctx, ps[0], First(ev)) + ReadInPatterns(ctx, ps[1..], Rest(ev))
  }

  lemma ReadsOfThree(ctx: Context, es: seq<Expr>)
    requires |es| == 3
    ensures ReadsOfAll(ctx, es) == Reads(ctx, es[0]) + Reads(ctx, es[1]) + Reads(ctx, es[2])
  {
    var tail := es[1..];
    var last := tail[1..];
    assert ReadsOfAll(ctx, last[1..]) == {};
    assert ReadsOfAll(ctx, last) == Reads(ctx, es[2]);
    assert ReadsOfAll(ctx, tail) == Reads(ctx, es[1]) + ReadsOfAll(ctx, last);
  }

  /** No evaluation reads a final outside `Reads`. */
  lemma EvaluationReadsOnly(ctx: Context, e: Expr, ev: Eval)
    ensures ReadIn(ctx, e, ev) <= Reads(ctx, e)
    decreases e, 1
  {
    PartsReadOnly(ctx, e, ev);
  }

  lemma {:induction false} PartsReadOnly(ctx: Context, e: Expr, ev: Eval)
    ensures ReadBelow(ctx, e, ev) <= ReadsBelow(ctx, e)
    decreases e, 0
  {
    match e
    case Attribute(base, _, _, _, _) => EvaluationReadsOnly(ctx, base, First(ev));
    case Operation(kind, parts) =>
      if kind == ShortCircuitOperator && |parts| == 2 && ev.skips {
        EvaluationReadsOnly(ctx, parts[0], First(ev));
      } else if kind == TernaryOperator && |parts| == 3 {
        EvaluationReadsOnly(ctx, parts[0], First(ev));
        EvaluationReadsOnly(ctx, parts[1], First(Rest(ev)));
        EvaluationReadsOnly(ctx, parts[2], First(Rest(Rest(ev))));
        ReadsOfThree(ctx, parts);
      } else {
        EvaluationsReadOnly(ctx, parts, ev);
      }
    case _ =>
  }

  lemma {:induction false} EvaluationsReadOnly(ctx: Context, es: seq<Expr>, ev: Eval)
    ensures ReadInAll(ctx, es, ev) <= ReadsOfAll(ctx, es)
    decreases es, 0
  {
    if es != [] {
      EvaluationReadsOnly(ctx, es[0], First(ev));
      EvaluationsReadOnly(ctx, es[1..], Rest(ev));
    }
  }

  lemma {:induction false} PatternsReadOnly(ctx: Context, ps: seq<Pattern>, ev: Eval)
    ensures ReadInPatterns(ctx, ps, ev) <= PatternsRead(ctx, ps)
    decreases ps
  {
    if ps != [] {
      PatternReadsOnly(ctx, ps[0], First(ev));
      PatternsReadOnly(ctx, ps[1..], Rest(ev));
    }
  }

  lemma {:induction false} PatternReadsOnly(ctx: Context, p: Pattern, ev: Eval)
    ensures ReadInPattern(ctx, p, ev) <= PatternReads(ctx, p)
    decreases p
  {
    match p
    case Leaf =>
    case Test(e, _) => EvaluationReadsOnly(ctx, e, First(ev));
    case Group(parts) => PatternsReadOnly(ctx, parts, ev);
  }

  /** Every final in `Reads` is read by some evaluation. */
  lemma EveryReadHappens(ctx: Context, e: Expr, v: Variable) returns (ev: Eval)
    requires v in Reads(ctx, e)
    ensures v in ReadIn(ctx, e, ev)
    decreases e, 1
  {
    ev := Eval(false, []);
    if v in LateSlots(ctx, e) {
      ev := Eval(false, [], Some(v));
    } else if v !in Slot(ctx, e) {
      ev := EveryPartReadHappens(ctx, e, v);
    }
  }

  lemma {:induction false} EveryPartReadHappens(ctx: Context, e: Expr, v: Variable) returns (ev: Eval)
    requires v in ReadsBelow(ctx, e)
    ensures v in ReadBelow(ctx, e, ev)
    decreases e, 0
  {
    ev := Eval(false, []);
    match e
    case Attribute(base, _, _, _, _) =>
      var inner := EveryReadHappens(ctx, base, v);
      ev := Eval(false, [inner]);
    case Operation(kind, parts) =>
      if kind == TernaryOperator && |parts| == 3 && v !in Reads(ctx, parts[0]) && v !in Reads(ctx, parts[1]) {
        ReadsOfThree(ctx, parts);
        var last := EveryReadHappens(ctx, parts[2], v);
        ev := Eval(true, [Eval(false, []), Eval(false, []), last]);
        assert First(Rest(Rest(ev))) == last;
      } else {
        ev := EveryReadOfAllHappens(ctx, parts, v);
        if kind == TernaryOperator && |parts| == 3 {
          assert parts[1..][0] == parts[1];
          if v in Reads(ctx, parts[0]) {
            var first := EveryReadHappens(ctx, parts[0], v);
            ev := Eval(false, [first]);
          } else {
            var second := EveryReadHappens(ctx, parts[1], v);
            ev := Eval(false, [Eval(false, []), second]);
            assert First(Rest(ev)) == second;
          }
        }
      }
    case _ =>
  }

  lemma {:induction false} EveryReadOfAllHappens(ctx: Context, es: seq<Expr>, v: Variable) returns (ev: Eval)
    requires v in ReadsOfAll(ctx, es)
    ensures v in ReadInAll(ctx, es, ev) && !ev.skips
    decreases es, 0
  {
    if v in Reads(ctx, es[0]) {
      var first := EveryReadHappens(ctx, es[0], v);
      ev := Eval(false, [first]);
    } else {
      var rest := EveryReadOfAllHappens(ctx, es[1..], v);
      ev := rest.(parts := [Eval(false, [])] + rest.parts);
      assert Rest(ev) == rest;
    }
  }

  lemma {:induction false} EveryPatternsReadHappens(ctx: Context, ps: seq<Pattern>, v: Variable) returns (ev: Eval)
    requires v in PatternsRead(ctx, ps)
    ensures v in ReadInPatterns(ctx, ps, ev) && !ev.skips
    decreases ps
  {
    if v in PatternReads(ctx, ps[0]) {
      var first := EveryPatternReadHappens(ctx, ps[0], v);
      ev := Eval(false, [first]);
    } else {
      var rest := EveryPatternsReadHappens(ctx, ps[1..], v);
      ev := rest.(parts := [Eval(false, [])] + rest.parts);
      assert Rest(ev) == rest;
    }
  }

  lemma {:induction false} EveryPatternReadHappens(ctx: Context, p: Pattern, v: Variable) returns (ev: Eval)
    requires v in PatternReads(ctx, p)
    ensures v in ReadInPattern(ctx, p, ev) && !ev.skips
    decreases p
  {
    match p
    case Test(e, _) =>
      var inner := EveryReadHappens(ctx, e, v);
      ev := Eval(false, [inner]);
    case Group(parts) =>
      ev := EveryPatternsReadHappens(ctx, parts, v);
    case Leaf =>
      assert false;
  }
}
