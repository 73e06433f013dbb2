/** What running a body brings about besides reading: the assignments it makes,
    the lambdas it creates, the methods it names and the members it sets by a
    string.  The body of a lambda does nothing until it is called. */
module Effects {
  import opened Syntax
  import opened FinalResolution

  /** A method is named when it is called, also by a string, or taken as a value,
      on `self` or on what may be the object. */
  datatype Effect =
    | Stores(assignee: Expr)
    | Creates(body: seq<Stmt>)
    | Names(key: Key)
    | Sets(key: Key)

  function OwnEffects(e: Expr): set<Effect> {
    match e
    case Identifier(name, source, _) => if IsLocalSource(source) then {} else {Names(Literally(name))}
    case Attribute(base, name, _, _, receiver) =>
      if base == SelfReference || receiver.mayBeObject then {Names(Literally(name))} else {}
    case Operation(Call(_, reflection), _) => {Names(reflection.called), Sets(reflection.written)}
    case Lambda(body) => {Creates(body)}
    case _ => {}
  }

  /** The effects of the evaluation `ev` of `e`. */
  function EffectsIn(e: Expr, ev: Eval): set<Effect>
    decreases e, 1
  {
    OwnEffects(e) + EffectsBelow(e, ev)
  }

  function EffectsBelow(e: Expr, ev: Eval): set<Effect>
    decreases e, 0
  {
    match e
    case Attribute(base, _, _, _, _) => EffectsIn(base, First(ev))
    case Operation(kind, parts) =>
      if kind == ShortCircuitOperator && |parts| == 2 && ev.skips then EffectsIn(parts[0], First(ev))
      else if kind == TernaryOperator && |parts| == 3 then
        EffectsIn(parts[0], First(ev)) +
        (if ev.skips then EffectsIn(parts[2], First(Rest(Rest(ev)))) else EffectsIn(parts[1], First(Rest(ev))))
      else EffectsInAll(parts, ev)
    case _ => {}
  }

  function EffectsInAll(es: seq<Expr>, ev: Eval): set<Effect>
    decreases es, 0
  {
    if es == [] then {} else EffectsIn(es[0], First(ev)) + EffectsInAll(es[1..], Rest(ev))
  }

  function EffectsInPattern(p: Pattern, ev: Eval): set<Effect> {
    if ev.skips then {} else
    match p
    case Leaf => {}
    case Test(e, _) => EffectsIn(e, First(ev))
    case Group(parts) => EffectsInPatterns(parts, ev)
  }

  function EffectsInPatterns(ps: seq<Pattern>, ev: Eval): set<Effect> {
    if ps == [] then {} else EffectsInPattern(ps[0], First(ev)) + EffectsInPatterns(ps[1..], Rest(ev))
  }
}
