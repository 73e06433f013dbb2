/** The part of the parse tree that the analyses of final variables and of
    type narrowing look at.  A missing optional expression is `Literal`, and a
    missing suite is the empty sequence: both checks ignore the two alike. */
module Syntax {
  import opened Options

  /** Where name resolution found an identifier. */
  datatype Source =
    | UndefinedSource
    | FunctionParameter
    | LocalVariable
    | LocalConstant
    | LocalIterator
    | LocalBind
    | MemberVariable
    | MemberConstant
    | MemberFunction
    | InheritedVariable
    | StaticVariable

  /** A variable node.  `id` stands for the identity of the node. */
  datatype Variable = Variable(id: nat, name: string, isFinal: bool, isStatic: bool)

  /** What the type of the value on which a part is accessed does not rule out:
      that it is the object under consideration, or its class, and that it is a
      value which lies in its variable itself, as a vector does. */
  datatype Receiver = Receiver(mayBeObject: bool, mayBeValue: bool)

  /** The members that an access may look up when it runs: none, the one whose
      name is written out, or any. */
  datatype Key = NoKey | Literally(name: string) | AnyKey

  predicate MayName(key: Key, name: string) {
    key == AnyKey || key == Literally(name)
  }

  /** What a call reads, writes and calls on the object by a string, as `get`,
      `set` and `call` do. */
  datatype Reflection = Reflection(read: Key, written: Key, called: Key)

  const DIRECT := Reflection(NoKey, NoKey, NoKey)

  /** Expression nodes whose parts are visited one after the other. */
  datatype Kind =
    | ShortCircuitOperator
    | BinaryOperator
    | UnaryOperator
    | TernaryOperator
    | TypeTest
    | Cast
    | Await
    | Call(noReturn: bool, reflection: Reflection)
    | Index(receiver: Receiver, key: Key)
    | ArrayLiteral
    | TupleLiteral
    | DictionaryLiteral

  /** The parts of an `Operation` stand in the order in which the source visits
      them: the callee before the arguments, the base before the index, each key
      before its value. */
  datatype Expr =
    | Literal
    | SelfReference
    | Identifier(name: string, source: Source, variable: Option<Variable>)
    | Attribute(base: Expr, name: string, source: Source, variable: Option<Variable>, receiver: Receiver)
    | Operation(kind: Kind, parts: seq<Expr>)
    | Lambda(body: seq<Stmt>)

  /** A dictionary pattern is the group of its keys and value patterns. */
  datatype Pattern =
    | Leaf
    | Test(e: Expr, irrefutableTypeTest: bool)
    | Group(parts: seq<Pattern>)

  /** The guard of a branch is a suite of one expression. */
  datatype Branch = Branch(patterns: seq<Pattern>, hasWildcard: bool, guard: Option<Expr>, block: seq<Stmt>)

  datatype Stmt =
    | Assignment(assignee: Expr, compound: bool, assignedValue: Expr)
    | If(condition: Expr, trueBlock: seq<Stmt>, falseBlock: seq<Stmt>)
    | For(list: Expr, loop: seq<Stmt>)
    | While(condition: Expr, loop: seq<Stmt>)
    | Match(test: Expr, branches: seq<Branch>)
    | Return(result: Expr)
    | Break
    | Continue
    | Declare(variable: Variable, initializer: Option<Expr>)
    | Destructure(bindings: seq<Variable>, initializer: Option<Expr>)
    | Assert(condition: Expr, message: Expr)
    | Suite(statements: seq<Stmt>)
    | Evaluate(e: Expr)
    | Pass

  /** Statements without blocks. */
  predicate IsLeaf(s: Stmt) {
    !s.If? && !s.For? && !s.While? && !s.Match? && !s.Suite?
  }

  /** The branch runs whenever the match reaches it. */
  predicate CatchAll(b: Branch) {
    b.guard.None? && (b.hasWildcard || exists i :: 0 <= i < |b.patterns| && AlwaysMatches(b.patterns[i]))
  }

  predicate AlwaysMatches(p: Pattern) {
    p.Test? && p.irrefutableTypeTest
  }

  /** A call statement the callee of which never returns. */
  predicate NeverReturns(e: Expr) {
    e.Operation? && e.kind.Call? && e.kind.noReturn
  }
}
