/** The expression grammar, stated without reference to the builder: concrete
    syntax with its parentheses, the precedence rules, the tokens an expression
    is written with and the tree it denotes. */
module ExprGrammar {
  import opened Operators
  import opened ExprTree

  /** Concrete syntax.  A ternary is two infix constructs: `?` joins the
      condition to the arms, `:` joins the two arms. */
  datatype Expr =
    | Literal(tok: ExprNode)
    | Prefix(op: ExprNode, arg: Expr)
    | Infix(op: ExprNode, lhs: Expr, rhs: Expr)
    | Paren(open: ExprNode, close: ExprNode, body: Expr)

  function NodePrecedence(n: ExprNode): int {
    if n.op.None? then 0 else Precedence(n.op.value)
  }

  /** How loosely the outermost construct of e binds. */
  function Level(e: Expr): int {
    match e
    case Literal(_) => 0
    case Prefix(_, _) => 1
    case Infix(op, _, _) => NodePrecedence(op)
    case Paren(_, _, _) => 0
  }

  predicate IsArms(e: Expr) {
    e.Infix? && e.op.op == Some(TernaryC)
  }

  /** The grammar: binary levels and `?:` group to the left, `:=` to the right,
      and an operand that binds more loosely than its operator allows must be
      parenthesised. */
  ghost predicate Grammatical(e: Expr)
    decreases e, 0
  {
    match e
    case Literal(tok) => tok.op.None?
    case Prefix(op, arg) => NodePrecedence(op) == 1 && Operand(arg, 1)
    case Infix(op, lhs, rhs) =>
      if op.op == Some(TernaryQ) then Operand(lhs, 14) && IsArms(rhs) && Grammatical(rhs)
      else if op.op == Some(TernaryC) then Operand(lhs, 13) && Operand(rhs, 13)
      else if op.op == Some(VarAssign) then Operand(lhs, 14) && Operand(rhs, 15)
      else 2 <= NodePrecedence(op) <= 13
           && Operand(lhs, NodePrecedence(op)) && Operand(rhs, NodePrecedence(op) - 1)
    case Paren(open, close, body) =>
      open.op == Some(OpenBracket) && close.op == Some(CloseBracket) && Operand(body, 15)
  }

  /** e may stand where a construct of level at most p is wanted. */
  ghost predicate Operand(e: Expr, p: int)
    decreases e, 1
  {
    Grammatical(e) && Level(e) <= p && !IsArms(e)
  }

  /** A whole expression of the language. */
  ghost predicate Expression(e: Expr) {
    Operand(e, 15)
  }

  /** The tokens of e from left to right. */
  function Tokens(e: Expr): (ts: seq<Tree>)
    ensures ts != []
  {
    match e
    case Literal(tok) => [Leaf(tok)]
    case Prefix(op, arg) => [Leaf(op)] + Tokens(arg)
    case Infix(op, lhs, rhs) => Tokens(lhs) + [Leaf(op)] + Tokens(rhs)
    case Paren(open, close, body) => [Leaf(open)] + Tokens(body) + [Leaf(close)]
  }

  /** The tree e denotes. */
  function Shape(e: Expr): (t: Tree)
    ensures t.Node?
  {
    match e
    case Literal(tok) => Leaf(tok)
    case Prefix(op, arg) => Node(op, Shape(arg), Nil)
    case Infix(op, lhs, rhs) => Node(op, Shape(lhs), Shape(rhs))
    case Paren(_, _, body) => Shape(body)
  }

  function Max(a: nat, b: nat): nat {
    if a < b then b else a
  }

  /** How deeply the parentheses of e nest. */
  function Nesting(e: Expr): nat {
    match e
    case Literal(_) => 0
    case Prefix(_, arg) => Nesting(arg)
    case Infix(_, lhs, rhs) => Max(Nesting(lhs), Nesting(rhs))
    case Paren(_, _, body) => 1 + Nesting(body)
  }
}
