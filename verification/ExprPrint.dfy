/** Writing a tree down with all its parentheses, and reading it back. */
module ExprPrint {
  import opened Operators
  import opened ExprTree
  import opened ExprGrammar
  import opened ExprShape

  /** Literals under prefix, binary, ternary and assignment operators. */
  predicate OperatorTree(t: Tree) {
    t.Node? &&
    if t.node.op.None? then t.left.Nil? && t.right.Nil?
    else if NodePrecedence(t.node) == 1 then OperatorTree(t.left) && t.right.Nil?
    else if IsOp(t, TernaryQ) then
      OperatorTree(t.left) && IsOp(t.right, TernaryC) && OperatorTree(t.right.left) && OperatorTree(t.right.right)
    else
      (2 <= NodePrecedence(t.node) <= 13 || IsOp(t, VarAssign)) && OperatorTree(t.left) && OperatorTree(t.right)
  }

  predicate IsPair(open: ExprNode, close: ExprNode) {
    open.op == Some(OpenBracket) && close.op == Some(CloseBracket)
  }

  /** e is t with a pair of parentheses, whichever, around every operator and its
      operands. */
  predicate Writes(e: Expr, t: Tree) {
    t.Node? &&
    if t.node.op.None? then t == Leaf(t.node) && e == Literal(t.node)
    else
      && e.Paren? && IsPair(e.open, e.close)
      && if NodePrecedence(t.node) == 1 then
           e.body.Prefix? && e.body.op == t.node && Writes(e.body.arg, t.left) && t.right.Nil?
         else
           && e.body.Infix? && e.body.op == t.node && Writes(e.body.lhs, t.left)
           && if IsOp(t, TernaryQ) then
                && IsOp(t.right, TernaryC) && e.body.rhs.Infix? && e.body.rhs.op == t.right.node
                && Writes(e.body.rhs.lhs, t.right.left) && Writes(e.body.rhs.rhs, t.right.right)
              else
                (2 <= NodePrecedence(t.node) <= 13 || IsOp(t, VarAssign)) && Writes(e.body.rhs, t.right)
  }

  /** How deeply the operators of t nest; a `:` is part of its ternary. */
  function OperatorDepth(t: Tree): nat
    requires OperatorTree(t)
  {
    if t.node.op.None? then 0
    else if NodePrecedence(t.node) == 1 then 1 + OperatorDepth(t.left)
    else if IsOp(t, TernaryQ) then
      1 + Max(OperatorDepth(t.left), Max(OperatorDepth(t.right.left), OperatorDepth(t.right.right)))
    else 1 + Max(OperatorDepth(t.left), OperatorDepth(t.right))
  }

  lemma Looser(e: Expr, p: int, q: int)
    requires Operand(e, p) && p <= q
    ensures Operand(e, q)
  {
  }

  lemma PrefixOfTight(op: ExprNode, arg: Expr)
    requires NodePrecedence(op) == 1 && Operand(arg, 0)
    ensures Expression(Prefix(op, arg))
  {
    Looser(arg, 0, 1);
    assert Grammatical(Prefix(op, arg));
  }

  /** An operator over operands that bind tightest is an expression at any level. */
  lemma InfixOfTight(op: ExprNode, l: Expr, r: Expr)
    requires op.op.Some? && (2 <= NodePrecedence(op) <= 13 || op.op == Some(VarAssign))
    requires Operand(l, 0) && Operand(r, 0)
    ensures Expression(Infix(op, l, r))
  {
    LooseLevels(op.op.value);
    if op.op == Some(VarAssign) {
      Looser(l, 0, 14);
      Looser(r, 0, 15);
    } else {
      Looser(l, 0, NodePrecedence(op));
      Looser(r, 0, NodePrecedence(op) - 1);
    }
    assert Grammatical(Infix(op, l, r));
  }

  lemma TernaryOfTight(q: ExprNode, colon: ExprNode, l: Expr, yes: Expr, no: Expr)
    requires q.op == Some(TernaryQ) && colon.op == Some(TernaryC)
    requires Operand(l, 0) && Operand(yes, 0) && Operand(no, 0)
    ensures Expression(Infix(q, l, Infix(colon, yes, no)))
  {
    Looser(yes, 0, 13);
    Looser(no, 0, 13);
    Looser(l, 0, 14);
    var arms := Infix(colon, yes, no);
    assert Grammatical(arms) && IsArms(arms);
    assert Grammatical(Infix(q, l, arms));
  }

  /** The fully parenthesised text of a tree denotes it and nests as its operators do. */
  lemma {:induction false} WritesReads(e: Expr, t: Tree)
    requires Writes(e, t)
    ensures OperatorTree(t) && Operand(e, 0) && Shape(e) == t && Nesting(e) == OperatorDepth(t)
  {
    if t.node.op.None? {
      LiteralTight(t.node);
    } else if NodePrecedence(t.node) == 1 {
      WritesReads(e.body.arg, t.left);
      PrefixOfTight(t.node, e.body.arg);
    } else if IsOp(t, TernaryQ) {
      var yes, no := e.body.rhs.lhs, e.body.rhs.rhs;
      WritesReads(e.body.lhs, t.left);
      WritesReads(yes, t.right.left);
      WritesReads(no, t.right.right);
      TernaryOfTight(t.node, t.right.node, e.body.lhs, yes, no);
      assert Shape(e.body.rhs) == t.right;
      assert Nesting(e.body.rhs) == Max(OperatorDepth(t.right.left), OperatorDepth(t.right.right));
    } else {
      WritesReads(e.body.lhs, t.left);
      WritesReads(e.body.rhs, t.right);
      InfixOfTight(t.node, e.body.lhs, e.body.rhs);
    }
  }

  /** Every tree is read back from its fully parenthesised text, whichever brackets
      it is written with, as long as its operators do not nest too deeply; otherwise
      the text is rejected. */
  lemma PrintRoundTrip(e: Expr, t: Tree, depth: int)
    requires Writes(e, t)
    ensures OperatorTree(t)
    ensures Build(Tokens(e), depth) == if depth + OperatorDepth(t) <= MAX_EXPR_DEPTH then Some([t]) else None
  {
    WritesReads(e, t);
    BuildExactly(e, depth);
  }

  // ----- Writing with brackets from a supply

  /** How many pairs of parentheses the text of t takes. */
  function Pairs(t: Tree): nat
    requires OperatorTree(t)
  {
    if t.node.op.None? then 0
    else if NodePrecedence(t.node) == 1 then 1 + Pairs(t.left)
    else if IsOp(t, TernaryQ) then 1 + Pairs(t.left) + Pairs(t.right.left) + Pairs(t.right.right)
    else 1 + Pairs(t.left) + Pairs(t.right)
  }

  datatype Pair = Pair(open: ExprNode, close: ExprNode)

  predicate AllBrackets(pairs: seq<Pair>) {
    forall i | 0 <= i < |pairs| :: IsPair(pairs[i].open, pairs[i].close)
  }

  /** Pairs of parentheses to write with, no node in two places. */
  predicate Supply(pairs: seq<Pair>) {
    && AllBrackets(pairs)
    && (forall i, j | 0 <= i < j < |pairs| :: pairs[i].open != pairs[j].open && pairs[i].close != pairs[j].close)
  }

  /** t written with the pairs from the k-th on. */
  function Written(t: Tree, pairs: seq<Pair>, k: nat): Expr
    requires OperatorTree(t) && k + Pairs(t) <= |pairs|
  {
    if t.node.op.None? then Literal(t.node)
    else
      var l := Written(t.left, pairs, k + 1);
      var m := k + 1 + Pairs(t.left);
      Paren(pairs[k].open, pairs[k].close,
        if NodePrecedence(t.node) == 1 then Prefix(t.node, l)
        else if IsOp(t, TernaryQ) then
          Infix(t.node, l, Infix(t.right.node, Written(t.right.left, pairs, m),
                                 Written(t.right.right, pairs, m + Pairs(t.right.left))))
        else Infix(t.node, l, Written(t.right, pairs, m)))
  }

  lemma PairPrefix(t: Tree, open: ExprNode, close: ExprNode, arg: Expr)
    requires IsPair(open, close) && t.Node? && NodePrecedence(t.node) == 1 && t.right.Nil? && Writes(arg, t.left)
    ensures Writes(Paren(open, close, Prefix(t.node, arg)), t)
  {
  }

  lemma PairInfix(t: Tree, open: ExprNode, close: ExprNode, l: Expr, r: Expr)
    requires IsPair(open, close) && t.Node? && !IsOp(t, TernaryQ)
    requires 2 <= NodePrecedence(t.node) <= 13 || IsOp(t, VarAssign)
    requires Writes(l, t.left) && Writes(r, t.right)
    ensures Writes(Paren(open, close, Infix(t.node, l, r)), t)
  {
  }

  lemma PairTernary(t: Tree, open: ExprNode, close: ExprNode, l: Expr, y: Expr, n: Expr)
    requires IsPair(open, close) && IsOp(t, TernaryQ) && IsOp(t.right, TernaryC)
    requires Writes(l, t.left) && Writes(y, t.right.left) && Writes(n, t.right.right)
    ensures Writes(Paren(open, close, Infix(t.node, l, Infix(t.right.node, y, n))), t)
  {
  }

  /** Every operator tree can be written. */
  lemma {:induction false} WrittenWrites(t: Tree, pairs: seq<Pair>, k: nat)
    requires OperatorTree(t) && k + Pairs(t) <= |pairs| && AllBrackets(pairs)
    ensures Writes(Written(t, pairs, k), t)
  {
    if t.node.op.Some? {
      var l, m := Written(t.left, pairs, k + 1), k + 1 + Pairs(t.left);
      WrittenWrites(t.left, pairs, k + 1);
      if NodePrecedence(t.node) == 1 {
        PairPrefix(t, pairs[k].open, pairs[k].close, l);
      } else if IsOp(t, TernaryQ) {
        var yes, no := t.right.left, t.right.right;
        WrittenWrites(yes, pairs, m);
        WrittenWrites(no, pairs, m + Pairs(yes));
        PairTernary(t, pairs[k].open, pairs[k].close, l, Written(yes, pairs, m), Written(no, pairs, m + Pairs(yes)));
      } else {
        WrittenWrites(t.right, pairs, m);
        PairInfix(t, pairs[k].open, pairs[k].close, l, Written(t.right, pairs, m));
      }
    }
  }

  /** The trees that expressions denote are exactly the operator trees. */
  lemma {:induction false} ShapesAreOperatorTrees(e: Expr)
    requires Grammatical(e)
    ensures IsArms(e) ==> IsOp(Shape(e), TernaryC) && OperatorTree(Shape(e).left) && OperatorTree(Shape(e).right)
    ensures !IsArms(e) ==> OperatorTree(Shape(e))
  {
    if e.Prefix? {
      ShapesAreOperatorTrees(e.arg);
    } else if e.Infix? {
      InfixParts(e);
      ShapesAreOperatorTrees(e.lhs);
      ShapesAreOperatorTrees(e.rhs);
    } else if e.Paren? {
      ShapesAreOperatorTrees(e.body);
    }
  }

  lemma LiteralTight(tok: ExprNode)
    requires tok.op.None?
    ensures Operand(Literal(tok), 0)
  {
    var e := Literal(tok);
    assert Grammatical(e) && Level(e) == 0 && !IsArms(e);
  }

  /** `**` groups to the left like every other binary operator. */
  lemma ExponentGroupsLeft(a: ExprNode, x: ExprNode, b: ExprNode, y: ExprNode, c: ExprNode)
    requires a.op.None? && b.op.None? && c.op.None?
    requires x.op == Some(Exponent) && y.op == Some(Exponent)
    ensures Build([Leaf(a), Leaf(x), Leaf(b), Leaf(y), Leaf(c)], 0)
         == Some([Node(y, Node(x, Leaf(a), Leaf(b)), Leaf(c))])
  {
    var inner := Infix(x, Literal(a), Literal(b));
    var e := Infix(y, inner, Literal(c));
    assert Precedence(Exponent) == 2 && NodePrecedence(x) == 2 && NodePrecedence(y) == 2;
    LiteralTight(a);
    LiteralTight(b);
    LiteralTight(c);
    InfixOfTight(x, Literal(a), Literal(b));
    assert Operand(inner, 2);
    Looser(Literal(c), 0, 1);
    assert Grammatical(e) && Expression(e);
    assert Tokens(inner) == [Leaf(a), Leaf(x), Leaf(b)];
    assert Tokens(e) == [Leaf(a), Leaf(x), Leaf(b), Leaf(y), Leaf(c)];
    assert Nesting(Literal(a)) == 0 && Nesting(Literal(b)) == 0 && Nesting(Literal(c)) == 0;
    assert Shape(inner) == Node(x, Leaf(a), Leaf(b));
    assert Nesting(inner) == Max(Nesting(Literal(a)), Nesting(Literal(b))) == 0;
    assert Shape(e) == Node(y, Shape(inner), Leaf(c));
    assert Nesting(e) == Max(Nesting(inner), Nesting(Literal(c))) == 0;
    BuildExactly(e, 0);
  }
}
