/** The shape theorem: on the tokens of an expression the builder leaves exactly
    the one tree the grammar prescribes, and it fails exactly when the
    parentheses nest more deeply than the limit allows. */
module ExprShape {
  import opened Operators
  import opened ExprTree
  import opened ExprGrammar

  // ----- The list between two phases, with what surrounds it

  /** The tokens of e followed by rest. */
  function TokensThen(e: Expr, rest: seq<Tree>): seq<Tree> {
    match e
    case Literal(tok) => [Leaf(tok)] + rest
    case Prefix(op, arg) => [Leaf(op)] + TokensThen(arg, rest)
    case Infix(op, lhs, rhs) => TokensThen(lhs, [Leaf(op)] + TokensThen(rhs, rest))
    case Paren(open, close, body) => [Leaf(open)] + TokensThen(body, [Leaf(close)] + rest)
  }

  lemma {:induction false} TokensThenConcat(e: Expr, rest: seq<Tree>)
    ensures TokensThen(e, rest) == Tokens(e) + rest
  {
    if e.Prefix? {
      TokensThenConcat(e.arg, rest);
    } else if e.Infix? {
      TokensThenConcat(e.rhs, rest);
      TokensThenConcat(e.lhs, [Leaf(e.op)] + TokensThen(e.rhs, rest));
    } else if e.Paren? {
      TokensThenConcat(e.body, [Leaf(e.close)] + rest);
    }
  }

  /** e with every construct of level at most p folded into its tree,
      followed by rest. */
  function FoldedThen(e: Expr, p: int, rest: seq<Tree>): seq<Tree> {
    if Level(e) <= p then [Shape(e)] + rest
    else
      match e
      case Literal(tok) => [Leaf(tok)] + rest
      case Prefix(op, arg) => [Leaf(op)] + FoldedThen(arg, p, rest)
      case Infix(op, lhs, rhs) => FoldedThen(lhs, p, [Leaf(op)] + FoldedThen(rhs, p, rest))
      case Paren(_, _, body) => [Shape(body)] + rest
  }

  /** done followed by e with every construct of level at most p folded. */
  function FoldedAfter(done: seq<Tree>, e: Expr, p: int): seq<Tree>
    decreases e
  {
    if Level(e) <= p then done + [Shape(e)]
    else
      match e
      case Literal(tok) => done + [Leaf(tok)]
      case Prefix(op, arg) => FoldedAfter(done + [Leaf(op)], arg, p)
      case Infix(op, lhs, rhs) => FoldedAfter(FoldedAfter(done, lhs, p) + [Leaf(op)], rhs, p)
      case Paren(_, _, body) => done + [Shape(body)]
  }

  lemma {:induction false} FoldedBothWays(done: seq<Tree>, e: Expr, p: int, rest: seq<Tree>)
    ensures done + FoldedThen(e, p, rest) == FoldedAfter(done, e, p) + rest
    decreases e
  {
    if Level(e) <= p {
    } else if e.Prefix? {
      FoldedBothWays(done + [Leaf(e.op)], e.arg, p, rest);
      ConcatMiddle(done, Leaf(e.op), FoldedThen(e.arg, p, rest));
    } else if e.Infix? {
      FoldedBothWays(done, e.lhs, p, [Leaf(e.op)] + FoldedThen(e.rhs, p, rest));
      ConcatMiddle(FoldedAfter(done, e.lhs, p), Leaf(e.op), FoldedThen(e.rhs, p, rest));
      FoldedBothWays(FoldedAfter(done, e.lhs, p) + [Leaf(e.op)], e.rhs, p, rest);
    } else if e.Literal? {
      ConcatMiddle(done, Leaf(e.tok), rest);
    } else {
      ConcatMiddle(done, Shape(e.body), rest);
    }
  }

  lemma ConcatMiddle(a: seq<Tree>, t: Tree, b: seq<Tree>)
    ensures a + ([t] + b) == a + [t] + b
  {
  }

  lemma FoldedAlone(e: Expr, p: int)
    ensures FoldedAfter([], e, p) == FoldedThen(e, p, [])
  {
    FoldedBothWays([], e, p, []);
    assert [] + FoldedThen(e, p, []) == FoldedThen(e, p, []);
    assert FoldedAfter([], e, p) + [] == FoldedAfter([], e, p);
  }

  /** An operand is a complete term, so no phase takes it for an operator. */
  lemma {:induction false} ShapeIsTerm(e: Expr)
    requires Grammatical(e)
    ensures IsTerm(Shape(e))
  {
    if e.Paren? {
      ShapeIsTerm(e.body);
    }
  }

  /** What the precedence table says about an infix construct. */
  lemma InfixParts(e: Expr)
    requires Grammatical(e) && e.Infix?
    ensures 2 <= Level(e) <= 15
    ensures Grammatical(e.lhs) && !IsArms(e.lhs) && Level(e.lhs) <= Level(e)
    ensures Grammatical(e.rhs)
    ensures Level(e) <= 13 ==> Operand(e.rhs, Level(e) - 1)
    ensures Level(e) == 14 && !IsArms(e) ==> e.op.op == Some(TernaryQ) && IsArms(e.rhs)
    ensures IsArms(e) ==> Level(e) == 14 && Level(e.lhs) <= 13 && Operand(e.rhs, 13)
    ensures Level(e) == 15 ==> e.op.op == Some(VarAssign) && Level(e.lhs) <= 14 && Expression(e.rhs)
  {
    if e.op.op.Some? {
      LooseLevels(e.op.op.value);
    }
    assert IsArms(e.rhs) ==> Level(e.rhs) == 14;
  }

  /** The operators of the two loosest levels. */
  lemma LooseLevels(op: Operator)
    ensures Precedence(op) == 14 <==> op == TernaryQ || op == TernaryC
    ensures Precedence(op) == 15 <==> op == VarAssign
  {
  }

  // ----- Phase 1

  lemma {:induction false} BracketsBalance(e: Expr, rest: seq<Tree>, nest: nat)
    requires Grammatical(e) && 0 < nest
    ensures CloseIndex(TokensThen(e, rest), nest) == |Tokens(e)| + CloseIndex(rest, nest)
  {
    if e.Literal? {
      PassToken(e.tok, rest, nest);
    } else if e.Prefix? {
      PassToken(e.op, TokensThen(e.arg, rest), nest);
      BracketsBalance(e.arg, rest, nest);
    } else if e.Infix? {
      BracketsBalance(e.lhs, [Leaf(e.op)] + TokensThen(e.rhs, rest), nest);
      PassToken(e.op, TokensThen(e.rhs, rest), nest);
      BracketsBalance(e.rhs, rest, nest);
    } else {
      PassOver(Leaf(e.open), TokensThen(e.body, [Leaf(e.close)] + rest), nest);
      BracketsBalance(e.body, [Leaf(e.close)] + rest, nest + 1);
      PassOver(Leaf(e.close), rest, nest + 1);
    }
  }

  lemma PassToken(n: ExprNode, rest: seq<Tree>, nest: nat)
    requires 0 < nest && 0 <= NodePrecedence(n)
    ensures CloseIndex([Leaf(n)] + rest, nest) == 1 + CloseIndex(rest, nest)
  {
    PassOver(Leaf(n), rest, nest);
  }

  lemma PassOver(t: Tree, rest: seq<Tree>, nest: nat)
    requires 0 < nest && NestAfter(t, nest) != 0
    ensures CloseIndex([t] + rest, nest) == 1 + CloseIndex(rest, NestAfter(t, nest))
  {
    assert ([t] + rest)[1..] == rest;
  }

  /** Phase 1 replaces every parenthesised operand by its tree. */
  lemma {:induction false} BracketsFold(e: Expr, rest: seq<Tree>, depth: int)
    requires Grammatical(e) && depth + Nesting(e) <= MAX_EXPR_DEPTH
    requires Brackets(rest, depth).Some?
    ensures Brackets(TokensThen(e, rest), depth) == Some(FoldedThen(e, 0, Brackets(rest, depth).value))
    decreases e, 0
  {
    if e.Literal? {
      SkipToken(e.tok, rest, depth);
    } else if e.Prefix? {
      BracketsFold(e.arg, rest, depth);
      SkipToken(e.op, TokensThen(e.arg, rest), depth);
    } else if e.Infix? {
      InfixParts(e);
      var r := Brackets(rest, depth).value;
      BracketsFold(e.rhs, rest, depth);
      SkipToken(e.op, TokensThen(e.rhs, rest), depth);
      BracketsFold(e.lhs, [Leaf(e.op)] + TokensThen(e.rhs, rest), depth);
      assert FoldedThen(e, 0, r) == FoldedThen(e.lhs, 0, [Leaf(e.op)] + FoldedThen(e.rhs, 0, r));
    } else {
      BuildShape(e.body, depth + 1);
      ParenFold(e, rest, depth);
    }
  }

  lemma ParenFold(e: Expr, rest: seq<Tree>, depth: int)
    requires Grammatical(e) && e.Paren? && Brackets(rest, depth).Some?
    requires Build(Tokens(e.body), depth + 1) == Some([Shape(e.body)])
    ensures Brackets(TokensThen(e, rest), depth) == Some([Shape(e)] + Brackets(rest, depth).value)
  {
    ParenStep(e, rest, depth);
  }

  lemma SkipToken(n: ExprNode, rest: seq<Tree>, depth: int)
    requires 0 <= NodePrecedence(n)
    ensures Brackets([Leaf(n)] + rest, depth) ==
            var tail := Brackets(rest, depth);
            if tail.None? then None else Some([Leaf(n)] + tail.value)
  {
    assert ([Leaf(n)] + rest)[1..] == rest;
  }

  /** The parts of a group with something after it. */
  lemma GroupSlices(open: Tree, body: seq<Tree>, close: Tree, after: seq<Tree>)
    ensures var ts := [open] + (body + ([close] + after));
            && ts[1..] == body + ([close] + after)
            && ts[1..|body|+1] == body
            && ts[|body|+2..] == after
            && |ts| == |body| + 2 + |after|
  {
  }

  /** What phase 1 does at an opening bracket whose group is body. */
  lemma GroupFold(open: Tree, body: seq<Tree>, close: Tree, after: seq<Tree>, depth: int)
    requires IsOp(open, OpenBracket) && body != []
    requires CloseIndex(body + ([close] + after), 1) == |body|
    ensures Brackets([open] + (body + ([close] + after)), depth) ==
            var inner := Build(body, depth + 1);
            var tail := Brackets(after, depth);
            if inner.None? || tail.None? then None else Some(inner.value + tail.value)
  {
    GroupSlices(open, body, close, after);
  }

  lemma ParenStep(e: Expr, rest: seq<Tree>, depth: int)
    requires Grammatical(e) && e.Paren?
    ensures Brackets(TokensThen(e, rest), depth) ==
            var inner := Build(Tokens(e.body), depth + 1);
            var tail := Brackets(rest, depth);
            if inner.None? || tail.None? then None else Some(inner.value + tail.value)
  {
    var tail := [Leaf(e.close)] + rest;
    TokensThenConcat(e.body, tail);
    BracketsBalance(e.body, tail, 1);
    assert CloseIndex(tail, 1) == 0;
    GroupFold(Leaf(e.open), Tokens(e.body), Leaf(e.close), rest, depth);
  }

  // ----- Phase 2

  lemma {:induction false} PrefixesFold(e: Expr, rest: seq<Tree>)
    requires Grammatical(e) && Prefixes(rest).Some?
    ensures Prefixes(FoldedThen(e, 0, rest)) == Some(FoldedThen(e, 1, Prefixes(rest).value))
  {
    if e.Prefix? {
      PrefixesFold(e.arg, rest);
      ShapeIsTerm(e.arg);
      PrefixStep(e.op, Shape(e.arg), FoldedThen(e.arg, 0, rest), Prefixes(rest).value);
    } else if e.Infix? {
      InfixParts(e);
      PrefixesFold(e.rhs, rest);
      var afterLhs := [Leaf(e.op)] + FoldedThen(e.rhs, 0, rest);
      assert afterLhs[1..] == FoldedThen(e.rhs, 0, rest);
      PrefixesFold(e.lhs, afterLhs);
    } else {
      ShapeIsTerm(e);
      assert FoldedThen(e, 0, rest)[1..] == rest;
    }
  }

  lemma PrefixStep(op: ExprNode, arg: Tree, ts: seq<Tree>, tail: seq<Tree>)
    requires NodePrecedence(op) == 1 && IsTerm(arg) && Prefixes(ts) == Some([arg] + tail)
    ensures Prefixes([Leaf(op)] + ts) == Some([Node(op, arg, Nil)] + tail)
  {
    assert ([Leaf(op)] + ts)[1..] == ts;
    assert ([arg] + tail)[1..] == tail;
  }

  // ----- Phase 3

  lemma {:induction false} BinariesFold(e: Expr, p: int, done: seq<Tree>, rest: seq<Tree>)
    requires Grammatical(e) && 2 <= p <= 13
    ensures Binaries(p, done, FoldedThen(e, p - 1, rest)) == Binaries(p, FoldedAfter(done, e, p), rest)
    decreases e
  {
    if Level(e) < p {
      ShapeIsTerm(e);
      assert FoldedThen(e, p - 1, rest)[1..] == rest;
    } else {
      InfixParts(e);
      var afterOp := FoldedThen(e.rhs, p - 1, rest);
      BinariesFold(e.lhs, p, done, [Leaf(e.op)] + afterOp);
      if Level(e) == p {
        ShapeIsTerm(e.lhs);
        ShapeIsTerm(e.rhs);
        BinaryStep(p, Leaf(e.op), done, Shape(e.lhs), Shape(e.rhs), rest);
      } else {
        assert ([Leaf(e.op)] + afterOp)[1..] == afterOp;
        BinariesFold(e.rhs, p, FoldedAfter(done, e.lhs, p) + [Leaf(e.op)], rest);
      }
    }
  }

  lemma {:induction false} BinaryLevelsFold(e: Expr, p: int)
    requires Grammatical(e) && 2 <= p <= 14
    ensures BinaryLevels(p, FoldedThen(e, p - 1, [])) == Some(FoldedThen(e, 13, []))
    decreases 14 - p
  {
    if p <= 13 {
      BinariesFold(e, p, [], []);
      FoldedAlone(e, p);
      BinaryLevelsFold(e, p + 1);
    }
  }

  // ----- Phase 4

  lemma {:induction false} TernariesFold(e: Expr, done: seq<Tree>, rest: seq<Tree>)
    requires Expression(e)
    ensures Ternaries(done, FoldedThen(e, 13, rest)) == Ternaries(FoldedAfter(done, e, 14), rest)
    decreases e
  {
    if Level(e) < 14 {
      ShapeIsTerm(e);
      assert FoldedThen(e, 13, rest)[1..] == rest;
    } else {
      InfixParts(e);
      var afterOp := FoldedThen(e.rhs, 13, rest);
      TernariesFold(e.lhs, done, [Leaf(e.op)] + afterOp);
      if Level(e) == 14 {
        InfixParts(e.rhs);
        ShapeIsTerm(e.lhs);
        ShapeIsTerm(e.rhs.lhs);
        ShapeIsTerm(e.rhs.rhs);
        assert afterOp == FoldedThen(e.rhs.lhs, 13, [Leaf(e.rhs.op)] + FoldedThen(e.rhs.rhs, 13, rest));
        assert FoldedThen(e.rhs.rhs, 13, rest) == [Shape(e.rhs.rhs)] + rest;
        assert afterOp == [Shape(e.rhs.lhs)] + ([Leaf(e.rhs.op)] + ([Shape(e.rhs.rhs)] + rest));
        assert Shape(e) == Node(e.op, Shape(e.lhs), Node(e.rhs.op, Shape(e.rhs.lhs), Shape(e.rhs.rhs)));
        TernaryStep(Leaf(e.op), Leaf(e.rhs.op), done, Shape(e.lhs), Shape(e.rhs.lhs), Shape(e.rhs.rhs), rest);
      } else {
        assert ([Leaf(e.op)] + afterOp)[1..] == afterOp;
        TernariesFold(e.rhs, FoldedAfter(done, e.lhs, 14) + [Leaf(e.op)], rest);
      }
    }
  }

  // ----- Phase 5

  lemma {:induction false} AssignsFold(e: Expr, todo: seq<Tree>, done: seq<Tree>)
    requires Expression(e)
    ensures Assigns(FoldedAfter(todo, e, 14), done) == Assigns(todo, [Shape(e)] + done)
    decreases e
  {
    if Level(e) <= 14 {
      ShapeIsTerm(e);
      assert (todo + [Shape(e)])[..|todo|] == todo;
    } else {
      InfixParts(e);
      ShapeIsTerm(e.lhs);
      ShapeIsTerm(e.rhs);
      AssignsFold(e.rhs, todo + [Shape(e.lhs)] + [Leaf(e.op)], done);
      AssignStep(Leaf(e.op), todo, Shape(e.lhs), Shape(e.rhs), done);
    }
  }

  // ----- The theorem

  lemma FoldOperatorsShape(e: Expr)
    requires Expression(e)
    ensures FoldOperators(FoldedThen(e, 0, [])) == Some([Shape(e)])
  {
    PrefixesFold(e, []);
    BinaryLevelsFold(e, 2);
    TernariesFold(e, [], []);
    FoldedAlone(e, 14);
    AssignsFold(e, [], []);
    assert [Shape(e)] + [] == [Shape(e)];
  }

  /** The tokens of an expression build its tree and nothing else. */
  lemma {:induction false} BuildShape(e: Expr, depth: int)
    requires Expression(e) && depth + Nesting(e) <= MAX_EXPR_DEPTH
    ensures Build(Tokens(e), depth) == Some([Shape(e)])
    decreases e, 1
  {
    TokensThenConcat(e, []);
    assert Tokens(e) + [] == Tokens(e);
    BracketsFold(e, [], depth);
    FoldOperatorsShape(e);
  }

  // ----- The depth limit is the only way an expression can fail

  lemma {:induction false} BracketsFail(e: Expr, rest: seq<Tree>, depth: int)
    requires Grammatical(e) && depth <= MAX_EXPR_DEPTH
    requires Brackets(rest, depth).None? || depth + Nesting(e) > MAX_EXPR_DEPTH
    ensures Brackets(TokensThen(e, rest), depth).None?
    decreases e, 0
  {
    if e.Literal? {
      SkipToken(e.tok, rest, depth);
    } else if e.Prefix? {
      BracketsFail(e.arg, rest, depth);
      SkipToken(e.op, TokensThen(e.arg, rest), depth);
    } else if e.Infix? {
      InfixParts(e);
      var afterOp := TokensThen(e.rhs, rest);
      if Brackets(rest, depth).None? || depth + Nesting(e.rhs) > MAX_EXPR_DEPTH {
        BracketsFail(e.rhs, rest, depth);
      }
      SkipToken(e.op, afterOp, depth);
      BracketsFail(e.lhs, [Leaf(e.op)] + afterOp, depth);
    } else {
      ParenStep(e, rest, depth);
      if depth + Nesting(e) > MAX_EXPR_DEPTH {
        BuildTooDeep(e.body, depth + 1);
      }
    }
  }

  lemma {:induction false} BuildTooDeep(e: Expr, depth: int)
    requires Expression(e) && depth + Nesting(e) > MAX_EXPR_DEPTH
    ensures Build(Tokens(e), depth).None?
    decreases e, 1
  {
    if depth <= MAX_EXPR_DEPTH {
      TokensThenConcat(e, []);
      assert Tokens(e) + [] == Tokens(e);
      BracketsFail(e, [], depth);
    }
  }

  /** For an expression, the builder succeeds exactly when the parentheses stay
      within the limit, and then it leaves exactly the prescribed tree. */
  lemma BuildExactly(e: Expr, depth: int)
    requires Expression(e)
    ensures Build(Tokens(e), depth)
         == if depth + Nesting(e) <= MAX_EXPR_DEPTH then Some([Shape(e)]) else None
  {
    if depth + Nesting(e) <= MAX_EXPR_DEPTH {
      BuildShape(e, depth);
    } else {
      BuildTooDeep(e, depth);
    }
  }

  /** The grammar is unambiguous: a token list reads as at most one tree, however
      deeply its parentheses nest. */
  lemma UniqueReading(a: Expr, b: Expr)
    requires Expression(a) && Expression(b) && Tokens(a) == Tokens(b)
    ensures Shape(a) == Shape(b)
  {
    var depth: int := -(Max(Nesting(a), Nesting(b)) as int);
    BuildExactly(a, depth);
    BuildExactly(b, depth);
  }
}
