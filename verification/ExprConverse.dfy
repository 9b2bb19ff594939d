/** Which token lists the builder accepts as one expression: it leaves a single
    complete term, with every group collapsing to one term on the way, exactly on
    the tokens of the expressions of the grammar. */
module ExprConverse {
  import opened Operators
  import opened ExprTree
  import opened ExprGrammar
  import opened ExprShape
  import opened ExprLists

  // ----- Text

  /** The tokens of es, one construct after the other. */
  function Text(es: seq<Expr>): seq<Tree> {
    if es == [] then [] else Tokens(es[0]) + Text(es[1..])
  }

  lemma {:induction false} TextJoin(a: seq<Expr>, b: seq<Expr>)
    ensures Text(a + b) == Text(a) + Text(b)
  {
    if a == [] {
      assert a + b == b;
    } else {
      assert (a + b)[1..] == a[1..] + b;
      TextJoin(a[1..], b);
    }
  }

  lemma TextOne(e: Expr)
    ensures Text([e]) == Tokens(e)
  {
    assert [e][1..] == [];
  }

  lemma TextCons(e: Expr, es: seq<Expr>)
    ensures Text([e] + es) == Tokens(e) + Text(es)
  {
    assert ([e] + es)[1..] == es;
  }

  /** The items of a construct have its tokens. */
  lemma {:induction false} AtomsText(e: Expr)
    ensures Text(AtomsOf(e)) == Tokens(e)
  {
    if e.Prefix? {
      AtomsText(e.arg);
      TextCons(Literal(e.op), AtomsOf(e.arg));
    } else if e.Infix? {
      AtomsText(e.lhs);
      AtomsText(e.rhs);
      TextOne(Literal(e.op));
      TextJoin(AtomsOf(e.lhs), [Literal(e.op)]);
      TextJoin(AtomsOf(e.lhs) + [Literal(e.op)], AtomsOf(e.rhs));
    } else {
      TextOne(e);
    }
  }

  lemma {:induction false} SpreadText(es: seq<Expr>)
    ensures Text(Spread(es)) == Text(es)
  {
    if es != [] {
      AtomsText(es[0]);
      TextJoin(AtomsOf(es[0]), Spread(es[1..]));
      SpreadText(es[1..]);
    }
  }

  // ----- Phase 1

  predicate SingleTerm(r: Option<seq<Tree>>) {
    r.Some? && |r.value| == 1 && IsTerm(r.value[0])
  }

  /** Every group of ts, and every group inside it, builds to a single term. */
  predicate Collapses(ts: seq<Tree>, depth: int)
    decreases |ts|
  {
    if ts == [] then true
    else if IsOp(ts[0], OpenBracket) then
      var m := CloseIndex(ts[1..], 1);
      && m < |ts| - 1
      && Collapses(ts[1..m+1], depth + 1)
      && SingleTerm(Build(ts[1..m+1], depth + 1))
      && Collapses(ts[m+2..], depth)
    else Collapses(ts[1..], depth)
  }

  predicate IsToken(t: Tree) {
    t.Node? && t.left.Nil? && t.right.Nil?
  }

  predicate AllTokens(ts: seq<Tree>) {
    forall i | 0 <= i < |ts| :: IsToken(ts[i])
  }

  lemma BindParen(open: Tree, close: Tree, e: Expr)
    requires IsToken(open) && IsOp(open, OpenBracket) && IsToken(close) && IsOp(close, CloseBracket) && Operand(e, 15)
    ensures var f := Paren(open.node, close.node, e);
            Operand(f, 0) && Shape(f) == Shape(e) && Tokens(f) == [open] + Tokens(e) + [close]
  {
    assert Grammatical(Paren(open.node, close.node, e));
    assert open == Leaf(open.node) && close == Leaf(close.node);
  }

  /** The tokens before the closing bracket leave the group open. */
  lemma {:induction false} OpenPrefix(ts: seq<Tree>, nest: nat)
    requires 0 < nest
    ensures var m := CloseIndex(ts, nest); CloseIndex(ts[..m], nest) == m
  {
    if ts != [] && NestAfter(ts[0], nest) != 0 {
      var m := CloseIndex(ts, nest);
      OpenPrefix(ts[1..], NestAfter(ts[0], nest));
      assert ts[..m][1..] == ts[1..][..m-1];
    }
  }

  /** A list cut around the first m tokens after its first. */
  lemma CutGroup(ts: seq<Tree>, m: nat)
    requires m + 1 < |ts|
    ensures ts[1..][..m] == ts[1..m+1] && ts[1..][m] == ts[m+1]
    ensures ts == [ts[0]] + (ts[1..m+1] + ([ts[m+1]] + ts[m+2..]))
  {
  }

  lemma RegroupGroup<T>(a: seq<T>, b: seq<T>, c: seq<T>, d: seq<T>)
    ensures (a + b + c) + d == a + (b + (c + d))
  {
  }

  /** A group in front of a list that phase 1 accepts. */
  lemma GroupAhead(ts: seq<Tree>, depth: int)
    requires ts != [] && IsOp(ts[0], OpenBracket) && Brackets(ts, depth).Some?
    ensures var m := CloseIndex(ts[1..], 1);
            && 0 < m && m + 1 < |ts| && IsOp(ts[m+1], CloseBracket)
            && CloseIndex(ts[1..m+1], 1) == m
            && Build(ts[1..m+1], depth + 1).Some? && Brackets(ts[m+2..], depth).Some?
            && Brackets(ts, depth).value == Build(ts[1..m+1], depth + 1).value + Brackets(ts[m+2..], depth).value
            && ts == [ts[0]] + (ts[1..m+1] + ([ts[m+1]] + ts[m+2..]))
  {
    var m := CloseIndex(ts[1..], 1);
    ClosingToken(ts[1..], 1);
    OpenPrefix(ts[1..], 1);
    CutGroup(ts, m);
  }

  lemma TokenParts(ts: seq<Tree>, depth: int)
    requires ts != [] && !IsOp(ts[0], OpenBracket) && Collapses(ts, depth) && Brackets(ts, depth).Some?
    ensures Collapses(ts[1..], depth) && Brackets(ts[1..], depth).Some?
    ensures Brackets(ts, depth).value == [ts[0]] + Brackets(ts[1..], depth).value
  {
  }

  lemma {:induction false} LiftBrackets(ts: seq<Tree>, depth: int) returns (es: seq<Expr>)
    requires AllTokens(ts)
    requires Collapses(ts, depth) && Brackets(ts, depth).Some?
    ensures Fine(es, 0) && Shapes(es) == Brackets(ts, depth).value && Text(es) == ts
    decreases |ts|, 0
  {
    if ts == [] {
      return [];
    }
    if IsOp(ts[0], OpenBracket) {
      var m := CloseIndex(ts[1..], 1);
      GroupAhead(ts, depth);
      assert IsToken(ts[0]) && IsToken(ts[m+1]);
      assert AllTokens(ts[1..m+1]) && AllTokens(ts[m+2..]);
      var e := LiftBuild(ts[1..m+1], depth + 1);
      var gs := LiftBrackets(ts[m+2..], depth);
      BindParen(ts[0], ts[m+1], e);
      var f := Paren(ts[0].node, ts[m+1].node, e);
      es := [f] + gs;
      ConsFine(f, gs, 0);
      TextCons(f, gs);
      RegroupGroup([ts[0]], ts[1..m+1], [ts[m+1]], ts[m+2..]);
    } else {
      TokenParts(ts, depth);
      assert IsToken(ts[0]) && AllTokens(ts[1..]);
      var gs := LiftBrackets(ts[1..], depth);
      var f := Literal(ts[0].node);
      es := [f] + gs;
      ConsFine(f, gs, 0);
      TextCons(f, gs);
    }
  }

  /** The expression behind a build that leaves a single term. */
  lemma {:induction false} LiftBuild(ts: seq<Tree>, depth: int) returns (e: Expr)
    requires AllTokens(ts)
    requires Collapses(ts, depth) && SingleTerm(Build(ts, depth))
    ensures Expression(e) && Tokens(e) == ts && [Shape(e)] == Build(ts, depth).value
    decreases |ts|, 1
  {
    var es := LiftBrackets(ts, depth);
    SpreadText(es);
    var fs := LiftOperators(es);
    e := fs[0];
    TermOrRaw(e, 15);
    SpreadOne(e);
    assert fs == [e];
    AtomsText(e);
  }

  // ----- The other direction: the groups of an expression collapse

  lemma SkipCollapses(n: ExprNode, rest: seq<Tree>, depth: int)
    requires 0 <= NodePrecedence(n) && Collapses(rest, depth)
    ensures Collapses([Leaf(n)] + rest, depth)
  {
    assert ([Leaf(n)] + rest)[1..] == rest;
  }

  lemma GroupCollapses(open: Tree, body: seq<Tree>, close: Tree, after: seq<Tree>, depth: int)
    requires IsOp(open, OpenBracket) && CloseIndex(body + ([close] + after), 1) == |body|
    requires Collapses(body, depth + 1) && SingleTerm(Build(body, depth + 1)) && Collapses(after, depth)
    ensures Collapses([open] + (body + ([close] + after)), depth)
  {
    GroupSlices(open, body, close, after);
  }

  lemma ParenCollapses(e: Expr, rest: seq<Tree>, depth: int)
    requires Grammatical(e) && e.Paren? && Collapses(rest, depth)
    requires Collapses(Tokens(e.body), depth + 1) && SingleTerm(Build(Tokens(e.body), depth + 1))
    ensures Collapses(TokensThen(e, rest), depth)
  {
    var tail := [Leaf(e.close)] + rest;
    TokensThenConcat(e.body, tail);
    BracketsBalance(e.body, tail, 1);
    assert CloseIndex(tail, 1) == 0;
    GroupCollapses(Leaf(e.open), Tokens(e.body), Leaf(e.close), rest, depth);
  }

  lemma BodyCollapses(e: Expr, depth: int)
    requires Expression(e) && depth + Nesting(e) <= MAX_EXPR_DEPTH && Collapses(TokensThen(e, []), depth)
    ensures Collapses(Tokens(e), depth) && SingleTerm(Build(Tokens(e), depth))
  {
    TokensThenConcat(e, []);
    assert Tokens(e) + [] == Tokens(e);
    BuildShape(e, depth);
    ShapeIsTerm(e);
  }

  lemma {:induction false} TokensCollapse(e: Expr, rest: seq<Tree>, depth: int)
    requires Grammatical(e) && depth + Nesting(e) <= MAX_EXPR_DEPTH && Collapses(rest, depth)
    ensures Collapses(TokensThen(e, rest), depth)
    decreases e
  {
    if e.Literal? {
      SkipCollapses(e.tok, rest, depth);
    } else if e.Prefix? {
      TokensCollapse(e.arg, rest, depth);
      SkipCollapses(e.op, TokensThen(e.arg, rest), depth);
    } else if e.Infix? {
      InfixParts(e);
      TokensCollapse(e.rhs, rest, depth);
      SkipCollapses(e.op, TokensThen(e.rhs, rest), depth);
      TokensCollapse(e.lhs, [Leaf(e.op)] + TokensThen(e.rhs, rest), depth);
    } else {
      TokensCollapse(e.body, [], depth + 1);
      BodyCollapses(e.body, depth + 1);
      ParenCollapses(e, rest, depth);
    }
  }

  // ----- Main results

  /** A token list is an expression whose parentheses stay within the limit
      exactly when the builder turns it, and every group in it, into one term. */
  lemma AcceptsExactly(ts: seq<Tree>, depth: int)
    requires AllTokens(ts)
    ensures (exists e :: Expression(e) && Tokens(e) == ts && depth + Nesting(e) <= MAX_EXPR_DEPTH)
       <==> SingleTerm(Build(ts, depth)) && Collapses(ts, depth)
  {
    if SingleTerm(Build(ts, depth)) && Collapses(ts, depth) {
      var e := LiftBuild(ts, depth);
      BuildExactly(e, depth);
    }
    forall e | Expression(e) && Tokens(e) == ts && depth + Nesting(e) <= MAX_EXPR_DEPTH
      ensures SingleTerm(Build(ts, depth)) && Collapses(ts, depth)
    {
      BuildShape(e, depth);
      ShapeIsTerm(e);
      TokensCollapse(e, [], depth);
      TokensThenConcat(e, []);
      assert Tokens(e) + [] == ts;
    }
  }

  /** Leftover tokens are not rejected: two literals in a row build to themselves,
      although they are no expression. */
  lemma LeftoverAccepted(a: ExprNode, b: ExprNode)
    requires a.op.None? && b.op.None?
    ensures Build([Leaf(a), Leaf(b)], 0) == Some([Leaf(a), Leaf(b)])
    ensures !exists e :: Expression(e) && Tokens(e) == [Leaf(a), Leaf(b)]
  {
    var x, y := Leaf(a), Leaf(b);
    var ts := [x, y];
    assert [y] + [] == [y] && [x] + [y] == ts;
    SkipToken(b, [], 0);
    SkipToken(a, [y], 0);
    assert Brackets(ts, 0) == Some(ts);
    assert ts[1..] == [y] && [y][1..] == [];
    assert Prefixes([y]) == Some([y] + []);
    assert Prefixes(ts) == Some([x] + [y]);
    LevelsIdle(2, x, y);
    TwoSteps(x, y);
    forall e | Expression(e) && Tokens(e) == ts
      ensures false
    {
      BuildExactly(e, 0);
    }
  }

  lemma TwoSteps(x: Tree, y: Tree)
    requires x.Node? && x.node.op.None? && y.Node? && y.node.op.None?
    ensures Ternaries([], [x, y]) == Some([x, y]) && Assigns([x, y], []) == Some([x, y])
  {
    assert [x, y][1..] == [y] && [y][1..] == [] && [] + [x] == [x] && [x] + [y] == [x, y];
    assert Ternaries([x, y], []) == Some([x, y]);
    assert Ternaries([x], [y]) == Ternaries([x, y], []);
    assert [x, y][..1] == [x] && [x][..0] == [] && [y] + [] == [y];
    assert Assigns([], [x, y]) == Some([x, y]);
    assert Assigns([x], [y]) == Assigns([], [x] + [y]);
  }

  lemma {:induction false} LevelsIdle(p: int, x: Tree, y: Tree)
    requires 2 <= p <= 14 && x.Node? && x.node.op.None? && y.Node? && y.node.op.None?
    ensures BinaryLevels(p, [x, y]) == Some([x, y])
    decreases 14 - p
  {
    if p <= 13 {
      assert [x, y][1..] == [y] && [y][1..] == [] && [] + [x] == [x] && [x] + [y] == [x, y];
      assert Binaries(p, [x, y], []) == Some([x, y]);
      assert Binaries(p, [x], [y]) == Binaries(p, [x, y], []);
      LevelsIdle(p + 1, x, y);
    }
  }
}
