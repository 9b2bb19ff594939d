/** What the builder makes of any token list.  It succeeds exactly when the list
    reads as a row: expressions side by side, with stray colons and closing brackets
    between them, where a group counts for the members of the row inside it. */
module ExprRows {
  import opened Operators
  import opened ExprTree
  import opened ExprGrammar
  import opened ExprShape
  import opened ExprLists
  import opened ExprConverse
  import opened Sequences

  // ----- The syntax

  /** A token list cut into tokens outside any group and groups; row is what the
      inside of a group reads as. */
  datatype Pieces =
    | End
    | Token(node: ExprNode, rest: Pieces)
    | Group(open: ExprNode, close: ExprNode, body: Pieces, row: seq<Expr>, rest: Pieces)

  /** The tokens of ps followed by after. */
  function TextThen(ps: Pieces, after: seq<Tree>): seq<Tree> {
    match ps
    case End => after
    case Token(n, rest) => [Leaf(n)] + TextThen(rest, after)
    case Group(open, close, body, _, rest) => [Leaf(open)] + TextThen(body, [Leaf(close)] + TextThen(rest, after))
  }

  /** A member of a group's row, seen from outside the group. */
  function Enclosed(open: ExprNode, close: ExprNode, e: Expr): Expr {
    if Raw(e) then e else Paren(open, close, e)
  }

  function AllEnclosed(open: ExprNode, close: ExprNode, es: seq<Expr>): (ds: seq<Expr>)
    ensures |ds| == |es| && forall i | 0 <= i < |es| :: ds[i] == Enclosed(open, close, es[i])
  {
    seq(|es|, i requires 0 <= i < |es| => Enclosed(open, close, es[i]))
  }

  /** The items the pieces amount to: a group amounts to the members of its row. */
  function Items(ps: Pieces): seq<Expr> {
    match ps
    case End => []
    case Token(n, rest) => [Literal(n)] + Items(rest)
    case Group(open, close, _, row, rest) => AllEnclosed(open, close, row) + Items(rest)
  }

  /** A token that no phase objects to leaving behind. */
  predicate Stray(e: Expr) {
    Raw(e) && (e.tok.op == Some(CloseBracket) || e.tok.op == Some(TernaryC))
  }

  ghost predicate IsRow(es: seq<Expr>) {
    forall i | 0 <= i < |es| :: Stray(es[i]) || Expression(es[i])
  }

  /** No closing bracket stands outside a group. */
  predicate Closed(ps: Pieces) {
    match ps
    case End => true
    case Token(n, rest) => n.op != Some(CloseBracket) && Closed(rest)
    case Group(_, _, _, _, rest) => Closed(rest)
  }

  /** The pieces read as the row: the items of the row are those of the pieces, and
      so on inside each group, no more deeply than the limit allows. */
  ghost predicate Reads(ps: Pieces, row: seq<Expr>, depth: int)
    decreases ps, 1
  {
    depth <= MAX_EXPR_DEPTH && ps != End && IsRow(row) && Spread(row) == Items(ps) && Groups(ps, depth)
  }

  /** Every group of ps is closed by its bracket and reads as its row. */
  ghost predicate Groups(ps: Pieces, depth: int)
    decreases ps, 0
  {
    match ps
    case End => true
    case Token(n, rest) => n.op != Some(OpenBracket) && Groups(rest, depth)
    case Group(open, close, body, row, rest) =>
      && open.op == Some(OpenBracket) && close.op == Some(CloseBracket)
      && Closed(body) && Reads(body, row, depth + 1) && Groups(rest, depth)
  }

  /** The tokens of a group. */
  function GroupText(open: ExprNode, close: ExprNode, body: Pieces, after: seq<Tree>): seq<Tree> {
    [Leaf(open)] + TextThen(body, [Leaf(close)] + after)
  }

  lemma {:induction false} TextJoin(ps: Pieces, after: seq<Tree>)
    ensures TextThen(ps, after) == TextThen(ps, []) + after
  {
    if ps.Token? {
      TextJoin(ps.rest, after);
      ConcatAssoc([Leaf(ps.node)], TextThen(ps.rest, []), after);
    } else if ps.Group? {
      var c, tail := [Leaf(ps.close)], TextThen(ps.rest, []);
      TextJoin(ps.rest, after);
      TextJoin(ps.body, c + TextThen(ps.rest, after));
      TextJoin(ps.body, c + tail);
      ConcatAssoc(c, tail, after);
      ConcatAssoc(TextThen(ps.body, []), c + tail, after);
      ConcatAssoc([Leaf(ps.open)], TextThen(ps.body, []) + (c + tail), after);
    }
  }

  // ----- Phase 1 on a row

  lemma {:induction false} RowBalance(ps: Pieces, depth: int, after: seq<Tree>, nest: nat)
    requires Groups(ps, depth) && Closed(ps) && 0 < nest
    ensures CloseIndex(TextThen(ps, after), nest) == |TextThen(ps, [])| + CloseIndex(after, nest)
  {
    if ps.Token? {
      RowBalance(ps.rest, depth, after, nest);
      PassOver(Leaf(ps.node), TextThen(ps.rest, after), nest);
    } else if ps.Group? {
      RowBalance(ps.rest, depth, after, nest);
      RowBalance(ps.body, depth + 1, [Leaf(ps.close)] + TextThen(ps.rest, after), nest + 1);
      GroupBalance(ps, TextThen(ps.rest, after), nest);
      TextJoin(ps.body, [Leaf(ps.close)] + TextThen(ps.rest, []));
    }
  }

  lemma GroupBalance(p: Pieces, after: seq<Tree>, nest: nat)
    requires p.Group? && p.open.op == Some(OpenBracket) && p.close.op == Some(CloseBracket) && 0 < nest
    requires var tail := [Leaf(p.close)] + after;
             CloseIndex(TextThen(p.body, tail), nest + 1) == |TextThen(p.body, [])| + CloseIndex(tail, nest + 1)
    ensures CloseIndex(GroupText(p.open, p.close, p.body, after), nest)
         == 2 + |TextThen(p.body, [])| + CloseIndex(after, nest)
  {
    PassOver(Leaf(p.open), TextThen(p.body, [Leaf(p.close)] + after), nest);
    PassOver(Leaf(p.close), after, nest + 1);
  }

  lemma ShapesJoin(a: seq<Expr>, b: seq<Expr>)
    ensures Shapes(a + b) == Shapes(a) + Shapes(b)
  {
  }

  /** Seen from outside, the members of a group's row have the same trees. */
  lemma EnclosedShapes(open: ExprNode, close: ExprNode, es: seq<Expr>)
    ensures Shapes(AllEnclosed(open, close, es)) == Shapes(es)
  {
  }

  /** What phase 1 does at a group whose inside builds. */
  lemma GroupStep(p: Pieces, after: seq<Tree>, depth: int)
    requires p.Group? && p.open.op == Some(OpenBracket) && p.close.op == Some(CloseBracket)
    requires p.body != End && Closed(p.body) && Groups(p.body, depth + 1)
    ensures Brackets(GroupText(p.open, p.close, p.body, after), depth) ==
            var inner := Build(TextThen(p.body, []), depth + 1);
            var tail := Brackets(after, depth);
            if inner.None? || tail.None? then None else Some(inner.value + tail.value)
  {
    var tail := [Leaf(p.close)] + after;
    TextJoin(p.body, tail);
    RowBalance(p.body, depth + 1, tail, 1);
    assert CloseIndex(tail, 1) == 0;
    GroupFold(Leaf(p.open), TextThen(p.body, []), Leaf(p.close), after, depth);
  }

  lemma {:induction false} RowBrackets(ps: Pieces, after: seq<Tree>, depth: int)
    requires Groups(ps, depth) && Brackets(after, depth).Some?
    ensures Brackets(TextThen(ps, after), depth) == Some(Shapes(Items(ps)) + Brackets(after, depth).value)
    decreases ps, 0
  {
    var tail := Brackets(after, depth).value;
    if ps.End? {
      assert Shapes(Items(ps)) == [] && [] + tail == tail;
    } else if ps.Token? {
      RowBrackets(ps.rest, after, depth);
      assert ([Leaf(ps.node)] + TextThen(ps.rest, after))[1..] == TextThen(ps.rest, after);
      ShapesCons(Literal(ps.node), Items(ps.rest));
      ConcatAssoc([Leaf(ps.node)], Shapes(Items(ps.rest)), tail);
    } else {
      RowBrackets(ps.rest, after, depth);
      RowBuilds(ps.body, ps.row, depth + 1);
      GroupStep(ps, TextThen(ps.rest, after), depth);
      EnclosedShapes(ps.open, ps.close, ps.row);
      ShapesJoin(AllEnclosed(ps.open, ps.close, ps.row), Items(ps.rest));
      ConcatAssoc(Shapes(ps.row), Shapes(Items(ps.rest)), tail);
    }
  }

  // ----- Phases 2 to 5 on a row

  /** The members of a row with every construct of level at most p folded. */
  function RowThen(es: seq<Expr>, p: int): seq<Tree> {
    if es == [] then [] else FoldedThen(es[0], p, RowThen(es[1..], p))
  }

  lemma StrayFolded(e: Expr, p: int, rest: seq<Tree>)
    requires Stray(e) && 0 <= p
    ensures FoldedThen(e, p, rest) == [Shape(e)] + rest
    ensures Shape(e) == Leaf(e.tok) && !Open(Shape(e), 1) && !OpenTernary(Shape(e)) && !OpenAssign(Shape(e))
    ensures 2 <= p <= 13 ==> !Open(Shape(e), p)
  {
  }

  lemma {:induction false} AtomsFolded(e: Expr, rest: seq<Tree>)
    requires Raw(e) || Grammatical(e)
    ensures Shapes(AtomsOf(e)) + rest == FoldedThen(e, 0, rest)
  {
    if e.Prefix? {
      AtomsFolded(e.arg, rest);
      ShapesCons(Literal(e.op), AtomsOf(e.arg));
      ConcatAssoc([Leaf(e.op)], Shapes(AtomsOf(e.arg)), rest);
    } else if e.Infix? {
      InfixParts(e);
      var r := Shapes(AtomsOf(e.rhs));
      AtomsFolded(e.rhs, rest);
      AtomsFolded(e.lhs, [Leaf(e.op)] + (r + rest));
      ShapesJoin(AtomsOf(e.lhs), [Literal(e.op)]);
      ShapesJoin(AtomsOf(e.lhs) + [Literal(e.op)], AtomsOf(e.rhs));
      assert Shapes([Literal(e.op)]) == [Leaf(e.op)];
      ConcatAssoc(Shapes(AtomsOf(e.lhs)) + [Leaf(e.op)], r, rest);
      ConcatAssoc(Shapes(AtomsOf(e.lhs)), [Leaf(e.op)], r + rest);
    }
  }

  lemma {:induction false} RowFolded(es: seq<Expr>)
    requires IsRow(es)
    ensures Shapes(Spread(es)) == RowThen(es, 0)
  {
    if es != [] {
      RowFolded(es[1..]);
      AtomsFolded(es[0], RowThen(es[1..], 0));
      ShapesJoin(AtomsOf(es[0]), Spread(es[1..]));
    }
  }

  lemma {:induction false} RowPrefixes(es: seq<Expr>)
    requires IsRow(es)
    ensures Prefixes(RowThen(es, 0)) == Some(RowThen(es, 1))
  {
    if es != [] {
      var e, rest := es[0], RowThen(es[1..], 0);
      RowPrefixes(es[1..]);
      if Stray(e) {
        StrayFolded(e, 0, rest);
        StrayFolded(e, 1, RowThen(es[1..], 1));
        assert ([Shape(e)] + rest)[1..] == rest;
      } else {
        PrefixesFold(e, rest);
      }
    }
  }

  lemma {:induction false} RowBinaries(p: int, done: seq<Tree>, es: seq<Expr>)
    requires IsRow(es) && 2 <= p <= 13
    ensures Binaries(p, done, RowThen(es, p - 1)) == Some(done + RowThen(es, p))
    decreases |es|
  {
    if es == [] {
      assert done + [] == done;
    } else {
      var e, rest := es[0], RowThen(es[1..], p - 1);
      if Stray(e) {
        StrayFolded(e, p - 1, rest);
        StrayFolded(e, p, RowThen(es[1..], p));
        assert ([Shape(e)] + rest)[1..] == rest;
        RowBinaries(p, done + [Shape(e)], es[1..]);
        ConcatAssoc(done, [Shape(e)], RowThen(es[1..], p));
      } else {
        BinariesFold(e, p, done, rest);
        RowBinaries(p, FoldedAfter(done, e, p), es[1..]);
        FoldedBothWays(done, e, p, RowThen(es[1..], p));
      }
    }
  }

  lemma {:induction false} RowLevels(p: int, es: seq<Expr>)
    requires IsRow(es) && 2 <= p <= 14
    ensures BinaryLevels(p, RowThen(es, p - 1)) == Some(RowThen(es, 13))
    decreases 14 - p
  {
    if p <= 13 {
      RowBinaries(p, [], es);
      assert [] + RowThen(es, p) == RowThen(es, p);
      RowLevels(p + 1, es);
    }
  }

  lemma {:induction false} RowTernaries(done: seq<Tree>, es: seq<Expr>)
    requires IsRow(es)
    ensures Ternaries(done, RowThen(es, 13)) == Some(done + RowThen(es, 14))
    decreases |es|
  {
    if es == [] {
      assert done + [] == done;
    } else {
      var e, rest := es[0], RowThen(es[1..], 13);
      if Stray(e) {
        StrayFolded(e, 13, rest);
        StrayFolded(e, 14, RowThen(es[1..], 14));
        assert ([Shape(e)] + rest)[1..] == rest;
        RowTernaries(done + [Shape(e)], es[1..]);
        ConcatAssoc(done, [Shape(e)], RowThen(es[1..], 14));
      } else {
        TernariesFold(e, done, rest);
        RowTernaries(FoldedAfter(done, e, 14), es[1..]);
        FoldedBothWays(done, e, 14, RowThen(es[1..], 14));
      }
    }
  }

  /** todo followed by a row with everything up to ternaries folded. */
  function RowAfter(todo: seq<Tree>, es: seq<Expr>): seq<Tree>
    decreases |es|
  {
    if es == [] then todo else RowAfter(FoldedAfter(todo, es[0], 14), es[1..])
  }

  lemma {:induction false} RowBothWays(todo: seq<Tree>, es: seq<Expr>)
    ensures todo + RowThen(es, 14) == RowAfter(todo, es)
    decreases |es|
  {
    if es == [] {
      assert todo + [] == todo;
    } else {
      FoldedBothWays(todo, es[0], 14, RowThen(es[1..], 14));
      RowBothWays(FoldedAfter(todo, es[0], 14), es[1..]);
    }
  }

  lemma {:induction false} RowAssigns(todo: seq<Tree>, es: seq<Expr>)
    requires IsRow(es)
    ensures Assigns(RowAfter(todo, es), []) == Assigns(todo, Shapes(es))
    decreases |es|
  {
    if es == [] {
      assert Shapes(es) == [];
    } else {
      var e := es[0];
      RowAssigns(FoldedAfter(todo, e, 14), es[1..]);
      assert es == [e] + es[1..];
      ShapesCons(e, es[1..]);
      if Stray(e) {
        StrayFolded(e, 14, []);
        assert (todo + [Shape(e)])[..|todo|] == todo;
      } else {
        AssignsFold(e, todo, Shapes(es[1..]));
      }
    }
  }

  lemma RowFolds(es: seq<Expr>)
    requires IsRow(es)
    ensures FoldOperators(Shapes(Spread(es))) == Some(Shapes(es))
  {
    RowFolded(es);
    RowPrefixes(es);
    RowLevels(2, es);
    RowTernaries([], es);
    RowBothWays([], es);
    RowAssigns([], es);
  }

  /** A row builds to the trees of its members. */
  lemma {:induction false} RowBuilds(ps: Pieces, row: seq<Expr>, depth: int)
    requires Reads(ps, row, depth)
    ensures Build(TextThen(ps, []), depth) == Some(Shapes(row))
    decreases ps, 1
  {
    RowBrackets(ps, [], depth);
    assert Shapes(Items(ps)) + [] == Shapes(Items(ps));
    RowFolds(row);
  }

  // ----- The other direction: what builds is a row

  lemma {:induction false} ClosedText(ps: Pieces, depth: int)
    requires Groups(ps, depth) && CloseIndex(TextThen(ps, []), 1) == |TextThen(ps, [])|
    ensures Closed(ps)
  {
    if ps.Token? {
      var rest := TextThen(ps.rest, []);
      assert ([Leaf(ps.node)] + rest)[1..] == rest;
      ClosedText(ps.rest, depth);
    } else if ps.Group? {
      var rest := TextThen(ps.rest, []);
      RowBalance(ps.body, depth + 1, [Leaf(ps.close)] + rest, 2);
      GroupBalance(ps, rest, 1);
      TextJoin(ps.body, [Leaf(ps.close)] + rest);
      ClosedText(ps.rest, depth);
    }
  }

  /** Items bind tightest, so each is its own atom. */
  lemma {:induction false} ItemsApart(es: seq<Expr>)
    requires Fine(es, 0)
    ensures Spread(es) == es
  {
    if es != [] {
      ItemsApart(es[1..]);
      assert Waiting(es[0], 0) || Operand(es[0], 0);
      assert AtomsOf(es[0]) == [es[0]];
    }
  }

  lemma EnclosedFine(open: ExprNode, close: ExprNode, es: seq<Expr>)
    requires IsRow(es) && open.op == Some(OpenBracket) && close.op == Some(CloseBracket)
    ensures Fine(AllEnclosed(open, close, es), 0)
  {
  }

  lemma FineJoin(a: seq<Expr>, b: seq<Expr>, p: int)
    requires Fine(a, p) && Fine(b, p)
    ensures Fine(a + b, p)
  {
  }

  lemma FineIsRow(es: seq<Expr>)
    requires Fine(es, 15)
    ensures IsRow(es)
  {
    forall i | 0 <= i < |es| && !Expression(es[i])
      ensures Stray(es[i])
    {
      assert Waiting(es[i], 15);
      BracketLevels(es[i].tok.op.value);
    }
  }

  /** Only the brackets have a level below 1, and no level is above 15. */
  lemma BracketLevels(op: Operator)
    ensures Precedence(op) < 1 <==> op == OpenBracket || op == CloseBracket
    ensures Precedence(op) <= 15
  {
  }

  /** A group in front of pieces. */
  lemma GroupOnto(open: Tree, close: Tree, body: Pieces, row: seq<Expr>, rest: Pieces, depth: int)
    requires IsToken(open) && IsOp(open, OpenBracket) && IsToken(close) && IsOp(close, CloseBracket)
    requires Reads(body, row, depth + 1) && Closed(body) && Groups(rest, depth) && Fine(Items(rest), 0)
    ensures var ps := Group(open.node, close.node, body, row, rest);
            && Groups(ps, depth) && Fine(Items(ps), 0)
            && TextThen(ps, []) == [open] + (TextThen(body, []) + ([close] + TextThen(rest, [])))
            && Shapes(Items(ps)) == Shapes(row) + Shapes(Items(rest))
  {
    var ds := AllEnclosed(open.node, close.node, row);
    assert open == Leaf(open.node) && close == Leaf(close.node);
    TextJoin(body, [close] + TextThen(rest, []));
    EnclosedFine(open.node, close.node, row);
    FineJoin(ds, Items(rest), 0);
    EnclosedShapes(open.node, close.node, row);
    ShapesJoin(ds, Items(rest));
  }

  lemma {:induction false} LiftPieces(ts: seq<Tree>, depth: int) returns (ps: Pieces)
    requires AllTokens(ts) && Brackets(ts, depth).Some?
    ensures Groups(ps, depth) && TextThen(ps, []) == ts
    ensures Fine(Items(ps), 0) && Shapes(Items(ps)) == Brackets(ts, depth).value
    decreases |ts|, 0
  {
    if ts == [] {
      return End;
    }
    if IsOp(ts[0], OpenBracket) {
      var m := CloseIndex(ts[1..], 1);
      GroupAhead(ts, depth);
      assert IsToken(ts[0]) && IsToken(ts[m+1]);
      assert AllTokens(ts[1..m+1]) && AllTokens(ts[m+2..]);
      var body, row := LiftReading(ts[1..m+1], depth + 1);
      var rest := LiftPieces(ts[m+2..], depth);
      ClosedText(body, depth + 1);
      GroupOnto(ts[0], ts[m+1], body, row, rest, depth);
      ps := Group(ts[0].node, ts[m+1].node, body, row, rest);
    } else {
      assert IsToken(ts[0]) && AllTokens(ts[1..]);
      var rest := LiftPieces(ts[1..], depth);
      ps := Token(ts[0].node, rest);
      ConsFine(Literal(ts[0].node), Items(rest), 0);
    }
  }

  lemma {:induction false} LiftReading(ts: seq<Tree>, depth: int) returns (ps: Pieces, row: seq<Expr>)
    requires AllTokens(ts) && Build(ts, depth).Some?
    ensures Reads(ps, row, depth) && TextThen(ps, []) == ts && Some(Shapes(row)) == Build(ts, depth)
    decreases |ts|, 1
  {
    ps := LiftPieces(ts, depth);
    ItemsApart(Items(ps));
    row := LiftOperators(Items(ps));
    FineIsRow(row);
  }

  // ----- Main result

  /** The builder accepts a token list exactly when it reads as a row, and leaves
      exactly the trees of the row's members. */
  lemma ReadsExactly(ts: seq<Tree>, depth: int, us: seq<Tree>)
    requires AllTokens(ts)
    ensures Build(ts, depth) == Some(us)
       <==> exists ps, row :: Reads(ps, row, depth) && TextThen(ps, []) == ts && Shapes(row) == us
  {
    if Build(ts, depth) == Some(us) {
      var ps, row := LiftReading(ts, depth);
      assert Reads(ps, row, depth) && TextThen(ps, []) == ts && Shapes(row) == us;
    }
    forall ps, row | Reads(ps, row, depth) && TextThen(ps, []) == ts && Shapes(row) == us
      ensures Build(ts, depth) == Some(us)
    {
      RowBuilds(ps, row, depth);
    }
  }
}
