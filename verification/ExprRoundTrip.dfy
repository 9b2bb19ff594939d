/** Printing and building on token arrays: a tree can be written with tokens that
    are all different, as the engine wants them, and building them restores it. */
module ExprRoundTrip {
  import opened Operators
  import opened ExprTree
  import opened ExprGrammar
  import opened ExprPrint
  import opened ExprHeap
  import opened ExprSlots
  import opened ExprForest
  import opened ExprBuilder
  import opened ExprEngine

  /** The token nodes of e from left to right. */
  function TokenNodes(e: Expr): (ns: seq<ExprNode>)
    ensures ns != []
  {
    match e
    case Literal(tok) => [tok]
    case Prefix(op, arg) => [op] + TokenNodes(arg)
    case Infix(op, lhs, rhs) => TokenNodes(lhs) + [op] + TokenNodes(rhs)
    case Paren(open, close, body) => [open] + TokenNodes(body) + [close]
  }

  lemma LeavesJoin(a: seq<ExprNode>, b: seq<ExprNode>)
    ensures Leaves(a + b).trees == Leaves(a).trees + Leaves(b).trees
  {
  }

  /** The token array of e starts out as its tokens. */
  lemma {:induction false} LeavesTokens(e: Expr)
    ensures Leaves(TokenNodes(e)).trees == Tokens(e)
  {
    if e.Prefix? {
      LeavesTokens(e.arg);
      LeavesJoin([e.op], TokenNodes(e.arg));
    } else if e.Infix? {
      LeavesTokens(e.lhs);
      LeavesTokens(e.rhs);
      LeavesJoin(TokenNodes(e.lhs), [e.op]);
      LeavesJoin(TokenNodes(e.lhs) + [e.op], TokenNodes(e.rhs));
    } else if e.Paren? {
      LeavesTokens(e.body);
      LeavesJoin([e.open], TokenNodes(e.body));
      LeavesJoin([e.open] + TokenNodes(e.body), [e.close]);
    }
  }

  // ----- The tokens of a written tree are all different

  lemma DistinctAround(open: ExprNode, ns: seq<ExprNode>, close: ExprNode)
    requires Distinct(ns) && open !in ns && close !in ns && open != close
    ensures Distinct([open] + ns + [close])
  {
    DistinctOne(open);
    DistinctOne(close);
    DistinctJoin([open], ns);
    DistinctJoin([open] + ns, [close]);
  }

  lemma DistinctMiddle(a: seq<ExprNode>, n: ExprNode, b: seq<ExprNode>)
    requires Distinct(a) && Distinct(b) && n !in a && n !in b && forall m | m in a :: m !in b
    ensures Distinct(a + [n] + b)
  {
    DistinctOne(n);
    DistinctJoin(a, [n]);
    DistinctJoin(a + [n], b);
  }

  /** n is a node of the trees or a bracket of the pairs a..b. */
  ghost predicate From(n: ExprNode, nodes: set<ExprNode>, pairs: seq<Pair>, a: nat, b: nat)
    requires a <= b <= |pairs|
  {
    if IsBracket(n) then exists i :: a <= i < b && (n == pairs[i].open || n == pairs[i].close) else n in nodes
  }

  ghost predicate AllFrom(ns: seq<ExprNode>, nodes: set<ExprNode>, pairs: seq<Pair>, a: nat, b: nat)
    requires a <= b <= |pairs|
  {
    forall n | n in ns :: From(n, nodes, pairs, a, b)
  }

  lemma Elsewhere(n: ExprNode, x: set<ExprNode>, y: set<ExprNode>, pairs: seq<Pair>, a: nat, b: nat, c: nat)
    requires Supply(pairs) && a <= b <= c <= |pairs| && x !! y && From(n, x, pairs, a, b)
    ensures !From(n, y, pairs, b, c)
  {
    if IsBracket(n) {
      var i :| a <= i < b && (n == pairs[i].open || n == pairs[i].close);
      assert IsPair(pairs[i].open, pairs[i].close);
      forall j | b <= j < c
        ensures n != pairs[j].open && n != pairs[j].close
      {
        assert IsPair(pairs[j].open, pairs[j].close);
      }
    }
  }

  /** Two stretches of text around an operator. */
  lemma AroundOperator(l: seq<ExprNode>, op: ExprNode, r: seq<ExprNode>, x: set<ExprNode>, y: set<ExprNode>,
                       pairs: seq<Pair>, a: nat, b: nat, c: nat)
    requires Supply(pairs) && x !! y && op !in x && op !in y && !IsBracket(op) && a <= b <= c <= |pairs|
    requires Distinct(l) && AllFrom(l, x, pairs, a, b)
    requires Distinct(r) && AllFrom(r, y, pairs, b, c)
    ensures Distinct(l + [op] + r) && AllFrom(l + [op] + r, {op} + x + y, pairs, a, c)
  {
    forall n | n in l
      ensures n !in r
    {
      Elsewhere(n, x, y, pairs, a, b, c);
    }
    DistinctMiddle(l, op, r);
  }

  /** A stretch of text between the brackets of pair k. */
  lemma BetweenBrackets(ns: seq<ExprNode>, x: set<ExprNode>, pairs: seq<Pair>, k: nat, c: nat)
    requires Supply(pairs) && k < c <= |pairs| && Distinct(ns) && AllFrom(ns, x, pairs, k + 1, c)
    ensures Distinct([pairs[k].open] + ns + [pairs[k].close])
    ensures AllFrom([pairs[k].open] + ns + [pairs[k].close], x, pairs, k, c)
  {
    assert IsPair(pairs[k].open, pairs[k].close);
    assert From(pairs[k].open, {}, pairs, k, k + 1) && From(pairs[k].close, {}, pairs, k, k + 1);
    Elsewhere(pairs[k].open, {}, x, pairs, k, k + 1, c);
    Elsewhere(pairs[k].close, {}, x, pairs, k, k + 1, c);
    DistinctAround(pairs[k].open, ns, pairs[k].close);
  }

  /** ns has no node twice and takes its nodes from the set and the pairs a..b. */
  ghost predicate Fresh(ns: seq<ExprNode>, nodes: set<ExprNode>, pairs: seq<Pair>, a: nat, b: nat)
    requires a <= b <= |pairs|
  {
    Distinct(ns) && AllFrom(ns, nodes, pairs, a, b)
  }

  lemma PrefixFresh(op: ExprNode, arg: seq<ExprNode>, x: set<ExprNode>, pairs: seq<Pair>, k: nat, c: nat)
    requires Supply(pairs) && op !in x && !IsBracket(op) && k < c <= |pairs| && Fresh(arg, x, pairs, k + 1, c)
    ensures Fresh([pairs[k].open] + ([op] + arg) + [pairs[k].close], {op} + x, pairs, k, c)
  {
    AroundOperator([], op, arg, {}, x, pairs, k + 1, k + 1, c);
    assert [] + [op] + arg == [op] + arg;
    BetweenBrackets([op] + arg, {op} + x, pairs, k, c);
  }

  lemma InfixFresh(l: seq<ExprNode>, op: ExprNode, r: seq<ExprNode>, x: set<ExprNode>, y: set<ExprNode>,
                   pairs: seq<Pair>, k: nat, b: nat, c: nat)
    requires Supply(pairs) && x !! y && op !in x && op !in y && !IsBracket(op) && k < b <= c <= |pairs|
    requires Fresh(l, x, pairs, k + 1, b) && Fresh(r, y, pairs, b, c)
    ensures Fresh([pairs[k].open] + (l + [op] + r) + [pairs[k].close], {op} + x + y, pairs, k, c)
  {
    AroundOperator(l, op, r, x, y, pairs, k + 1, b, c);
    BetweenBrackets(l + [op] + r, {op} + x + y, pairs, k, c);
  }

  lemma ArmsFresh(y: seq<ExprNode>, colon: Tree, n: seq<ExprNode>, pairs: seq<Pair>, a: nat, b: nat, c: nat)
    requires Supply(pairs) && IsOp(colon, TernaryC) && Unshared(colon) && a <= b <= c <= |pairs|
    requires Fresh(y, NodesOf(colon.left), pairs, a, b) && Fresh(n, NodesOf(colon.right), pairs, b, c)
    ensures Fresh(y + [colon.node] + n, NodesOf(colon), pairs, a, c)
  {
    AroundOperator(y, colon.node, n, NodesOf(colon.left), NodesOf(colon.right), pairs, a, b, c);
  }

  lemma TernaryFresh(l: seq<ExprNode>, op: ExprNode, x: set<ExprNode>, y: seq<ExprNode>, colon: Tree,
                     n: seq<ExprNode>, pairs: seq<Pair>, k: nat, m: nat, b: nat, c: nat)
    requires Supply(pairs) && IsOp(colon, TernaryC) && Unshared(colon) && k < m <= b <= c <= |pairs|
    requires x !! NodesOf(colon) && op !in x && op !in NodesOf(colon) && !IsBracket(op)
    requires Fresh(l, x, pairs, k + 1, m)
    requires Fresh(y, NodesOf(colon.left), pairs, m, b) && Fresh(n, NodesOf(colon.right), pairs, b, c)
    ensures Fresh([pairs[k].open] + (l + [op] + (y + [colon.node] + n)) + [pairs[k].close],
                  {op} + x + NodesOf(colon), pairs, k, c)
  {
    ArmsFresh(y, colon, n, pairs, m, b, c);
    InfixFresh(l, op, y + [colon.node] + n, x, NodesOf(colon), pairs, k, m, c);
  }

  lemma PrefixTokens(t: Tree, pairs: seq<Pair>, k: nat)
    requires OperatorTree(t) && k + Pairs(t) <= |pairs| && NodePrecedence(t.node) == 1
    ensures TokenNodes(Written(t, pairs, k))
         == [pairs[k].open] + ([t.node] + TokenNodes(Written(t.left, pairs, k + 1))) + [pairs[k].close]
  {
  }

  lemma InfixTokens(t: Tree, pairs: seq<Pair>, k: nat, m: nat)
    requires OperatorTree(t) && k + Pairs(t) <= |pairs|
    requires t.node.op.Some? && NodePrecedence(t.node) != 1 && !IsOp(t, TernaryQ)
    requires m == k + 1 + Pairs(t.left)
    ensures TokenNodes(Written(t, pairs, k))
         == [pairs[k].open] + (TokenNodes(Written(t.left, pairs, k + 1)) + [t.node]
                         + TokenNodes(Written(t.right, pairs, m))) + [pairs[k].close]
  {
  }

  lemma TernaryTokens(t: Tree, pairs: seq<Pair>, k: nat, m: nat, b: nat)
    requires OperatorTree(t) && k + Pairs(t) <= |pairs| && IsOp(t, TernaryQ)
    requires m == k + 1 + Pairs(t.left) && b == m + Pairs(t.right.left)
    ensures TokenNodes(Written(t, pairs, k))
         == [pairs[k].open] + (TokenNodes(Written(t.left, pairs, k + 1)) + [t.node]
                         + (TokenNodes(Written(t.right.left, pairs, m)) + [t.right.node]
                            + TokenNodes(Written(t.right.right, pairs, b)))) + [pairs[k].close]
  {
    var l := Written(t.left, pairs, k + 1);
    var y, n := Written(t.right.left, pairs, m), Written(t.right.right, pairs, b);
    assert Written(t, pairs, k) == Paren(pairs[k].open, pairs[k].close, Infix(t.node, l, Infix(t.right.node, y, n)));
    assert TokenNodes(Infix(t.right.node, y, n)) == TokenNodes(y) + [t.right.node] + TokenNodes(n);
  }

  lemma NotBracket(t: Tree)
    requires OperatorTree(t)
    ensures !IsBracket(t.node) && (IsOp(t, TernaryQ) ==> !IsBracket(t.right.node))
  {
  }

  /** The text of t takes its tokens from t and the pairs from k on. */
  ghost predicate FreshText(t: Tree, pairs: seq<Pair>, k: nat)
    requires OperatorTree(t) && k + Pairs(t) <= |pairs|
  {
    Fresh(TokenNodes(Written(t, pairs, k)), NodesOf(t), pairs, k, k + Pairs(t))
  }

  lemma PrefixText(t: Tree, pairs: seq<Pair>, k: nat)
    requires OperatorTree(t) && k + Pairs(t) <= |pairs| && Unshared(t) && NodePrecedence(t.node) == 1 && Supply(pairs)
    requires FreshText(t.left, pairs, k + 1)
    ensures FreshText(t, pairs, k)
  {
    NotBracket(t);
    PrefixTokens(t, pairs, k);
    PrefixFresh(t.node, TokenNodes(Written(t.left, pairs, k + 1)), NodesOf(t.left), pairs, k, k + Pairs(t));
    assert NodesOf(t) == {t.node} + NodesOf(t.left);
  }

  lemma InfixText(t: Tree, pairs: seq<Pair>, k: nat, m: nat)
    requires OperatorTree(t) && k + Pairs(t) <= |pairs| && Unshared(t) && Supply(pairs)
    requires t.node.op.Some? && NodePrecedence(t.node) != 1 && !IsOp(t, TernaryQ)
    requires m == k + 1 + Pairs(t.left)
    requires FreshText(t.left, pairs, k + 1) && FreshText(t.right, pairs, m)
    ensures FreshText(t, pairs, k)
  {
    NotBracket(t);
    InfixTokens(t, pairs, k, m);
    InfixFresh(TokenNodes(Written(t.left, pairs, k + 1)), t.node, TokenNodes(Written(t.right, pairs, m)),
               NodesOf(t.left), NodesOf(t.right), pairs, k, m, k + Pairs(t));
  }

  lemma TernaryText(t: Tree, pairs: seq<Pair>, k: nat, m: nat, b: nat)
    requires OperatorTree(t) && k + Pairs(t) <= |pairs| && Unshared(t) && IsOp(t, TernaryQ) && Supply(pairs)
    requires m == k + 1 + Pairs(t.left) && b == m + Pairs(t.right.left)
    requires FreshText(t.left, pairs, k + 1)
    requires FreshText(t.right.left, pairs, m) && FreshText(t.right.right, pairs, b)
    ensures FreshText(t, pairs, k)
  {
    NotBracket(t);
    TernaryTokens(t, pairs, k, m, b);
    TernaryFresh(TokenNodes(Written(t.left, pairs, k + 1)), t.node, NodesOf(t.left),
                 TokenNodes(Written(t.right.left, pairs, m)), t.right,
                 TokenNodes(Written(t.right.right, pairs, b)), pairs, k, m, b, k + Pairs(t));
  }

  /** The tokens of a written tree are its nodes and the brackets drawn for it, and
      none occurs twice. */
  lemma {:induction false} WrittenDistinct(t: Tree, pairs: seq<Pair>, k: nat)
    requires OperatorTree(t) && k + Pairs(t) <= |pairs| && Unshared(t) && Supply(pairs)
    ensures FreshText(t, pairs, k)
  {
    if t.node.op.None? {
      NotBracket(t);
      DistinctOne(t.node);
    } else {
      var m := k + 1 + Pairs(t.left);
      WrittenDistinct(t.left, pairs, k + 1);
      if NodePrecedence(t.node) == 1 {
        PrefixText(t, pairs, k);
      } else if IsOp(t, TernaryQ) {
        var b := m + Pairs(t.right.left);
        WrittenDistinct(t.right.left, pairs, m);
        WrittenDistinct(t.right.right, pairs, b);
        TernaryText(t, pairs, k, m, b);
      } else {
        WrittenDistinct(t.right, pairs, m);
        InfixText(t, pairs, k, m);
      }
    }
  }

  // ----- Building what was written

  lemma AloneInFront(ts: seq<Tree>, t: Tree)
    requires Compact(ts, 0, |ts|) == [t] && ts != [] && ts[0].Node?
    ensures ts[0] == t
  {
  }

  /** Building the tokens of a fully parenthesised tree puts the tree into the first
      slot and links its nodes accordingly, and leaves nothing else, exactly when the
      operators do not nest too deeply. */
  method BuildWritten(nodes: seq<ExprNode>, ghost e: Expr, ghost t: Tree) returns (ok: bool, tokens: TokenArray)
    requires Tokenized(nodes) && nodes == TokenNodes(e) && Writes(e, t)
    modifies nodes
    ensures tokens.Valid() && OperatorTree(t)
    ensures ok <==> OperatorDepth(t) <= MAX_EXPR_DEPTH
    ensures ok ==> tokens.slots.Length > 0 && tokens.slots[0] == t.node && Represents(t)
    ensures ok ==> Compact(tokens.forest.trees, 0, tokens.slots.Length) == [t]
  {
    LeavesTokens(e);
    PrintRoundTrip(e, t, 0);
    tokens := Hold(nodes);
    ghost var ts := tokens.forest.trees;
    assert ts[0..|ts|] == ts == Tokens(e);
    ok := tokens.MakeTree(0, tokens.slots.Length, 0);
    if ok {
      AloneInFront(tokens.forest.trees, t);
      tokens.forest.AtSlot(0);
      SoundRepresents(t, tokens.forest.left, tokens.forest.right);
    }
  }

  // ----- From a tree to its text and back

  method MakePairs(count: nat) returns (pairs: seq<Pair>)
    ensures |pairs| == count && Supply(pairs)
    ensures forall i | 0 <= i < count :: fresh(pairs[i].open) && fresh(pairs[i].close)
  {
    pairs := [];
    while |pairs| < count
      invariant |pairs| <= count && Supply(pairs)
      invariant forall i | 0 <= i < |pairs| :: fresh(pairs[i].open) && fresh(pairs[i].close)
    {
      var open := new ExprNode(Some(OpenBracket), "(");
      var close := new ExprNode(Some(CloseBracket), ")");
      pairs := pairs + [Pair(open, close)];
    }
  }

  method Unlink(nodes: seq<ExprNode>)
    modifies nodes
    ensures forall i | 0 <= i < |nodes| :: nodes[i].left == null && nodes[i].right == null
  {
    for k := 0 to |nodes|
      invariant forall i | 0 <= i < k :: nodes[i].left == null && nodes[i].right == null
    {
      nodes[k].left, nodes[k].right := null, null;
    }
  }

  /** Writes a tree down as fresh tokens, with new brackets, and builds them: the tree
      is back, exactly when its operators do not nest too deeply. */
  method Reprint(t: Tree) returns (ok: bool, tokens: TokenArray)
    requires OperatorTree(t) && Unshared(t)
    modifies NodesOf(t)
    ensures tokens.Valid()
    ensures ok <==> OperatorDepth(t) <= MAX_EXPR_DEPTH
    ensures ok ==> tokens.slots.Length > 0 && tokens.slots[0] == t.node && Represents(t)
    ensures ok ==> Compact(tokens.forest.trees, 0, tokens.slots.Length) == [t]
  {
    var pairs := MakePairs(Pairs(t));
    var e := Written(t, pairs, 0);
    var nodes := TokenNodes(e);
    WrittenWrites(t, pairs, 0);
    WrittenDistinct(t, pairs, 0);
    assert forall n | n in nodes :: n in NodesOf(t) || fresh(n);
    Unlink(nodes);
    ok, tokens := BuildWritten(nodes, e, t);
  }
}
