/** One expression from its tokens to its value and back to nothing: build,
    evaluate, release. */
module ExprEngine {
  import opened Operators
  import opened ExprTree
  import opened ExprGrammar
  import opened ExprShape
  import opened ExprHeap
  import opened ExprSlots
  import opened ExprForest
  import opened ExprSteps
  import opened ExprBuilder
  import opened ExprEval
  import opened ExprInterp

  /** Fresh tokens: pairwise distinct and not yet linked. */
  ghost predicate Tokenized(nodes: seq<ExprNode>)
    reads nodes
  {
    && Distinct(nodes)
    && (forall i | 0 <= i < |nodes| :: nodes[i].left == null && nodes[i].right == null)
  }

  /** Building and releasing, without evaluating: whether the tokens are well
      formed or not, every node is released exactly once and none is left. */
  method BuildAndRelease(nodes: seq<ExprNode>) returns (ok: bool, heap: NodeHeap)
    requires Tokenized(nodes)
    modifies nodes
    ensures ok == Build(Leaves(nodes).trees, 0).Some?
    ensures heap.live == {} && multiset(heap.freed) == multiset(nodes)
  {
    var tokens := Hold(nodes);
    heap := tokens.heap;
    ghost var ts := tokens.forest.trees;
    assert ts[0..|nodes|] == ts;
    ok := tokens.MakeTree(0, |nodes|, 0);
    tokens.ReleaseAll();
  }

  lemma AllTokens(tokens: TokenArray, nodes: seq<ExprNode>)
    requires tokens.Valid() && tokens.forest == Leaves(nodes) && tokens.heap.freed == []
    requires Distinct(nodes)
    ensures tokens.heap.Accounted() == multiset(nodes)
    ensures tokens.heap.live == set n | n in nodes
  {
    DistinctOnce(nodes);
    TallyMeans(tokens.heap.live, tokens.heap.freed);
    assert tokens.heap.live == set n | n in nodes;
  }

  // ----- Well-formed integer expressions

  /** Only operators the integer evaluator handles. */
  predicate OverIntegers(e: Expr) {
    match e
    case Literal(_) => true
    case Prefix(op, arg) => OverIntegers(arg)
    case Infix(op, lhs, rhs) =>
      && op.op.Some?
      && (IsStrict(op.op.value) || IsLogical(op.op.value) || op.op.value in {TernaryQ, TernaryC})
      && OverIntegers(lhs) && OverIntegers(rhs)
    case Paren(_, _, body) => OverIntegers(body)
  }

  /** The tree of an integer expression is one the evaluator handles. */
  lemma {:induction false} IntegerShape(e: Expr)
    requires Grammatical(e) && OverIntegers(e)
    ensures IsArms(e) ==>
      IsOp(Shape(e), TernaryC) && IntegerTree(Shape(e).left) && IntegerTree(Shape(e).right)
    ensures !IsArms(e) ==> IntegerTree(Shape(e))
  {
    if e.Prefix? {
      IntegerShape(e.arg);
    } else if e.Infix? {
      IntegerShape(e.lhs);
      IntegerShape(e.rhs);
    } else if e.Paren? {
      IntegerShape(e.body);
    }
  }

  datatype Answer = Rejected | Evaluated(result: Result)

  /** The tree in the first slot after a successful build. */
  function FirstTree(ts: seq<Tree>): (t: Tree)
    requires Build(ts, 0).Some?
  {
    BuildNonEmpty(ts, 0);
    Build(ts, 0).value[0]
  }

  /** The tokens build to a tree the integer evaluator handles, if they build. */
  ghost predicate IntegerTokens(ts: seq<Tree>) {
    Build(ts, 0).Some? ==> IntegerTree(FirstTree(ts))
  }

  /** The literals substituted when the first tree of ts is evaluated. */
  function Needed(ts: seq<Tree>, depth: nat, leaf: Valuation): seq<ExprNode>
    requires Build(ts, 0).Some? && IntegerTree(FirstTree(ts))
  {
    Tried(Trace(FirstTree(ts), depth, leaf))
  }

  /** Builds, evaluates and releases any tokens over the integer operators.  The
      answer is the meaning of the first tree the builder leaves, whether or not
      tokens are left over; the counter of the interpreter is unchanged, and every
      node is released exactly once on every outcome. */
  method EvalOne(interp: Interp, nodes: seq<ExprNode>) returns (a: Answer, heap: NodeHeap)
    requires Tokenized(nodes) && IntegerTokens(Leaves(nodes).trees)
    modifies interp, nodes
    ensures Answers(a, Leaves(nodes).trees, old(interp.exprDepth), Widened(interp.leaf))
    ensures a.Evaluated? ==>
      && interp.substituted
        == old(interp.substituted) + Needed(Leaves(nodes).trees, old(interp.exprDepth), Widened(interp.leaf))
      && Distinct(Needed(Leaves(nodes).trees, old(interp.exprDepth), Widened(interp.leaf)))
    ensures interp.exprDepth == old(interp.exprDepth)
    ensures heap.live == {} && multiset(heap.freed) == multiset(nodes)
  {
    var tokens := Hold(nodes);
    heap := tokens.heap;
    a := EvalAndRelease(interp, tokens);
  }

  /** a is the answer the tokens ts call for. */
  ghost predicate Answers(a: Answer, ts: seq<Tree>, depth: nat, leaf: Valuation)
    requires IntegerTokens(ts)
  {
    if Build(ts, 0).None? then a.Rejected?
    else a.Evaluated? && Reported(a.result) == Meaning(FirstTree(ts), depth, leaf)
  }

  /** The answer for a well-formed expression: the meaning of the one tree its
      grammar gives it, unless its parentheses nest too deeply. */
  lemma ExpressionAnswers(a: Answer, e: Expr, depth: nat, leaf: Valuation)
    requires Expression(e) && OverIntegers(e)
    ensures IntegerTokens(Tokens(e)) && IntegerTree(Shape(e))
    ensures Answers(a, Tokens(e), depth, leaf) <==>
      if Nesting(e) > MAX_EXPR_DEPTH then a.Rejected?
      else a.Evaluated? && Reported(a.result) == Meaning(Shape(e), depth, leaf)
  {
    IntegerShape(e);
    BuildExactly(e, 0);
  }

  /** The token array over freshly tokenized nodes. */
  method Hold(nodes: seq<ExprNode>) returns (tokens: TokenArray)
    requires Tokenized(nodes)
    ensures fresh(tokens) && fresh(tokens.slots) && fresh(tokens.heap)
    ensures tokens.Valid() && tokens.forest.trees == Leaves(nodes).trees
    ensures forall k | 0 <= k < tokens.slots.Length :: IsLeaf(tokens.forest.trees[k])
    ensures tokens.heap.live <= set n | n in nodes
    ensures tokens.heap.Accounted() == multiset(nodes)
  {
    tokens := new TokenArray(nodes);
    AllTokens(tokens, nodes);
  }

  method EvalAndRelease(interp: Interp, tokens: TokenArray) returns (a: Answer)
    requires tokens.Valid() && IntegerTokens(tokens.forest.trees)
    requires forall k | 0 <= k < tokens.slots.Length :: IsLeaf(tokens.forest.trees[k])
    modifies interp, tokens, tokens.slots, tokens.heap, tokens.heap.live
    ensures tokens.heap.live == {} && multiset(tokens.heap.freed) == old(tokens.heap.Accounted())
    ensures Answers(a, old(tokens.forest.trees), old(interp.exprDepth), Widened(interp.leaf))
    ensures a.Evaluated? ==>
      && interp.substituted
        == old(interp.substituted) + Needed(old(tokens.forest.trees), old(interp.exprDepth), Widened(interp.leaf))
      && Distinct(Needed(old(tokens.forest.trees), old(interp.exprDepth), Widened(interp.leaf)))
    ensures interp.exprDepth == old(interp.exprDepth)
  {
    a := EvalTokens(interp, tokens);
    tokens.ReleaseAll();
  }

  method EvalTokens(interp: Interp, tokens: TokenArray) returns (a: Answer)
    requires tokens.Valid() && IntegerTokens(tokens.forest.trees)
    requires forall k | 0 <= k < tokens.slots.Length :: IsLeaf(tokens.forest.trees[k])
    modifies interp, tokens, tokens.slots, tokens.heap, tokens.heap.live
    ensures tokens.Valid()
    ensures tokens.heap.live <= old(tokens.heap.live)
    ensures tokens.heap.Accounted() == old(tokens.heap.Accounted())
    ensures Answers(a, old(tokens.forest.trees), old(interp.exprDepth), Widened(interp.leaf))
    ensures a.Evaluated? ==>
      && interp.substituted
        == old(interp.substituted) + Needed(old(tokens.forest.trees), old(interp.exprDepth), Widened(interp.leaf))
      && Distinct(Needed(old(tokens.forest.trees), old(interp.exprDepth), Widened(interp.leaf)))
    ensures interp.exprDepth == old(interp.exprDepth)
  {
    ghost var ts := tokens.forest.trees;
    var ok := BuildTokens(tokens);
    if !ok {
      return Rejected;
    }
    var r := EvalRoot(interp, tokens, FirstTree(ts));
    return Evaluated(r);
  }

  /** Evaluates the tree in the first slot; the tokens are only read. */
  method EvalRoot(interp: Interp, tokens: TokenArray, ghost t: Tree) returns (r: Result)
    requires tokens.Valid() && tokens.slots.Length > 0 && tokens.forest.trees[0] == t && IntegerTree(t)
    modifies interp
    ensures tokens.Valid()
    ensures Reported(r) == Meaning(t, old(interp.exprDepth), Widened(interp.leaf))
    ensures interp.substituted == old(interp.substituted) + Tried(Trace(t, old(interp.exprDepth), Widened(interp.leaf)))
    ensures Distinct(Tried(Trace(t, old(interp.exprDepth), Widened(interp.leaf))))
    ensures interp.exprDepth == old(interp.exprDepth)
  {
    tokens.forest.AtSlot(0);
    SoundRepresents(t, tokens.forest.left, tokens.forest.right);
    SubstitutedOnce(t, interp.exprDepth, Widened(interp.leaf));
    r := interp.Eval(tokens.slots[0], t, Links(tokens.forest.left, tokens.forest.right));
  }

  method BuildTokens(tokens: TokenArray) returns (ok: bool)
    requires tokens.Valid()
    requires forall k | 0 <= k < tokens.slots.Length :: IsLeaf(tokens.forest.trees[k])
    modifies tokens, tokens.slots, tokens.heap, tokens.heap.live
    ensures tokens.Valid()
    ensures ok <==> Build(old(tokens.forest.trees), 0).Some?
    ensures ok ==> tokens.slots.Length > 0 && tokens.forest.trees[0] == FirstTree(old(tokens.forest.trees))
    ensures tokens.heap.live <= old(tokens.heap.live)
    ensures tokens.heap.Accounted() == old(tokens.heap.Accounted())
  {
    ghost var ts := tokens.forest.trees;
    assert ts[0..|ts|] == ts;
    ok := tokens.MakeTree(0, tokens.slots.Length, 0);
    if ok {
      FirstOf(tokens.forest.trees);
    }
  }

  lemma FirstOf(ts: seq<Tree>)
    requires ts != [] && ts[0].Node?
    ensures Compact(ts, 0, |ts|) != [] && Compact(ts, 0, |ts|)[0] == ts[0]
  {
  }
}
