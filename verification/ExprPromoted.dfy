/** The recursive evaluator with promotion: node pointers, a counter that bounds the
    depth of the recursion, and integers of any size. */
module ExprPromoted {
  import opened Operators
  import opened ExprTree
  import opened ExprHeap
  import opened ExprForest
  import opened Sequences
  import opened WideInt
  import opened ExprEval
  import opened ExprInterp
  import opened Promotion

  /** The literals substituted for t after those of its first operand. */
  function PromotedRestTried(lib: Library, t: Tree, v: int, depth: nat, leaf: Valuation): seq<ExprNode>
    requires IntegerTree(t) && t.node.op.Some?
  {
    var s := Next(t, v);
    if s.None? then [] else PromotedTried(lib, s.value, depth + 1, leaf)
  }

  lemma TernaryRest(lib: Library, t: Tree, v: int, depth: nat, leaf: Valuation)
    requires IntegerTree(t) && IsOp(t, TernaryQ)
    ensures !InRange(v) ==>
      && PromotedRest(lib, t, v, depth, leaf) == Refused
      && PromotedRestTried(lib, t, v, depth, leaf) == []
    ensures InRange(v) ==>
      var s := if v != 0 then t.right.left else t.right.right;
      && PromotedRest(lib, t, v, depth, leaf) == PromotedValue(lib, s, depth + 1, leaf)
      && PromotedRestTried(lib, t, v, depth, leaf) == PromotedTried(lib, s, depth + 1, leaf)
  {
  }

  lemma LogicalRest(lib: Library, t: Tree, v: int, depth: nat, leaf: Valuation)
    requires IntegerTree(t) && t.node.op.Some? && IsLogical(t.node.op.value)
    ensures var r := PromotedValue(lib, t.right, depth + 1, leaf);
            var or := t.node.op.value == LogicalOr;
            if (v != 0) == or then
              && PromotedRest(lib, t, v, depth, leaf) == Exact(Truth(or))
              && PromotedRestTried(lib, t, v, depth, leaf) == []
            else
              && PromotedRest(lib, t, v, depth, leaf) == (if r.Exact? then Exact(Truth(r.v != 0)) else r)
              && PromotedRestTried(lib, t, v, depth, leaf) == PromotedTried(lib, t.right, depth + 1, leaf)
  {
  }

  /** The interpreter state of an evaluation with promotion. */
  class PromotingInterp {
    const lib: Library
    /** What substituting a literal yields. */
    const leaf: Valuation
    var exprDepth: nat
    /** The literals substituted so far, in order. */
    var substituted: seq<ExprNode>

    constructor (lib: Library, leaf: Valuation)
      ensures this.lib == lib && this.leaf == leaf && exprDepth == 0 && substituted == []
    {
      this.lib, this.leaf, exprDepth, substituted := lib, leaf, 0, [];
    }

    /** Evaluates the tree under n one call deeper than depth, where the counter
        stands.  The counter is restored on every return, and the tree is only read. */
    method Eval(n: ExprNode, ghost t: Tree, ghost links: Links, ghost depth: nat) returns (r: Promoted)
      requires IntegerTree(t) && n == t.node && Spelled(t, links) && exprDepth == depth
      modifies `exprDepth, `substituted
      ensures exprDepth == old(exprDepth)
      ensures r == PromotedValue(lib, t, depth, leaf)
      ensures substituted == old(substituted) + PromotedTried(lib, t, depth, leaf)
      decreases t, 2
    {
      if exprDepth >= MAX_EXPR_DEPTH {
        assert PromotedValue(lib, t, depth, leaf) == TooNested && PromotedTried(lib, t, depth, leaf) == [];
        return TooNested;
      }
      exprDepth := exprDepth + 1;
      r := EvalNode(n, t, links, depth);
      exprDepth := exprDepth - 1;
    }

    /** Evaluates the node n; the counter never exceeds its limit. */
    method EvalNode(n: ExprNode, ghost t: Tree, ghost links: Links, ghost depth: nat) returns (r: Promoted)
      requires IntegerTree(t) && n == t.node && Spelled(t, links)
      requires exprDepth == depth + 1 <= MAX_EXPR_DEPTH
      modifies `exprDepth, `substituted
      ensures exprDepth == old(exprDepth)
      ensures r == PromotedValue(lib, t, depth, leaf)
      ensures substituted == old(substituted) + PromotedTried(lib, t, depth, leaf)
      decreases t, 1
    {
      if n.op.None? {
        substituted := substituted + [n];
        var v := leaf(n);
        r := if v.Some? then Exact(v.value) else Refused;
      } else {
        r := EvalOperator(n, t, links, depth);
      }
    }

    /** Evaluates the first operand of the operator n, and goes on if it has a value. */
    method EvalOperator(n: ExprNode, ghost t: Tree, ghost links: Links, ghost depth: nat) returns (r: Promoted)
      requires IntegerTree(t) && n == t.node && n.op.Some? && Spelled(t, links)
      requires exprDepth == depth + 1 <= MAX_EXPR_DEPTH
      modifies `exprDepth, `substituted
      ensures exprDepth == old(exprDepth)
      ensures r == PromotedValue(lib, t, depth, leaf)
      ensures substituted == old(substituted) + PromotedTried(lib, t, depth, leaf)
      decreases t, 0, 2
    {
      ghost var before := substituted;
      Below(t, links);
      r := Eval(n.left, t.left, links, depth + 1);
      if r.Exact? {
        ghost var left := r.v;
        r := EvalRest(n, t, r.v, links, depth);
        ConcatAssoc(before, PromotedTried(lib, t.left, depth + 1, leaf), PromotedRestTried(lib, t, left, depth, leaf));
      }
    }

    /** What follows once the first operand of the operator n has a value. */
    method EvalRest(n: ExprNode, ghost t: Tree, left: int, ghost links: Links, ghost depth: nat)
      returns (r: Promoted)
      requires IntegerTree(t) && n == t.node && n.op.Some? && Spelled(t, links)
      requires exprDepth == depth + 1 <= MAX_EXPR_DEPTH
      modifies `exprDepth, `substituted
      ensures exprDepth == old(exprDepth)
      ensures r == PromotedRest(lib, t, left, depth, leaf)
      ensures substituted == old(substituted) + PromotedRestTried(lib, t, left, depth, leaf)
      decreases t, 0, 1
    {
      var op := n.op.value;
      if IsUnary(op) {
        var v := ApplyUnaryPromoted(op, left);
        r := Exact(v);
      } else if op == TernaryQ {
        r := EvalTernary(n, t, left, links, depth);
      } else if IsLogical(op) {
        r := EvalLogical(n, t, left, links, depth);
      } else {
        r := EvalStrict(n, t, left, links, depth);
      }
    }

    /** The condition must fit int64; then the selected branch is entered directly,
        past the `:` node. */
    method EvalTernary(n: ExprNode, ghost t: Tree, left: int, ghost links: Links, ghost depth: nat)
      returns (r: Promoted)
      requires IntegerTree(t) && n == t.node && n.op == Some(TernaryQ) && Spelled(t, links)
      requires exprDepth == depth + 1 <= MAX_EXPR_DEPTH
      modifies `exprDepth, `substituted
      ensures exprDepth == old(exprDepth)
      ensures r == PromotedRest(lib, t, left, depth, leaf)
      ensures substituted == old(substituted) + PromotedRestTried(lib, t, left, depth, leaf)
      decreases t, 0, 0
    {
      TernaryRest(lib, t, left, depth, leaf);
      if !InRange(left) {
        return Refused;
      }
      Below(t, links);
      Below(t.right, links);
      if left != 0 {
        r := Eval(n.right.left, t.right.left, links, depth + 1);
      } else {
        r := Eval(n.right.right, t.right.right, links, depth + 1);
      }
    }

    /** The right side is evaluated only when the left side leaves the outcome open. */
    method EvalLogical(n: ExprNode, ghost t: Tree, left: int, ghost links: Links, ghost depth: nat)
      returns (r: Promoted)
      requires IntegerTree(t) && n == t.node && n.op.Some? && IsLogical(n.op.value) && Spelled(t, links)
      requires exprDepth == depth + 1 <= MAX_EXPR_DEPTH
      modifies `exprDepth, `substituted
      ensures exprDepth == old(exprDepth)
      ensures r == PromotedRest(lib, t, left, depth, leaf)
      ensures substituted == old(substituted) + PromotedRestTried(lib, t, left, depth, leaf)
      decreases t, 0, 0
    {
      LogicalRest(lib, t, left, depth, leaf);
      if (left != 0) == (n.op.value == LogicalOr) {
        return Exact(Truth(n.op.value == LogicalOr));
      }
      Below(t, links);
      r := Eval(n.right, t.right, links, depth + 1);
      if r.Exact? {
        r := Exact(Truth(r.v != 0));
      }
    }

    method EvalStrict(n: ExprNode, ghost t: Tree, left: int, ghost links: Links, ghost depth: nat)
      returns (r: Promoted)
      requires IntegerTree(t) && n == t.node && n.op.Some? && IsStrict(n.op.value) && Spelled(t, links)
      requires exprDepth == depth + 1 <= MAX_EXPR_DEPTH
      modifies `exprDepth, `substituted
      ensures exprDepth == old(exprDepth)
      ensures r == PromotedRest(lib, t, left, depth, leaf)
      ensures substituted == old(substituted) + PromotedRestTried(lib, t, left, depth, leaf)
      decreases t, 0, 0
    {
      Below(t, links);
      r := Eval(n.right, t.right, links, depth + 1);
      if r.Exact? {
        r := Combine(n.op.value, left, r.v);
      }
    }

    method Combine(op: Operator, v: int, w: int) returns (r: Promoted)
      requires IsStrict(op)
      ensures r == Both(lib, op, v, w)
    {
      r := Apply(lib, op, v, w);
    }
  }

  // ----- No literal is substituted twice

  /** An evaluation with promotion substitutes every literal of an unshared tree at most
      once. */
  lemma {:induction false} PromotedOnce(lib: Library, t: Tree, depth: nat, leaf: Valuation)
    requires IntegerTree(t) && Unshared(t)
    ensures Distinct(PromotedTried(lib, t, depth, leaf))
    ensures forall n | n in PromotedTried(lib, t, depth, leaf) :: n in NodesOf(t)
    decreases t, 1
  {
    if depth >= MAX_EXPR_DEPTH {
      assert PromotedTried(lib, t, depth, leaf) == [];
    } else if t.node.op.None? {
      DistinctOne(t.node);
    } else {
      var l := PromotedValue(lib, t.left, depth + 1, leaf);
      PromotedOnce(lib, t.left, depth + 1, leaf);
      if l.Exact? {
        RestOnce(lib, t, l.v, depth, leaf, PromotedTried(lib, t.left, depth + 1, leaf));
      } else {
        assert PromotedTried(lib, t, depth, leaf) == PromotedTried(lib, t.left, depth + 1, leaf);
      }
    }
  }

  lemma {:induction false} RestOnce(lib: Library, t: Tree, v: int, depth: nat, leaf: Valuation, first: seq<ExprNode>)
    requires IntegerTree(t) && Unshared(t) && t.node.op.Some?
    requires Distinct(first) && forall n | n in first :: n in NodesOf(t.left)
    ensures var all := first + PromotedRestTried(lib, t, v, depth, leaf);
            Distinct(all) && forall n | n in all :: n in NodesOf(t)
    decreases t, 0
  {
    var s := Next(t, v);
    if s.Some? {
      PromotedOnce(lib, s.value, depth + 1, leaf);
      LiteralsJoin(t, s.value, first, PromotedTried(lib, s.value, depth + 1, leaf));
    } else {
      assert first + [] == first;
    }
  }

  /** An evaluation over node pointers, from a counter of depth: when nothing obstructs
      it, the answer is the unbounded value, and the literals are those needed, from
      left to right. */
  method EvalExactly(interp: PromotingInterp, n: ExprNode, ghost t: Tree, ghost links: Links) returns (r: Promoted)
    requires IntegerTree(t) && n == t.node && Spelled(t, links) && AllReadable(t, interp.leaf)
    modifies interp
    ensures interp.exprDepth == old(interp.exprDepth)
    ensures Clear(t, old(interp.exprDepth), interp.leaf) ==>
      r == Exact(Ideal(t, interp.leaf)) && interp.substituted == old(interp.substituted) + LazyOrder(t, interp.leaf)
    ensures Smooth(t) && !Clear(t, old(interp.exprDepth), interp.leaf) ==> !r.Exact?
  {
    ghost var depth := interp.exprDepth;
    PromotionExactly(interp.lib, t, depth, interp.leaf);
    if Clear(t, depth, interp.leaf) {
      ExactInLazyOrder(interp.lib, t, depth, interp.leaf);
    }
    if Smooth(t) {
      PromotionIsExact(interp.lib, t, depth, interp.leaf);
    }
    r := interp.Eval(n, t, links, depth);
  }
}
