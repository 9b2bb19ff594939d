/** The recursive evaluator as the engine runs it: node pointers, int64 values,
    and a counter that bounds the depth of the recursion. */
module ExprInterp {
  import opened Operators
  import opened ExprTree
  import opened ExprHeap
  import opened ExprForest
  import opened Sequences
  import opened WideInt
  import opened ExprEval

  /** What substituting the literals yields: an int64, or a failure. */
  type Substitution = ExprNode -> Option<int64>

  function Widened(leaf: Substitution): Valuation {
    (n: ExprNode) => if leaf(n).Some? then Some(leaf(n).value as int) else None
  }

  datatype Result = Ok(value: int64) | Error(why: Failure)

  function Reported(r: Result): Outcome {
    if r.Ok? then Value(r.value as int) else Fails(r.why)
  }

  /** The exact value v when it fits, an overflow otherwise. */
  function Checked(v: int): Outcome {
    if InRange(v) then Value(v) else Fails(IntegerOverflow)
  }

  function TruthValue(b: bool): int64 {
    if b then 1 else 0
  }

  method ApplyUnary(op: Operator, a: int64) returns (r: Result)
    requires IsUnary(op)
    ensures Reported(r) == Checked(UnaryValue(op, a as int))
    ensures op == UnaryMinus ==> r == if a == INT64_MIN then Error(IntegerOverflow) else Ok(-a)
    ensures op == UnaryPlus ==> r == Ok(a)
    ensures op == BitwiseNot ==> r == Ok(-1 - a)
    ensures op == LogicalNot ==> r == Ok(if a == 0 then 1 else 0)
  {
    match op
    case UnaryMinus =>
      if a == INT64_MIN {
        return Error(IntegerOverflow);
      }
      return Ok(-a);
    case UnaryPlus => return Ok(a);
    case BitwiseNot => return Ok(-1 - a);
    case LogicalNot => return Ok(TruthValue(a == 0));
  }

  method Compare(op: Operator, a: int64, b: int64) returns (v: int64)
    requires IsComparison(op)
    ensures v as int == StrictValue(op, a as int, b as int)
    ensures v == 0 || v == 1
    ensures op == Lt ==> (v == 1 <==> a < b)
    ensures op == Gt ==> (v == 1 <==> a > b)
    ensures op == Le ==> (v == 1 <==> a <= b)
    ensures op == Ge ==> (v == 1 <==> a >= b)
    ensures op == Eq ==> (v == 1 <==> a == b)
    ensures op == Ne ==> (v == 1 <==> a != b)
  {
    match op
    case Lt => v := TruthValue(a < b);
    case Gt => v := TruthValue(a > b);
    case Le => v := TruthValue(a <= b);
    case Ge => v := TruthValue(a >= b);
    case Eq => v := TruthValue(a == b);
    case Ne => v := TruthValue(a != b);
  }

  /** What a strict operator reports on exact operands. */
  function StrictOutcome(op: Operator, a: int, b: int): Outcome
    requires IsStrict(op)
  {
    if (op == Divide || op == Modulus) && b == 0 then Fails(DivideByZero) else Checked(StrictValue(op, a, b))
  }

  method ApplyMultiply(a: int64, b: int64) returns (r: Result)
    ensures Reported(r) == Checked(a as int * b as int)
  {
    MultiplyGuard(a, b);
    if MultiplyOverflows(a, b) {
      return Error(IntegerOverflow);
    }
    return Ok(a * b);
  }

  lemma DivideGuard(a: int64, b: int64)
    requires b != 0
    ensures DivideOverflows(a, b) <==> !InRange(FloorDiv(a as int, b as int))
  {
    if !DivideOverflows(a, b) {
      RoundedDown(a as int, b as int);
      ProductInRange(a, b);
    }
  }

  method ApplyDivide(a: int64, b: int64) returns (r: Result)
    ensures Reported(r) == StrictOutcome(Divide, a as int, b as int)
  {
    if b == 0 {
      return Error(DivideByZero);
    }
    if DivideOverflows(a, b) {
      return Error(IntegerOverflow);
    }
    var q := DivideDown(a, b);
    return Ok(q);
  }

  method ApplyModulus(a: int64, b: int64) returns (r: Result)
    ensures Reported(r) == StrictOutcome(Modulus, a as int, b as int)
  {
    if b == 0 {
      return Error(DivideByZero);
    }
    var m := ModuloDown(a, b);
    return Ok(m);
  }

  method ApplyExponent(a: int64, b: int64) returns (r: Result)
    ensures Reported(r) == StrictOutcome(Exponent, a as int, b as int)
  {
    if b < 0 {
      return Ok(0);
    }
    var overflow, v := Exponentiate(a, b);
    return if overflow then Error(IntegerOverflow) else Ok(v);
  }

  method ApplyStrict(op: Operator, a: int64, b: int64) returns (r: Result)
    requires IsStrict(op)
    ensures Reported(r) == StrictOutcome(op, a as int, b as int)
    ensures op == Add ==> Reported(r) == Checked(a as int + b as int)
    ensures op == Subtract ==> Reported(r) == Checked(a as int - b as int)
    ensures op == Multiply ==> Reported(r) == Checked(a as int * b as int)
    ensures op == Exponent && b < 0 ==> r == Ok(0)
    ensures op == Exponent && b >= 0 ==> Reported(r) == Checked(Power(a as int, b as nat))
  {
    match op
    case Multiply => r := ApplyMultiply(a, b);
    case Divide => r := ApplyDivide(a, b);
    case Modulus => r := ApplyModulus(a, b);
    case Exponent => r := ApplyExponent(a, b);
    case Add =>
      if AddOverflows(a, b) {
        return Error(IntegerOverflow);
      }
      return Ok(a + b);
    case Subtract =>
      if SubtractOverflows(a, b) {
        return Error(IntegerOverflow);
      }
      return Ok(a - b);
    case _ =>
      var v := Compare(op, a, b);
      return Ok(v);
  }

  lemma LiteralTrace(t: Tree, depth: nat, leaf: Valuation)
    requires IntegerTree(t) && t.node.op.None? && depth < MAX_EXPR_DEPTH
    ensures Tried(Trace(t, depth, leaf)) == [t.node]
    ensures Meaning(t, depth, leaf) == if leaf(t.node).Some? then Checked(leaf(t.node).value) else Fails(LiteralFails)
  {
    var steps := Trace(t, depth, leaf);
    assert steps == [Step(t.node, FaultAt(t, depth, leaf))] && steps[1..] == [];
    assert FirstFault(steps) == FaultAt(t, depth, leaf);
  }

  /** The outcome of t once its first operand has a value. */
  function Rest(t: Tree, depth: nat, leaf: Valuation): Outcome
    requires IntegerTree(t) && t.node.op.Some?
  {
    var s := Second(t, leaf);
    if s.Some? && Meaning(s.value, depth + 1, leaf).Fails? then Meaning(s.value, depth + 1, leaf)
    else if FaultAt(t, depth, leaf).Some? then Fails(FaultAt(t, depth, leaf).value)
    else Value(Ideal(t, leaf))
  }

  /** The literals substituted for t after those of its first operand. */
  function RestTried(t: Tree, depth: nat, leaf: Valuation): seq<ExprNode>
    requires IntegerTree(t) && t.node.op.Some?
  {
    var s := Second(t, leaf);
    if s.None? then [] else Tried(Trace(s.value, depth + 1, leaf))
  }

  lemma AfterFirst(t: Tree, depth: nat, leaf: Valuation)
    requires IntegerTree(t) && t.node.op.Some? && depth < MAX_EXPR_DEPTH
    requires Meaning(t.left, depth + 1, leaf).Value?
    ensures Meaning(t.left, depth + 1, leaf).v == Ideal(t.left, leaf)
    ensures Meaning(t, depth, leaf) == Rest(t, depth, leaf)
    ensures Tried(Trace(t, depth, leaf)) == Tried(Trace(t.left, depth + 1, leaf)) + RestTried(t, depth, leaf)
  {
    MeaningOperator(t, depth, leaf);
    TriedOperator(t, depth, leaf);
  }

  /** When the first operand fails, nothing else happens. */
  lemma FirstFails(t: Tree, depth: nat, leaf: Valuation)
    requires IntegerTree(t) && t.node.op.Some? && depth < MAX_EXPR_DEPTH
    requires Meaning(t.left, depth + 1, leaf).Fails?
    ensures Meaning(t, depth, leaf) == Meaning(t.left, depth + 1, leaf)
    ensures Tried(Trace(t, depth, leaf)) == Tried(Trace(t.left, depth + 1, leaf))
  {
    MeaningOperator(t, depth, leaf);
    TriedOperator(t, depth, leaf);
  }

  lemma RestTernary(t: Tree, depth: nat, leaf: Valuation)
    requires IntegerTree(t) && IsOp(t, TernaryQ) && depth < MAX_EXPR_DEPTH
    ensures Rest(t, depth, leaf) == Meaning(Second(t, leaf).value, depth + 1, leaf)
  {
    ValueWhenNothingFails(Second(t, leaf).value, depth + 1, leaf);
  }

  lemma RestLogical(t: Tree, depth: nat, leaf: Valuation)
    requires IntegerTree(t) && t.node.op.Some? && IsLogical(t.node.op.value) && depth < MAX_EXPR_DEPTH
    ensures Second(t, leaf).None? ==> Rest(t, depth, leaf) == Value(Truth(t.node.op == Some(LogicalOr)))
    ensures Second(t, leaf).Some? ==>
      var r := Meaning(t.right, depth + 1, leaf);
      Rest(t, depth, leaf) == if r.Fails? then r else Value(Truth(r.v != 0))
  {
  }

  lemma RestStrict(t: Tree, depth: nat, leaf: Valuation)
    requires IntegerTree(t) && t.node.op.Some? && IsStrict(t.node.op.value) && depth < MAX_EXPR_DEPTH
    ensures var r := Meaning(t.right, depth + 1, leaf);
            Rest(t, depth, leaf) ==
              if r.Fails? then r else StrictOutcome(t.node.op.value, Ideal(t.left, leaf), r.v)
  {
  }

  lemma RestUnary(t: Tree, depth: nat, leaf: Valuation)
    requires IntegerTree(t) && t.node.op.Some? && IsUnary(t.node.op.value) && depth < MAX_EXPR_DEPTH
    ensures Rest(t, depth, leaf) == Checked(UnaryValue(t.node.op.value, Ideal(t.left, leaf)))
  {
  }

  /** The left and right pointers of a set of nodes. */
  datatype Links = Links(left: map<ExprNode, ExprNode?>, right: map<ExprNode, ExprNode?>)

  /** t is what the pointers of the heap spell. */
  ghost predicate Spelled(t: Tree, links: Links)
    reads links.left.Keys
  {
    && Sound(t, links.left, links.right)
    && (forall n | n in links.left :: n in links.right && n.left == links.left[n] && n.right == links.right[n])
  }

  lemma Below(t: Tree, links: Links)
    requires t.Node? && Spelled(t, links)
    ensures t.node.left == Root(t.left) && t.node.right == Root(t.right)
    ensures Spelled(t.left, links) && Spelled(t.right, links)
  {
  }

  // ----- No literal is substituted twice

  /** Literals of the left operand, and then literals of the tree s on the right. */
  lemma LiteralsJoin(t: Tree, s: Tree, a: seq<ExprNode>, b: seq<ExprNode>)
    requires t.Node? && Unshared(t)
    requires s == t.right || (t.right.Node? && (s == t.right.left || s == t.right.right))
    requires Distinct(a) && forall n | n in a :: n in NodesOf(t.left)
    requires Distinct(b) && forall n | n in b :: n in NodesOf(s)
    ensures Distinct(a + b) && forall n | n in a + b :: n in NodesOf(t)
  {
    assert NodesOf(s) <= NodesOf(t.right);
    DistinctJoin(a, b);
  }

  lemma SecondPlace(t: Tree, leaf: Valuation)
    requires IntegerTree(t) && t.node.op.Some? && Second(t, leaf).Some?
    ensures var s := Second(t, leaf).value;
            s == t.right || (t.right.Node? && (s == t.right.left || s == t.right.right))
  {
  }

  lemma {:induction false} NeededOnce(t: Tree, leaf: Valuation)
    requires IntegerTree(t) && Unshared(t)
    ensures Distinct(LazyOrder(t, leaf)) && forall n | n in LazyOrder(t, leaf) :: n in NodesOf(t)
  {
    if t.node.op.None? {
      DistinctOne(t.node);
    } else {
      var s := Second(t, leaf);
      NeededOnce(t.left, leaf);
      if s.Some? {
        SecondPlace(t, leaf);
        NeededOnce(s.value, leaf);
        LiteralsJoin(t, s.value, LazyOrder(t.left, leaf), LazyOrder(s.value, leaf));
      } else {
        assert LazyOrder(t, leaf) == LazyOrder(t.left, leaf);
      }
    }
  }

  /** An evaluation substitutes every literal of an unshared tree at most once. */
  lemma SubstitutedOnce(t: Tree, depth: nat, leaf: Valuation)
    requires IntegerTree(t) && Unshared(t)
    ensures Distinct(Tried(Trace(t, depth, leaf)))
  {
    NeededOnce(t, leaf);
    TriedInLazyOrder(t, depth, leaf);
    DistinctPrefix(Tried(Trace(t, depth, leaf)), LazyOrder(t, leaf));
  }

  /** The interpreter state an expression evaluation works on. */
  class Interp {
    /** What substituting a literal yields.  Every literal of a tree is
        substituted at most once (SubstitutedOnce), so side effects of earlier
        substitutions are covered by letting this be any function of the node. */
    const leaf: Substitution
    var exprDepth: nat
    /** The literals substituted so far, in order. */
    var substituted: seq<ExprNode>

    constructor (leaf: Substitution)
      ensures this.leaf == leaf && exprDepth == 0 && substituted == []
    {
      this.leaf, exprDepth, substituted := leaf, 0, [];
    }

    /** Evaluates the tree under n one call deeper.  The counter is restored on
        every return, and the tree is only read. */
    method Eval(n: ExprNode, ghost t: Tree, ghost links: Links) returns (r: Result)
      requires IntegerTree(t) && n == t.node && Spelled(t, links)
      modifies `exprDepth, `substituted
      ensures exprDepth == old(exprDepth)
      ensures Reported(r) == Meaning(t, old(exprDepth), Widened(leaf))
      ensures substituted == old(substituted) + Tried(Trace(t, old(exprDepth), Widened(leaf)))
      decreases t, 2
    {
      if exprDepth >= MAX_EXPR_DEPTH {
        MeaningTooDeep(t, exprDepth, Widened(leaf));
        return Error(TooDeep);
      }
      exprDepth := exprDepth + 1;
      r := EvalNode(n, t, links);
      exprDepth := exprDepth - 1;
    }

    method EvalLiteral(n: ExprNode, ghost t: Tree) returns (r: Result)
      requires IntegerTree(t) && n == t.node && n.op.None?
      requires 1 <= exprDepth <= MAX_EXPR_DEPTH
      modifies `substituted
      ensures Reported(r) == Meaning(t, exprDepth - 1, Widened(leaf))
      ensures substituted == old(substituted) + Tried(Trace(t, exprDepth - 1, Widened(leaf)))
    {
      LiteralTrace(t, exprDepth - 1, Widened(leaf));
      substituted := substituted + [n];
      var v := leaf(n);
      r := if v.Some? then Ok(v.value) else Error(LiteralFails);
    }

    /** Evaluates the node n; the counter never exceeds its limit. */
    method EvalNode(n: ExprNode, ghost t: Tree, ghost links: Links) returns (r: Result)
      requires IntegerTree(t) && n == t.node && Spelled(t, links)
      requires 1 <= exprDepth <= MAX_EXPR_DEPTH
      modifies `exprDepth, `substituted
      ensures exprDepth == old(exprDepth)
      ensures Reported(r) == Meaning(t, old(exprDepth) - 1, Widened(leaf))
      ensures substituted == old(substituted) + Tried(Trace(t, old(exprDepth) - 1, Widened(leaf)))
      decreases t, 1
    {
      if n.op.None? {
        r := EvalLiteral(n, t);
      } else {
        r := EvalOperator(n, t, links, exprDepth - 1, Widened(leaf));
      }
    }

    /** Evaluates the first operand of the operator n, and goes on if it has a value. */
    method EvalOperator(n: ExprNode, ghost t: Tree, ghost links: Links, ghost depth: nat, ghost leaves: Valuation)
      returns (r: Result)
      requires IntegerTree(t) && n == t.node && n.op.Some? && Spelled(t, links)
      requires exprDepth == depth + 1 <= MAX_EXPR_DEPTH && leaves == Widened(leaf)
      modifies `exprDepth, `substituted
      ensures exprDepth == old(exprDepth)
      ensures Reported(r) == Meaning(t, depth, leaves)
      ensures substituted == old(substituted) + Tried(Trace(t, depth, leaves))
      decreases t, 0, 2
    {
      ghost var before := substituted;
      Below(t, links);
      r := Eval(n.left, t.left, links);
      if r.Error? {
        FirstFails(t, depth, leaves);
        return;
      }
      AfterFirst(t, depth, leaves);
      r := EvalRest(n, t, r.value, links, depth, leaves);
      ConcatAssoc(before, Tried(Trace(t.left, depth + 1, leaves)), RestTried(t, depth, leaves));
    }

    /** What follows once the first operand of the operator n has a value. */
    method EvalRest(n: ExprNode, ghost t: Tree, left: int64, ghost links: Links, ghost depth: nat,
                    ghost leaves: Valuation)
      returns (r: Result)
      requires IntegerTree(t) && n == t.node && n.op.Some? && Spelled(t, links)
      requires exprDepth == depth + 1 <= MAX_EXPR_DEPTH && leaves == Widened(leaf)
      requires left as int == Ideal(t.left, leaves)
      modifies `exprDepth, `substituted
      ensures exprDepth == old(exprDepth)
      ensures Reported(r) == Rest(t, depth, leaves)
      ensures substituted == old(substituted) + RestTried(t, depth, leaves)
      decreases t, 0, 1
    {
      var op := n.op.value;
      if IsUnary(op) {
        RestUnary(t, depth, leaves);
        r := ApplyUnary(op, left);
      } else if op == TernaryQ {
        r := EvalTernary(n, t, left, links, depth, leaves);
      } else if IsLogical(op) {
        r := EvalLogical(n, t, left, links, depth, leaves);
      } else {
        r := EvalStrict(n, t, left, links, depth, leaves);
      }
    }

    /** Enters the selected branch directly, past the `:` node. */
    method EvalTernary(n: ExprNode, ghost t: Tree, left: int64, ghost links: Links, ghost depth: nat,
                       ghost leaves: Valuation)
      returns (r: Result)
      requires IntegerTree(t) && n == t.node && n.op == Some(TernaryQ) && Spelled(t, links)
      requires exprDepth == depth + 1 <= MAX_EXPR_DEPTH && leaves == Widened(leaf)
      requires left as int == Ideal(t.left, leaves)
      modifies `exprDepth, `substituted
      ensures exprDepth == old(exprDepth)
      ensures Reported(r) == Rest(t, depth, leaves)
      ensures substituted == old(substituted) + RestTried(t, depth, leaves)
      decreases t, 0, 0
    {
      RestTernary(t, depth, leaves);
      Below(t, links);
      Below(t.right, links);
      if left != 0 {
        r := Eval(n.right.left, t.right.left, links);
      } else {
        r := Eval(n.right.right, t.right.right, links);
      }
    }

    /** The right side is evaluated only when the left side leaves the outcome open. */
    method EvalLogical(n: ExprNode, ghost t: Tree, left: int64, ghost links: Links, ghost depth: nat,
                       ghost leaves: Valuation)
      returns (r: Result)
      requires IntegerTree(t) && n == t.node && n.op.Some? && IsLogical(n.op.value) && Spelled(t, links)
      requires exprDepth == depth + 1 <= MAX_EXPR_DEPTH && leaves == Widened(leaf)
      requires left as int == Ideal(t.left, leaves)
      modifies `exprDepth, `substituted
      ensures exprDepth == old(exprDepth)
      ensures Reported(r) == Rest(t, depth, leaves)
      ensures substituted == old(substituted) + RestTried(t, depth, leaves)
      decreases t, 0, 0
    {
      RestLogical(t, depth, leaves);
      if (left != 0) == (n.op.value == LogicalOr) {
        return Ok(TruthValue(n.op.value == LogicalOr));
      }
      Below(t, links);
      r := Eval(n.right, t.right, links);
      if r.Ok? {
        r := Ok(TruthValue(r.value != 0));
      }
    }

    method EvalStrict(n: ExprNode, ghost t: Tree, left: int64, ghost links: Links, ghost depth: nat,
                      ghost leaves: Valuation)
      returns (r: Result)
      requires IntegerTree(t) && n == t.node && n.op.Some? && IsStrict(n.op.value) && Spelled(t, links)
      requires exprDepth == depth + 1 <= MAX_EXPR_DEPTH && leaves == Widened(leaf)
      requires left as int == Ideal(t.left, leaves)
      modifies `exprDepth, `substituted
      ensures exprDepth == old(exprDepth)
      ensures Reported(r) == Rest(t, depth, leaves)
      ensures substituted == old(substituted) + RestTried(t, depth, leaves)
      decreases t, 0, 0
    {
      RestStrict(t, depth, leaves);
      Below(t, links);
      r := Eval(n.right, t.right, links);
      if r.Ok? {
        r := ApplyStrict(n.op.value, left, r.value);
      }
    }
  }
}
