/** What an operator tree means: its value over the unbounded integers, the
    steps a lazy evaluation takes, and the first thing that goes wrong. */
module ExprEval {
  import opened Operators
  import opened ExprTree
  import opened WideInt

  /** What the literals of an expression stand for; None when the substitution
      of a literal fails. */
  type Valuation = ExprNode -> Option<int>

  // ----- Trees over the integer operators

  predicate IsUnary(op: Operator) {
    op.UnaryMinus? || op.UnaryPlus? || op.BitwiseNot? || op.LogicalNot?
  }

  predicate IsComparison(op: Operator) {
    op.Lt? || op.Gt? || op.Le? || op.Ge? || op.Eq? || op.Ne?
  }

  predicate IsStrict(op: Operator) {
    op.Multiply? || op.Divide? || op.Modulus? || op.Add? || op.Subtract? || op.Exponent? || IsComparison(op)
  }

  predicate IsLogical(op: Operator) {
    op.LogicalAnd? || op.LogicalOr?
  }

  predicate IntegerTree(t: Tree) {
    t.Node? &&
    if t.node.op.None? then t.left.Nil? && t.right.Nil?
    else if IsUnary(t.node.op.value) then IntegerTree(t.left) && t.right.Nil?
    else if IsOp(t, TernaryQ) then
      IntegerTree(t.left) && IsOp(t.right, TernaryC) && IntegerTree(t.right.left) && IntegerTree(t.right.right)
    else
      (IsStrict(t.node.op.value) || IsLogical(t.node.op.value)) && IntegerTree(t.left) && IntegerTree(t.right)
  }

  // ----- Values over the unbounded integers

  function Truth(b: bool): int {
    if b then 1 else 0
  }

  function UnaryValue(op: Operator, a: int): int
    requires IsUnary(op)
  {
    match op
    case UnaryMinus => -a
    case UnaryPlus => a
    case BitwiseNot => -a - 1
    case LogicalNot => Truth(a == 0)
  }

  /** Floor division and remainder; a negative exponent gives 0. */
  function StrictValue(op: Operator, a: int, b: int): int
    requires IsStrict(op)
  {
    match op
    case Multiply => a * b
    case Divide => if b == 0 then 0 else FloorDiv(a, b)
    case Modulus => if b == 0 then 0 else FloorMod(a, b)
    case Add => a + b
    case Subtract => a - b
    case Exponent => if b < 0 then 0 else Power(a, b)
    case Lt => Truth(a < b)
    case Gt => Truth(a > b)
    case Le => Truth(a <= b)
    case Ge => Truth(a >= b)
    case Eq => Truth(a == b)
    case Ne => Truth(a != b)
  }

  /** The value of t when nothing can go wrong. */
  function Ideal(t: Tree, leaf: Valuation): int
    requires IntegerTree(t)
  {
    if t.node.op.None? then (if leaf(t.node).Some? then leaf(t.node).value else 0)
    else if IsUnary(t.node.op.value) then UnaryValue(t.node.op.value, Ideal(t.left, leaf))
    else if IsOp(t, TernaryQ) then
      if Ideal(t.left, leaf) != 0 then Ideal(t.right.left, leaf) else Ideal(t.right.right, leaf)
    else if IsOp(t, LogicalAnd) then Truth(Ideal(t.left, leaf) != 0 && Ideal(t.right, leaf) != 0)
    else if IsOp(t, LogicalOr) then Truth(Ideal(t.left, leaf) != 0 || Ideal(t.right, leaf) != 0)
    else StrictValue(t.node.op.value, Ideal(t.left, leaf), Ideal(t.right, leaf))
  }

  // ----- The steps of a lazy evaluation

  datatype Failure = TooDeep | LiteralFails | DivideByZero | IntegerOverflow

  /** The evaluation of one subterm and what is wrong with it, if anything. */
  datatype Step = Step(node: ExprNode, fault: Option<Failure>)

  /** What is wrong with t itself when it is evaluated depth calls deep. */
  function FaultAt(t: Tree, depth: nat, leaf: Valuation): Option<Failure>
    requires IntegerTree(t)
  {
    if depth >= MAX_EXPR_DEPTH then Some(TooDeep)
    else if t.node.op.None? && leaf(t.node).None? then Some(LiteralFails)
    else if (IsOp(t, Divide) || IsOp(t, Modulus)) && Ideal(t.right, leaf) == 0 then Some(DivideByZero)
    else if !InRange(Ideal(t, leaf)) then Some(IntegerOverflow)
    else None
  }

  /** The operand of t that a lazy evaluation turns to after the first one: the
      selected branch of a ternary, the right side of a logical operator only
      when the left side leaves the outcome open. */
  function Second(t: Tree, leaf: Valuation): (s: Option<Tree>)
    requires IntegerTree(t) && t.node.op.Some?
    ensures s.Some? ==> IntegerTree(s.value) && s.value < t
  {
    if IsUnary(t.node.op.value) then None
    else if IsOp(t, TernaryQ) then Some(if Ideal(t.left, leaf) != 0 then t.right.left else t.right.right)
    else if IsOp(t, LogicalAnd) && Ideal(t.left, leaf) == 0 then None
    else if IsOp(t, LogicalOr) && Ideal(t.left, leaf) != 0 then None
    else Some(t.right)
  }

  /** The subterms evaluated for t, operands before operators. */
  function Trace(t: Tree, depth: nat, leaf: Valuation): (steps: seq<Step>)
    requires IntegerTree(t)
    ensures steps != []
  {
    if t.node.op.None? then [Step(t.node, FaultAt(t, depth, leaf))]
    else
      var second := Second(t, leaf);
      var own := [Step(t.node, FaultAt(t, depth, leaf))];
      Trace(t.left, depth + 1, leaf) + (if second.None? then own else Trace(second.value, depth + 1, leaf) + own)
  }

  function FirstFault(steps: seq<Step>): Option<Failure> {
    if steps == [] then None
    else if steps[0].fault.Some? then steps[0].fault
    else FirstFault(steps[1..])
  }

  datatype Outcome = Value(v: int) | Fails(why: Failure)

  /** The meaning of t depth calls deep: its exact value, or the first fault. */
  function Meaning(t: Tree, depth: nat, leaf: Valuation): Outcome
    requires IntegerTree(t)
  {
    var fault := FirstFault(Trace(t, depth, leaf));
    if fault.Some? then Fails(fault.value) else Value(Ideal(t, leaf))
  }

  /** The literals that are substituted: those reached up to the first fault. */
  function Tried(steps: seq<Step>): seq<ExprNode> {
    if steps == [] || steps[0].fault == Some(TooDeep) then []
    else
      var rest := if steps[0].fault.Some? then [] else Tried(steps[1..]);
      if steps[0].node.op.None? then [steps[0].node] + rest else rest
  }

  lemma {:induction false} FaultsJoin(a: seq<Step>, b: seq<Step>)
    ensures FirstFault(a + b) == if FirstFault(a).Some? then FirstFault(a) else FirstFault(b)
  {
    if a == [] {
      assert a + b == b;
    } else {
      assert (a + b)[1..] == a[1..] + b;
      FaultsJoin(a[1..], b);
    }
  }

  lemma {:induction false} TriedJoin(a: seq<Step>, b: seq<Step>)
    ensures Tried(a + b) == if FirstFault(a).Some? then Tried(a) else Tried(a) + Tried(b)
  {
    if a == [] {
      assert a + b == b;
    } else {
      assert (a + b)[1..] == a[1..] + b;
      TriedJoin(a[1..], b);
    }
  }

  /** Past the depth limit the first step already fails. */
  lemma {:induction false} DeepTrace(t: Tree, depth: nat, leaf: Valuation)
    requires IntegerTree(t) && depth >= MAX_EXPR_DEPTH
    ensures Trace(t, depth, leaf)[0].fault == Some(TooDeep)
  {
    if t.node.op.Some? {
      DeepTrace(t.left, depth + 1, leaf);
    }
  }

  // ----- How the meaning of a tree follows from that of its operands

  lemma MeaningTooDeep(t: Tree, depth: nat, leaf: Valuation)
    requires IntegerTree(t) && depth >= MAX_EXPR_DEPTH
    ensures Meaning(t, depth, leaf) == Fails(TooDeep)
    ensures Tried(Trace(t, depth, leaf)) == []
  {
    DeepTrace(t, depth, leaf);
  }

  lemma OwnStep(steps: seq<Step>, own: Step)
    requires own.node.op.Some?
    ensures FirstFault(steps + [own]) == if FirstFault(steps).Some? then FirstFault(steps) else own.fault
    ensures Tried(steps + [own]) == Tried(steps)
  {
    FaultsJoin(steps, [own]);
    TriedJoin(steps, [own]);
    assert FirstFault([own]) == own.fault;
    assert Tried([own]) == [];
  }

  lemma MeaningOperator(t: Tree, depth: nat, leaf: Valuation)
    requires IntegerTree(t) && t.node.op.Some? && depth < MAX_EXPR_DEPTH
    ensures var l := Meaning(t.left, depth + 1, leaf);
            var s := Second(t, leaf);
            Meaning(t, depth, leaf) ==
              if l.Fails? then l
              else if s.Some? && Meaning(s.value, depth + 1, leaf).Fails? then Meaning(s.value, depth + 1, leaf)
              else if FaultAt(t, depth, leaf).Some? then Fails(FaultAt(t, depth, leaf).value)
              else Value(Ideal(t, leaf))
  {
    var l := Trace(t.left, depth + 1, leaf);
    var s := Second(t, leaf);
    var own := Step(t.node, FaultAt(t, depth, leaf));
    if s.None? {
      OwnStep(l, own);
    } else {
      var r := Trace(s.value, depth + 1, leaf);
      OwnStep(r, own);
      FaultsJoin(l, r + [own]);
    }
  }

  lemma TriedOperator(t: Tree, depth: nat, leaf: Valuation)
    requires IntegerTree(t) && t.node.op.Some? && depth < MAX_EXPR_DEPTH
    ensures var l := Trace(t.left, depth + 1, leaf);
            var s := Second(t, leaf);
            Tried(Trace(t, depth, leaf)) ==
              if FirstFault(l).Some? || s.None? then Tried(l)
              else Tried(l) + Tried(Trace(s.value, depth + 1, leaf))
  {
    var l := Trace(t.left, depth + 1, leaf);
    var s := Second(t, leaf);
    var own := Step(t.node, FaultAt(t, depth, leaf));
    if s.None? {
      OwnStep(l, own);
    } else {
      var r := Trace(s.value, depth + 1, leaf);
      OwnStep(r, own);
      TriedJoin(l, r + [own]);
    }
  }

  // ----- Main results about the meaning

  lemma {:induction false} FirstFaultMeans(steps: seq<Step>)
    ensures FirstFault(steps).None? <==> forall k | 0 <= k < |steps| :: steps[k].fault.None?
    ensures FirstFault(steps).Some? ==>
      exists k ::
        && 0 <= k < |steps| && steps[k].fault == FirstFault(steps)
        && forall i | 0 <= i < k :: steps[i].fault.None?
  {
    if steps != [] && steps[0].fault.None? {
      var rest := steps[1..];
      FirstFaultMeans(rest);
      assert forall k | 0 < k < |steps| :: steps[k] == rest[k-1];
      if FirstFault(rest).Some? {
        var k :| 0 <= k < |rest| && rest[k].fault == FirstFault(rest) && forall i | 0 <= i < k :: rest[i].fault.None?;
        assert steps[k+1].fault == FirstFault(steps);
      }
    }
  }

  /** A tree has a value exactly when no subterm that is evaluated fails, and then
      the value is the unbounded one and fits. */
  lemma ValueWhenNothingFails(t: Tree, depth: nat, leaf: Valuation)
    requires IntegerTree(t)
    ensures Meaning(t, depth, leaf).Value? <==> forall s | s in Trace(t, depth, leaf) :: s.fault.None?
    ensures Meaning(t, depth, leaf).Value? ==> InRange(Ideal(t, leaf))
  {
    var steps := Trace(t, depth, leaf);
    FirstFaultMeans(steps);
    assert steps[|steps|-1].fault == FaultAt(t, depth, leaf);
  }

  /** The literals of t that a lazy evaluation needs, from left to right. */
  function LazyOrder(t: Tree, leaf: Valuation): seq<ExprNode>
    requires IntegerTree(t)
  {
    if t.node.op.None? then [t.node]
    else
      var second := Second(t, leaf);
      LazyOrder(t.left, leaf) + (if second.None? then [] else LazyOrder(second.value, leaf))
  }

  /** The literals substituted are the needed ones in reading order, all of them
      when the evaluation succeeds, those up to the failure when it does not. */
  lemma {:induction false} TriedInLazyOrder(t: Tree, depth: nat, leaf: Valuation)
    requires IntegerTree(t)
    ensures Tried(Trace(t, depth, leaf)) <= LazyOrder(t, leaf)
    ensures Meaning(t, depth, leaf).Value? ==> Tried(Trace(t, depth, leaf)) == LazyOrder(t, leaf)
  {
    if depth >= MAX_EXPR_DEPTH {
      MeaningTooDeep(t, depth, leaf);
    } else if t.node.op.None? {
      assert Trace(t, depth, leaf)[1..] == [];
    } else {
      TriedOperator(t, depth, leaf);
      MeaningOperator(t, depth, leaf);
      TriedInLazyOrder(t.left, depth + 1, leaf);
      var s := Second(t, leaf);
      if s.Some? {
        TriedInLazyOrder(s.value, depth + 1, leaf);
      }
    }
  }

  /** How many nested calls the evaluation of t takes: a `:` costs none, because
      its arms are entered directly. */
  function LazyHeight(t: Tree, leaf: Valuation): nat
    requires IntegerTree(t)
  {
    if t.node.op.None? then 1
    else
      var l := LazyHeight(t.left, leaf);
      var s := Second(t, leaf);
      var r := if s.None? then 0 else LazyHeight(s.value, leaf);
      1 + if l < r then r else l
  }

  /** Some step runs into the depth limit. */
  ghost predicate HitsLimit(steps: seq<Step>) {
    exists s :: s in steps && s.fault == Some(TooDeep)
  }

  lemma LimitJoin(a: seq<Step>, b: seq<Step>)
    ensures HitsLimit(a + b) <==> HitsLimit(a) || HitsLimit(b)
  {
    forall s | s in a || s in b
      ensures s in a + b
    {
    }
  }

  lemma LimitSnoc(a: seq<Step>, s: Step)
    requires s.fault != Some(TooDeep)
    ensures HitsLimit(a + [s]) <==> HitsLimit(a)
  {
    LimitJoin(a, [s]);
  }

  /** The depth fault occurs exactly on evaluated paths that are too long for the
      budget left. */
  lemma {:induction false} TooDeepExactly(t: Tree, depth: nat, leaf: Valuation)
    requires IntegerTree(t)
    ensures HitsLimit(Trace(t, depth, leaf)) <==> depth + LazyHeight(t, leaf) > MAX_EXPR_DEPTH
  {
    if depth >= MAX_EXPR_DEPTH {
      DeepTrace(t, depth, leaf);
      assert Trace(t, depth, leaf)[0] in Trace(t, depth, leaf);
    } else if t.node.op.Some? {
      var own := Step(t.node, FaultAt(t, depth, leaf));
      var l := Trace(t.left, depth + 1, leaf);
      var s := Second(t, leaf);
      TooDeepExactly(t.left, depth + 1, leaf);
      if s.Some? {
        TooDeepExactly(s.value, depth + 1, leaf);
        LimitSnoc(Trace(s.value, depth + 1, leaf), own);
        LimitJoin(l, Trace(s.value, depth + 1, leaf) + [own]);
      } else {
        LimitSnoc(l, own);
      }
    }
  }

  /** An evaluation that reports the depth error follows a path that is too long,
      and one that follows such a path fails. */
  lemma DepthError(t: Tree, depth: nat, leaf: Valuation)
    requires IntegerTree(t)
    ensures Meaning(t, depth, leaf) == Fails(TooDeep) ==> depth + LazyHeight(t, leaf) > MAX_EXPR_DEPTH
    ensures depth + LazyHeight(t, leaf) > MAX_EXPR_DEPTH ==> Meaning(t, depth, leaf).Fails?
  {
    TooDeepExactly(t, depth, leaf);
    ValueWhenNothingFails(t, depth, leaf);
    FirstFaultMeans(Trace(t, depth, leaf));
  }
}
