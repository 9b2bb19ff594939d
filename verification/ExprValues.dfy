/** What evaluation comes to, operator by operator, in plain arithmetic.  Together
    these laws give the outcome of every tree from the outcomes of its operands. */
module ExprValues {
  import opened Operators
  import opened ExprTree
  import opened ExprGrammar
  import opened ExprLaws
  import opened ExprEval
  import opened ExprInterp
  import opened ExprEngine
  import opened WideInt

  /** v if it is a 64-bit integer, an overflow otherwise. */
  function Fit(v: int): Outcome {
    if -0x8000_0000_0000_0000 <= v <= 0x7fff_ffff_ffff_ffff then Value(v) else Fails(IntegerOverflow)
  }

  /** An evaluation 1000 calls deep fails; otherwise a literal has the value it
      stands for, provided that fits. */
  lemma LiteralLaw(t: Tree, depth: nat, leaf: Valuation)
    requires IntegerTree(t)
    ensures depth >= 1000 ==> Meaning(t, depth, leaf) == Fails(TooDeep)
    ensures depth < 1000 && t.node.op.None? ==>
      Meaning(t, depth, leaf) == if leaf(t.node).None? then Fails(LiteralFails) else Fit(leaf(t.node).value)
  {
    if depth >= 1000 {
      MeaningTooDeep(t, depth, leaf);
    } else if t.node.op.None? {
      LiteralTrace(t, depth, leaf);
    }
  }

  /** A failure of the first operand is that of the operator, and so is one of the
      second operand where the operator needs both. */
  lemma FailureLaw(t: Tree, depth: nat, leaf: Valuation)
    requires IntegerTree(t) && t.node.op.Some? && depth < 1000
    ensures var l, r := Meaning(t.left, depth + 1, leaf), t.right;
            && (l.Fails? ==> Meaning(t, depth, leaf) == l)
            && (l.Value? && IsStrict(t.node.op.value) && Meaning(r, depth + 1, leaf).Fails? ==>
                 Meaning(t, depth, leaf) == Meaning(r, depth + 1, leaf))
  {
    if Meaning(t.left, depth + 1, leaf).Fails? {
      FirstFails(t, depth, leaf);
    } else {
      AfterFirst(t, depth, leaf);
      if IsStrict(t.node.op.value) {
        RestStrict(t, depth, leaf);
      }
    }
  }

  /** The prefix operators. */
  lemma UnaryLaw(t: Tree, depth: nat, leaf: Valuation, a: int)
    requires IntegerTree(t) && t.node.op.Some? && IsUnary(t.node.op.value) && depth < 1000
    requires Meaning(t.left, depth + 1, leaf) == Value(a)
    ensures IsOp(t, UnaryMinus) ==> Meaning(t, depth, leaf) == Fit(-a)
    ensures IsOp(t, UnaryPlus) ==> Meaning(t, depth, leaf) == Value(a)
    ensures IsOp(t, BitwiseNot) ==> Meaning(t, depth, leaf) == Value(-1 - a)
    ensures IsOp(t, LogicalNot) ==> Meaning(t, depth, leaf) == Value(if a == 0 then 1 else 0)
  {
    AfterFirst(t, depth, leaf);
    RestUnary(t, depth, leaf);
    ValueWhenNothingFails(t.left, depth + 1, leaf);
  }

  /** The condition of a ternary selects the first arm unless it is 0, and the outcome
      is that of the selected arm. */
  lemma TernaryLaw(t: Tree, depth: nat, leaf: Valuation, a: int)
    requires IntegerTree(t) && IsOp(t, TernaryQ) && depth < 1000
    requires Meaning(t.left, depth + 1, leaf) == Value(a)
    ensures Meaning(t, depth, leaf)
         == if a == 0 then Meaning(t.right.right, depth + 1, leaf) else Meaning(t.right.left, depth + 1, leaf)
  {
    AfterFirst(t, depth, leaf);
    RestTernary(t, depth, leaf);
  }

  /** `&&` needs its right operand only after a left one that is not 0, `||` only
      after one that is; the value is 1 or 0. */
  lemma LogicalLaw(t: Tree, depth: nat, leaf: Valuation, a: int)
    requires IntegerTree(t) && t.node.op.Some? && depth < 1000
    requires Meaning(t.left, depth + 1, leaf) == Value(a)
    ensures IsOp(t, LogicalAnd) ==>
      var r := Meaning(t.right, depth + 1, leaf);
      Meaning(t, depth, leaf) ==
        if a == 0 then Value(0) else if r.Fails? then r else Value(if r.v == 0 then 0 else 1)
    ensures IsOp(t, LogicalOr) ==>
      var r := Meaning(t.right, depth + 1, leaf);
      Meaning(t, depth, leaf) ==
        if a != 0 then Value(1) else if r.Fails? then r else Value(if r.v == 0 then 0 else 1)
  {
    if IsLogical(t.node.op.value) {
      AfterFirst(t, depth, leaf);
      RestLogical(t, depth, leaf);
    }
  }

  /** The operators that need both operands are strict. */
  lemma StrictOutcomeOf(t: Tree, depth: nat, leaf: Valuation, a: int, b: int)
    requires IntegerTree(t) && t.node.op.Some? && IsStrict(t.node.op.value) && depth < 1000
    requires Meaning(t.left, depth + 1, leaf) == Value(a) && Meaning(t.right, depth + 1, leaf) == Value(b)
    ensures Meaning(t, depth, leaf) == StrictOutcome(t.node.op.value, a, b)
  {
    AfterFirst(t, depth, leaf);
    RestStrict(t, depth, leaf);
  }

  /** Sums, differences and products overflow exactly when they are no 64-bit integers. */
  lemma SumLaw(t: Tree, depth: nat, leaf: Valuation, a: int, b: int)
    requires IntegerTree(t) && (IsOp(t, Add) || IsOp(t, Subtract) || IsOp(t, Multiply)) && depth < 1000
    requires Meaning(t.left, depth + 1, leaf) == Value(a) && Meaning(t.right, depth + 1, leaf) == Value(b)
    ensures IsOp(t, Add) ==> Meaning(t, depth, leaf) == Fit(a + b)
    ensures IsOp(t, Subtract) ==> Meaning(t, depth, leaf) == Fit(a - b)
    ensures IsOp(t, Multiply) ==> Meaning(t, depth, leaf) == Fit(a * b)
  {
    StrictOutcomeOf(t, depth, leaf, a, b);
  }

  lemma DivisionOutcome(a: int, b: int)
    requires InRange(a) && InRange(b)
    ensures b == 0 ==> StrictOutcome(Divide, a, b) == StrictOutcome(Modulus, a, b) == Fails(DivideByZero)
    ensures b > 0 ==> StrictOutcome(Divide, a, b) == Value(a / b) && StrictOutcome(Modulus, a, b) == Value(a % b)
    ensures b < 0 ==>
      StrictOutcome(Divide, a, b) == Fit(-a / -b) && StrictOutcome(Modulus, a, b) == Value(-(-a % -b))
  {
    if b != 0 {
      DivisionPlain(a, b);
    }
    if b > 0 {
      QuotientInRange(a, b);
    }
  }

  lemma QuotientInRange(a: int, b: int)
    requires InRange(a) && b > 0
    ensures InRange(a / b)
  {
    var q := a / b;
    assert q * b <= a < q * b + b;
    if a >= 0 {
      Grows(q, b);
    } else {
      Grows(-q - 1, b);
    }
  }

  /** Division rounds down and the remainder has the sign of the divisor.  Dividing
      by 0 fails; the least 64-bit integer divided by -1 overflows. */
  lemma DivisionLaw(t: Tree, depth: nat, leaf: Valuation, a: int, b: int)
    requires IntegerTree(t) && (IsOp(t, Divide) || IsOp(t, Modulus)) && depth < 1000
    requires Meaning(t.left, depth + 1, leaf) == Value(a) && Meaning(t.right, depth + 1, leaf) == Value(b)
    ensures b == 0 ==> Meaning(t, depth, leaf) == Fails(DivideByZero)
    ensures b > 0 && IsOp(t, Divide) ==> Meaning(t, depth, leaf) == Value(a / b)
    ensures b < 0 && IsOp(t, Divide) ==> Meaning(t, depth, leaf) == Fit(-a / -b)
    ensures b > 0 && IsOp(t, Modulus) ==> Meaning(t, depth, leaf) == Value(a % b)
    ensures b < 0 && IsOp(t, Modulus) ==> Meaning(t, depth, leaf) == Value(-(-a % -b))
  {
    StrictOutcomeOf(t, depth, leaf, a, b);
    ValueWhenNothingFails(t.left, depth + 1, leaf);
    ValueWhenNothingFails(t.right, depth + 1, leaf);
    DivisionOutcome(a, b);
  }

  /** Powers: a negative exponent gives 0, and any other multiplies the base as often
      as it says. */
  lemma PowerLaw(t: Tree, depth: nat, leaf: Valuation, a: int, b: int)
    requires IntegerTree(t) && IsOp(t, Exponent) && depth < 1000
    requires Meaning(t.left, depth + 1, leaf) == Value(a) && Meaning(t.right, depth + 1, leaf) == Value(b)
    ensures b < 0 ==> Meaning(t, depth, leaf) == Value(0)
    ensures b >= 0 ==> Meaning(t, depth, leaf) == Fit(Power(a, b))
    ensures Power(a, 0) == 1 && forall k: nat :: Power(a, k + 1) == a * Power(a, k)
  {
    StrictOutcomeOf(t, depth, leaf, a, b);
  }

  /** The comparisons give 1 or 0. */
  lemma ComparisonLaw(t: Tree, depth: nat, leaf: Valuation, a: int, b: int)
    requires IntegerTree(t) && t.node.op.Some? && depth < 1000
    requires var op := t.node.op.value; op == Lt || op == Gt || op == Le || op == Ge || op == Eq || op == Ne
    requires Meaning(t.left, depth + 1, leaf) == Value(a) && Meaning(t.right, depth + 1, leaf) == Value(b)
    ensures IsOp(t, Lt) ==> Meaning(t, depth, leaf) == Value(if a < b then 1 else 0)
    ensures IsOp(t, Gt) ==> Meaning(t, depth, leaf) == Value(if a > b then 1 else 0)
    ensures IsOp(t, Le) ==> Meaning(t, depth, leaf) == Value(if a <= b then 1 else 0)
    ensures IsOp(t, Ge) ==> Meaning(t, depth, leaf) == Value(if a >= b then 1 else 0)
    ensures IsOp(t, Eq) ==> Meaning(t, depth, leaf) == Value(if a == b then 1 else 0)
    ensures IsOp(t, Ne) ==> Meaning(t, depth, leaf) == Value(if a != b then 1 else 0)
  {
    StrictOutcomeOf(t, depth, leaf, a, b);
  }

  /** The literals substituted, in order: those of the first operand, and then those of
      the operand that is needed next, if there is one. */
  lemma SubstitutionLaw(t: Tree, depth: nat, leaf: Valuation)
    requires IntegerTree(t)
    ensures depth >= 1000 ==> Tried(Trace(t, depth, leaf)) == []
    ensures depth < 1000 && t.node.op.None? ==> Tried(Trace(t, depth, leaf)) == [t.node]
    ensures depth < 1000 && t.node.op.Some? ==>
      var l := Meaning(t.left, depth + 1, leaf);
      Tried(Trace(t, depth, leaf)) == Tried(Trace(t.left, depth + 1, leaf)) +
        if l.Fails? || IsUnary(t.node.op.value) then []
        else if IsOp(t, TernaryQ) then Tried(Trace(if l.v == 0 then t.right.right else t.right.left, depth + 1, leaf))
        else if (IsOp(t, LogicalAnd) && l.v == 0) || (IsOp(t, LogicalOr) && l.v != 0) then []
        else Tried(Trace(t.right, depth + 1, leaf))
  {
    if depth >= 1000 {
      MeaningTooDeep(t, depth, leaf);
    } else if t.node.op.None? {
      LiteralTrace(t, depth, leaf);
    } else {
      TriedOperator(t, depth, leaf);
      NothingMore(Tried(Trace(t.left, depth + 1, leaf)));
    }
  }

  lemma NothingMore(a: seq<ExprNode>)
    ensures a + [] == a
  {
  }

  // ----- From the tokens to the answer

  /** `a + b * c` on literals: the product first, then the sum, each within int64. */
  lemma SumOfProduct(answer: Answer, a: ExprNode, x: ExprNode, b: ExprNode, y: ExprNode, c: ExprNode,
                     leaf: Valuation, i: int, j: int, k: int)
    requires a.op.None? && b.op.None? && c.op.None? && x.op == Some(Add) && y.op == Some(Multiply)
    requires leaf(a) == Some(i) && leaf(b) == Some(j) && leaf(c) == Some(k)
    requires Fit(i).Value? && Fit(j).Value? && Fit(k).Value?
    ensures var ts := [Leaf(a), Leaf(x), Leaf(b), Leaf(y), Leaf(c)];
            && IntegerTokens(ts)
            && (Answers(answer, ts, 0, leaf) <==>
                 && answer.Evaluated?
                 && Reported(answer.result) == if Fit(j * k).Fails? then Fit(j * k) else Fit(i + j * k))
  {
    var ts := [Leaf(a), Leaf(x), Leaf(b), Leaf(y), Leaf(c)];
    var product := Node(y, Leaf(b), Leaf(c));
    var t := Node(x, Leaf(a), product);
    SumOfProductBuilds(a, x, b, y, c);
    LiteralLaw(Leaf(a), 1, leaf);
    LiteralLaw(Leaf(b), 2, leaf);
    LiteralLaw(Leaf(c), 2, leaf);
    SumLaw(product, 1, leaf, j, k);
    if Fit(j * k).Value? {
      SumLaw(t, 0, leaf, i, j * k);
    } else {
      FailureLaw(t, 0, leaf);
    }
  }

  lemma SumOfProductBuilds(a: ExprNode, x: ExprNode, b: ExprNode, y: ExprNode, c: ExprNode)
    requires a.op.None? && b.op.None? && c.op.None? && x.op == Some(Add) && y.op == Some(Multiply)
    ensures Build([Leaf(a), Leaf(x), Leaf(b), Leaf(y), Leaf(c)], 0)
         == Some([Node(x, Leaf(a), Node(y, Leaf(b), Leaf(c)))])
    ensures IntegerTree(Node(x, Leaf(a), Node(y, Leaf(b), Leaf(c))))
  {
    assert InGroup(x, 2) && InGroup(y, 1);
    TwoOperators(Literal(a), x, Literal(b), y, Literal(c), 2, 1, 0);
    assert Tokens(Literal(a)) + [Leaf(x)] + Tokens(Literal(b)) + [Leaf(y)] + Tokens(Literal(c))
        == [Leaf(a), Leaf(x), Leaf(b), Leaf(y), Leaf(c)];
    assert IntegerTree(Leaf(a)) && IntegerTree(Leaf(b)) && IntegerTree(Leaf(c));
    assert IntegerTree(Node(y, Leaf(b), Leaf(c)));
  }
}
