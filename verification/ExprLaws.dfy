/** What the precedence table comes to, said with the names of the operators: the
    binary operators in groups from the tightest to the loosest, and the tree that
    any row of operands and operators builds to. */
module ExprLaws {
  import opened Operators
  import opened ExprTree
  import opened ExprGrammar
  import opened ExprShape
  import opened ExprPrint

  const PREFIX_OPERATORS: seq<Operator> := [UnaryMinus, UnaryPlus, BitwiseNot, LogicalNot]

  /** The binary operators, tightest first. */
  const BINARY_GROUPS: seq<seq<Operator>> := [
    [Exponent],
    [Multiply, Divide, Modulus],
    [Add, Subtract],
    [LeftShift, RightShift],
    [Lt, Gt, Le, Ge],
    [Eq, Ne],
    [StrEq, StrNe, In, Ni],
    [BitwiseAnd],
    [BitwiseXor],
    [BitwiseOr],
    [LogicalAnd],
    [LogicalOr]
  ]

  predicate InGroup(n: ExprNode, g: nat) {
    g < |BINARY_GROUPS| && n.op.Some? && n.op.value in BINARY_GROUPS[g]
  }

  predicate IsPrefix(n: ExprNode) {
    n.op.Some? && n.op.value in PREFIX_OPERATORS
  }

  /** The groups are the levels of the precedence table. */
  lemma LevelOfGroup(n: ExprNode, g: nat)
    ensures InGroup(n, g) ==> NodePrecedence(n) == g + 2
    ensures IsPrefix(n) ==> NodePrecedence(n) == 1
  {
    if InGroup(n, g) {
      if g < 6 {
        EarlyGroups(n.op.value, g);
      } else {
        LateGroups(n.op.value, g);
      }
    }
  }

  lemma EarlyGroups(op: Operator, g: nat)
    requires g < 6 && op in BINARY_GROUPS[g]
    ensures Precedence(op) == g + 2
  {
  }

  lemma LateGroups(op: Operator, g: nat)
    requires 6 <= g < |BINARY_GROUPS| && op in BINARY_GROUPS[g]
    ensures Precedence(op) == g + 2
  {
  }

  // ----- Rows of operands and operators

  /** What a prefix operator or a binary operator may stand next to: a literal, a
      parenthesised expression, or another prefix operator with its operand. */
  ghost predicate IsOperand(e: Expr) {
    match e
    case Literal(tok) => tok.op.None?
    case Prefix(op, arg) => IsPrefix(op) && IsOperand(arg)
    case Infix(_, _, _) => false
    case Paren(open, close, body) => IsPair(open, close) && Expression(body)
  }

  /** Operands and the binary operators between them, each with its group. */
  ghost predicate IsChain(es: seq<Expr>, ops: seq<ExprNode>, groups: seq<nat>) {
    && |es| == |ops| + 1 && |groups| == |ops|
    && (forall i | 0 <= i < |es| :: IsOperand(es[i]))
    && (forall i | 0 <= i < |ops| :: InGroup(ops[i], groups[i]))
  }

  /** The operands es[lo..hi+1] with the operators ops[lo..hi] between them, as written. */
  function ChainText(es: seq<Expr>, ops: seq<ExprNode>, lo: nat, hi: nat): seq<Tree>
    requires |es| == |ops| + 1 && lo <= hi <= |ops|
  {
    if lo == hi then Tokens(es[lo])
    else ChainText(es, ops, lo, hi - 1) + [Leaf(ops[hi-1])] + Tokens(es[hi])
  }

  /** Where in groups[lo..hi] the last largest one is: the operator that binds most loosely. */
  function Loosest(groups: seq<nat>, lo: nat, hi: nat): (k: nat)
    requires lo < hi <= |groups|
    ensures lo <= k < hi
  {
    if lo == hi - 1 then lo
    else
      var k := Loosest(groups, lo, hi - 1);
      if groups[k] <= groups[hi-1] then hi - 1 else k
  }

  lemma {:induction false} LoosestMeans(groups: seq<nat>, lo: nat, hi: nat)
    requires lo < hi <= |groups|
    ensures var k := Loosest(groups, lo, hi);
            && (forall i | lo <= i < k :: groups[i] <= groups[k])
            && (forall i | k < i < hi :: groups[i] < groups[k])
  {
    if lo < hi - 1 {
      LoosestMeans(groups, lo, hi - 1);
    }
  }

  /** How such a row reads: the last operator of the loosest group is on top, with
      the rows on its two sides below it. */
  function ChainExpr(es: seq<Expr>, ops: seq<ExprNode>, groups: seq<nat>, lo: nat, hi: nat): Expr
    requires |es| == |ops| + 1 && |groups| == |ops| && lo <= hi <= |ops|
    decreases hi - lo
  {
    if lo == hi then es[lo]
    else
      var k := Loosest(groups, lo, hi);
      Infix(ops[k], ChainExpr(es, ops, groups, lo, k), ChainExpr(es, ops, groups, k + 1, hi))
  }

  lemma {:induction false} OperandReads(e: Expr)
    requires IsOperand(e)
    ensures Operand(e, 1)
  {
    if e.Prefix? {
      OperandReads(e.arg);
      LevelOfGroup(e.op, 0);
    }
    assert Grammatical(e) && Level(e) <= 1 && !IsArms(e);
  }

  /** The level of the loosest operator; that of a prefix operator if there is none. */
  function Looseness(groups: seq<nat>, lo: nat, hi: nat): nat
    requires lo <= hi <= |groups|
  {
    if lo == hi then 1 else groups[Loosest(groups, lo, hi)] + 2
  }

  /** Right of the loosest operator everything is tighter, left of it nothing is looser. */
  lemma SidesTighter(groups: seq<nat>, lo: nat, k: nat, hi: nat)
    requires lo < hi <= |groups| && k == Loosest(groups, lo, hi)
    ensures Looseness(groups, lo, k) <= Looseness(groups, lo, hi)
    ensures Looseness(groups, k + 1, hi) < Looseness(groups, lo, hi)
  {
    LoosestMeans(groups, lo, hi);
  }

  /** The facts about a row that its reading depends on. */
  ghost predicate Levelled(es: seq<Expr>, ops: seq<ExprNode>, groups: seq<nat>) {
    && |es| == |ops| + 1 && |groups| == |ops|
    && (forall i | 0 <= i < |es| :: Operand(es[i], 1))
    && (forall i | 0 <= i < |ops| :: ops[i].op.Some? && NodePrecedence(ops[i]) == groups[i] + 2 <= 13)
  }

  lemma ChainLevelled(es: seq<Expr>, ops: seq<ExprNode>, groups: seq<nat>)
    requires IsChain(es, ops, groups)
    ensures Levelled(es, ops, groups)
  {
    forall i | 0 <= i < |es|
      ensures Operand(es[i], 1)
    {
      OperandReads(es[i]);
    }
    forall i | 0 <= i < |ops|
      ensures ops[i].op.Some? && NodePrecedence(ops[i]) == groups[i] + 2 <= 13
    {
      LevelOfGroup(ops[i], groups[i]);
    }
  }

  /** A row is an expression in which every operator has what its level allows. */
  lemma {:induction false} ChainReads(es: seq<Expr>, ops: seq<ExprNode>, groups: seq<nat>, lo: nat, hi: nat)
    requires Levelled(es, ops, groups) && lo <= hi <= |ops|
    ensures Operand(ChainExpr(es, ops, groups, lo, hi), Looseness(groups, lo, hi)) && Looseness(groups, lo, hi) <= 13
    decreases hi - lo
  {
    if lo < hi {
      var k := Loosest(groups, lo, hi);
      var l, r := ChainExpr(es, ops, groups, lo, k), ChainExpr(es, ops, groups, k + 1, hi);
      ChainReads(es, ops, groups, lo, k);
      ChainReads(es, ops, groups, k + 1, hi);
      SidesTighter(groups, lo, k, hi);
      BinaryOf(ops[k], l, r, Looseness(groups, lo, k), Looseness(groups, k + 1, hi), Looseness(groups, lo, hi));
    }
  }

  lemma BinaryOf(n: ExprNode, l: Expr, r: Expr, p: int, q: int, level: int)
    requires n.op.Some? && 2 <= NodePrecedence(n) == level <= 13
    requires Operand(l, p) && p <= level && Operand(r, q) && q < level
    ensures Operand(Infix(n, l, r), level)
  {
    LooseLevels(n.op.value);
    Looser(l, p, level);
    Looser(r, q, level - 1);
    assert Grammatical(Infix(n, l, r));
  }

  /** A row is written as its left part, an operator, and its right part. */
  lemma {:induction false} TextSplit(es: seq<Expr>, ops: seq<ExprNode>, lo: nat, k: nat, hi: nat)
    requires |es| == |ops| + 1 && lo <= k < hi <= |ops|
    ensures ChainText(es, ops, lo, hi)
         == ChainText(es, ops, lo, k) + [Leaf(ops[k])] + ChainText(es, ops, k + 1, hi)
    decreases hi
  {
    if k < hi - 1 {
      TextSplit(es, ops, lo, k, hi - 1);
    }
  }

  lemma {:induction false} ChainTokens(es: seq<Expr>, ops: seq<ExprNode>, groups: seq<nat>, lo: nat, hi: nat)
    requires |es| == |ops| + 1 && |groups| == |ops| && lo <= hi <= |ops|
    ensures Tokens(ChainExpr(es, ops, groups, lo, hi)) == ChainText(es, ops, lo, hi)
    decreases hi - lo
  {
    if lo == hi {
      assert ChainText(es, ops, lo, hi) == Tokens(es[lo]);
    } else {
      var k := Loosest(groups, lo, hi);
      var l, r := ChainExpr(es, ops, groups, lo, k), ChainExpr(es, ops, groups, k + 1, hi);
      ChainTokens(es, ops, groups, lo, k);
      ChainTokens(es, ops, groups, k + 1, hi);
      TextSplit(es, ops, lo, k, hi);
      assert ChainText(es, ops, lo, hi) == Tokens(l) + [Leaf(ops[k])] + Tokens(r) == Tokens(Infix(ops[k], l, r));
    }
  }

  /** Any row of operands and binary operators builds as the groups say: of the
      operators in the loosest group the last one ends up on top. */
  lemma ChainBuilds(es: seq<Expr>, ops: seq<ExprNode>, groups: seq<nat>, depth: int)
    requires IsChain(es, ops, groups)
    ensures var e := ChainExpr(es, ops, groups, 0, |ops|);
            Build(ChainText(es, ops, 0, |ops|), depth) == if depth + Nesting(e) <= 1000 then Some([Shape(e)]) else None
  {
    var e := ChainExpr(es, ops, groups, 0, |ops|);
    ChainLevelled(es, ops, groups);
    ChainReads(es, ops, groups, 0, |ops|);
    ChainTokens(es, ops, groups, 0, |ops|);
    Looser(e, Looseness(groups, 0, |ops|), 15);
    BuildExactly(e, depth);
  }

  /** Two operators in a row: the second one is on top unless it binds tighter. */
  lemma TwoOperators(a: Expr, x: ExprNode, b: Expr, y: ExprNode, c: Expr, i: nat, j: nat, depth: int)
    requires IsOperand(a) && IsOperand(b) && IsOperand(c) && InGroup(x, i) && InGroup(y, j)
    ensures Build(Tokens(a) + [Leaf(x)] + Tokens(b) + [Leaf(y)] + Tokens(c), depth) ==
            if depth + Max(Nesting(a), Max(Nesting(b), Nesting(c))) > 1000 then None
            else if i <= j then Some([Node(y, Node(x, Shape(a), Shape(b)), Shape(c))])
            else Some([Node(x, Shape(a), Node(y, Shape(b), Shape(c)))])
  {
    var es, ops, groups := [a, b, c], [x, y], [i, j];
    ChainBuilds(es, ops, groups, depth);
    TwoText(es, ops);
    TwoReads(es, ops, groups);
  }

  lemma TwoText(es: seq<Expr>, ops: seq<ExprNode>)
    requires |es| == 3 && |ops| == 2
    ensures ChainText(es, ops, 0, 2)
         == Tokens(es[0]) + [Leaf(ops[0])] + Tokens(es[1]) + [Leaf(ops[1])] + Tokens(es[2])
  {
    assert ChainText(es, ops, 0, 0) == Tokens(es[0]);
    assert ChainText(es, ops, 0, 1) == Tokens(es[0]) + [Leaf(ops[0])] + Tokens(es[1]);
  }

  lemma TwoReads(es: seq<Expr>, ops: seq<ExprNode>, groups: seq<nat>)
    requires |es| == 3 && |ops| == |groups| == 2
    ensures ChainExpr(es, ops, groups, 0, 2) ==
            if groups[0] <= groups[1] then Infix(ops[1], Infix(ops[0], es[0], es[1]), es[2])
            else Infix(ops[0], es[0], Infix(ops[1], es[1], es[2]))
  {
    assert Loosest(groups, 0, 1) == 0 && Loosest(groups, 1, 2) == 1;
    assert ChainExpr(es, ops, groups, 0, 0) == es[0];
    assert ChainExpr(es, ops, groups, 1, 1) == es[1];
    assert ChainExpr(es, ops, groups, 2, 2) == es[2];
    assert ChainExpr(es, ops, groups, 0, 1) == Infix(ops[0], es[0], es[1]);
    assert ChainExpr(es, ops, groups, 1, 2) == Infix(ops[1], es[1], es[2]);
  }

  /** Prefix operators come before every binary operator, on either side of it. */
  lemma PrefixFirst(m: ExprNode, a: Expr, x: ExprNode, w: ExprNode, b: Expr, i: nat, depth: int)
    requires IsPrefix(m) && IsPrefix(w) && InGroup(x, i) && IsOperand(a) && IsOperand(b)
    ensures Build([Leaf(m)] + Tokens(a) + [Leaf(x)] + ([Leaf(w)] + Tokens(b)), depth) ==
            if depth + Max(Nesting(a), Nesting(b)) > 1000 then None
            else Some([Node(x, Node(m, Shape(a), Nil), Node(w, Shape(b), Nil))])
  {
    var es, ops, groups := [Prefix(m, a), Prefix(w, b)], [x], [i];
    ChainBuilds(es, ops, groups, depth);
    assert ChainText(es, ops, 0, 0) == Tokens(es[0]);
    assert ChainExpr(es, ops, groups, 0, 0) == es[0] && ChainExpr(es, ops, groups, 1, 1) == es[1];
    assert ChainExpr(es, ops, groups, 0, 1) == Infix(x, es[0], es[1]);
  }

  // ----- Conditionals and assignments over such rows

  /** Operands, the binary operators between them, and the groups of those. */
  datatype Row = Row(es: seq<Expr>, ops: seq<ExprNode>, groups: seq<nat>)

  ghost predicate IsRow(r: Row) {
    IsChain(r.es, r.ops, r.groups)
  }

  function RowText(r: Row): seq<Tree>
    requires |r.es| == |r.ops| + 1
  {
    ChainText(r.es, r.ops, 0, |r.ops|)
  }

  function RowExpr(r: Row): Expr
    requires |r.es| == |r.ops| + 1 == |r.groups| + 1
  {
    ChainExpr(r.es, r.ops, r.groups, 0, |r.ops|)
  }

  lemma RowReads(r: Row)
    requires IsRow(r)
    ensures Operand(RowExpr(r), 13) && Tokens(RowExpr(r)) == RowText(r)
  {
    ChainLevelled(r.es, r.ops, r.groups);
    ChainReads(r.es, r.ops, r.groups, 0, |r.ops|);
    ChainTokens(r.es, r.ops, r.groups, 0, |r.ops|);
    Looser(RowExpr(r), Looseness(r.groups, 0, |r.ops|), 13);
  }

  /** What follows a condition: `?`, a row, `:`, and another row. */
  datatype Arms = Arms(q: ExprNode, yes: Row, colon: ExprNode, no: Row)

  ghost predicate IsArm(arm: Arms) {
    arm.q.op == Some(TernaryQ) && arm.colon.op == Some(TernaryC) && IsRow(arm.yes) && IsRow(arm.no)
  }

  /** A row, and conditionals one after the other. */
  datatype Side = Side(first: Row, arms: seq<Arms>)

  ghost predicate IsSide(s: Side) {
    IsRow(s.first) && forall i | 0 <= i < |s.arms| :: IsArm(s.arms[i])
  }

  ghost function ArmText(arm: Arms): seq<Tree>
    requires IsArm(arm)
  {
    [Leaf(arm.q)] + RowText(arm.yes) + [Leaf(arm.colon)] + RowText(arm.no)
  }

  ghost function SideText(first: Row, arms: seq<Arms>): seq<Tree>
    requires IsSide(Side(first, arms))
  {
    if arms == [] then RowText(first)
    else
      assert IsSide(Side(first, arms[..|arms|-1]));
      SideText(first, arms[..|arms|-1]) + ArmText(arms[|arms|-1])
  }

  /** Conditionals group to the left: each is the condition of the next. */
  ghost function SideExpr(first: Row, arms: seq<Arms>): Expr
    requires IsSide(Side(first, arms))
  {
    if arms == [] then RowExpr(first)
    else
      assert IsSide(Side(first, arms[..|arms|-1]));
      Under(arms[|arms|-1], SideExpr(first, arms[..|arms|-1]))
  }

  /** The conditional with the condition cond. */
  ghost function Under(arm: Arms, cond: Expr): Expr
    requires IsArm(arm)
  {
    Infix(arm.q, cond, Infix(arm.colon, RowExpr(arm.yes), RowExpr(arm.no)))
  }

  lemma {:induction false} SideReads(first: Row, arms: seq<Arms>)
    requires IsSide(Side(first, arms))
    ensures Operand(SideExpr(first, arms), 14) && Tokens(SideExpr(first, arms)) == SideText(first, arms)
  {
    if arms == [] {
      RowReads(first);
      Looser(RowExpr(first), 13, 14);
    } else {
      var k := |arms| - 1;
      assert IsSide(Side(first, arms[..k]));
      SideReads(first, arms[..k]);
      ArmReads(arms[k], SideExpr(first, arms[..k]));
    }
  }

  lemma ArmReads(arm: Arms, cond: Expr)
    requires IsArm(arm) && Operand(cond, 14)
    ensures Operand(Under(arm, cond), 14) && Tokens(Under(arm, cond)) == Tokens(cond) + ArmText(arm)
  {
    var yes, no := RowExpr(arm.yes), RowExpr(arm.no);
    RowReads(arm.yes);
    RowReads(arm.no);
    TernaryOf(arm.q, arm.colon, cond, yes, no);
    TernaryTokens(arm.q, arm.colon, cond, yes, no);
  }

  lemma TernaryOf(q: ExprNode, colon: ExprNode, cond: Expr, yes: Expr, no: Expr)
    requires q.op == Some(TernaryQ) && colon.op == Some(TernaryC)
    requires Operand(cond, 14) && Operand(yes, 13) && Operand(no, 13)
    ensures Operand(Infix(q, cond, Infix(colon, yes, no)), 14)
  {
    var arms := Infix(colon, yes, no);
    assert Grammatical(arms) && IsArms(arms);
    assert Grammatical(Infix(q, cond, arms));
  }

  lemma TernaryTokens(q: ExprNode, colon: ExprNode, cond: Expr, yes: Expr, no: Expr)
    ensures Tokens(Infix(q, cond, Infix(colon, yes, no)))
         == Tokens(cond) + ([Leaf(q)] + Tokens(yes) + [Leaf(colon)] + Tokens(no))
  {
    assert Tokens(Infix(colon, yes, no)) == Tokens(yes) + [Leaf(colon)] + Tokens(no);
  }

  ghost predicate IsStatement(sides: seq<Side>, ops: seq<ExprNode>) {
    && |sides| == |ops| + 1
    && (forall i | 0 <= i < |sides| :: IsSide(sides[i]))
    && (forall i | 0 <= i < |ops| :: ops[i].op == Some(VarAssign))
  }

  /** The sides from the i-th on with `:=` between them. */
  ghost function StatementText(sides: seq<Side>, ops: seq<ExprNode>, i: nat): seq<Tree>
    requires IsStatement(sides, ops) && i <= |ops|
    decreases |ops| - i
  {
    var side := SideText(sides[i].first, sides[i].arms);
    if i == |ops| then side else side + [Leaf(ops[i])] + StatementText(sides, ops, i + 1)
  }

  /** Assignments group to the right. */
  ghost function StatementExpr(sides: seq<Side>, ops: seq<ExprNode>, i: nat): Expr
    requires IsStatement(sides, ops) && i <= |ops|
    decreases |ops| - i
  {
    var side := SideExpr(sides[i].first, sides[i].arms);
    if i == |ops| then side else Infix(ops[i], side, StatementExpr(sides, ops, i + 1))
  }

  lemma {:induction false} StatementReads(sides: seq<Side>, ops: seq<ExprNode>, i: nat)
    requires IsStatement(sides, ops) && i <= |ops|
    ensures Expression(StatementExpr(sides, ops, i))
    ensures Tokens(StatementExpr(sides, ops, i)) == StatementText(sides, ops, i)
    decreases |ops| - i
  {
    var side := SideExpr(sides[i].first, sides[i].arms);
    SideReads(sides[i].first, sides[i].arms);
    Looser(side, 14, 15);
    if i < |ops| {
      StatementReads(sides, ops, i + 1);
      AssignOf(ops[i], side, StatementExpr(sides, ops, i + 1));
    }
  }

  lemma AssignOf(op: ExprNode, l: Expr, r: Expr)
    requires op.op == Some(VarAssign) && Operand(l, 14) && Expression(r)
    ensures Expression(Infix(op, l, r)) && Tokens(Infix(op, l, r)) == Tokens(l) + [Leaf(op)] + Tokens(r)
  {
    assert Grammatical(Infix(op, l, r));
  }

  /** The loosest operators: `:=` takes whole conditionals and groups to the right,
      `?:` takes whole rows of binary operators and groups to the left. */
  lemma StatementBuilds(sides: seq<Side>, ops: seq<ExprNode>, depth: int)
    requires IsStatement(sides, ops)
    ensures var e := StatementExpr(sides, ops, 0);
            Build(StatementText(sides, ops, 0), depth) == if depth + Nesting(e) <= 1000 then Some([Shape(e)]) else None
  {
    StatementReads(sides, ops, 0);
    BuildExactly(StatementExpr(sides, ops, 0), depth);
  }

  /** Two conditionals in a row: the first one is the condition of the second. */
  lemma TwoConditionals(cond: Row, a: Arms, b: Arms, depth: int)
    requires IsRow(cond) && IsArm(a) && IsArm(b)
    ensures var e := Under(b, Under(a, RowExpr(cond)));
            && Build(RowText(cond) + ArmText(a) + ArmText(b), depth)
              == (if depth + Nesting(e) <= 1000 then Some([Shape(e)]) else None)
            && Shape(e) ==
                 Node(b.q,
                      Node(a.q, Shape(RowExpr(cond)), Node(a.colon, Shape(RowExpr(a.yes)), Shape(RowExpr(a.no)))),
                      Node(b.colon, Shape(RowExpr(b.yes)), Shape(RowExpr(b.no))))
  {
    var e := Under(b, Under(a, RowExpr(cond)));
    RowReads(cond);
    Looser(RowExpr(cond), 13, 14);
    ArmReads(a, RowExpr(cond));
    ArmReads(b, Under(a, RowExpr(cond)));
    Looser(e, 14, 15);
    BuildExactly(e, depth);
    assert Shape(Under(a, RowExpr(cond)))
        == Node(a.q, Shape(RowExpr(cond)), Node(a.colon, Shape(RowExpr(a.yes)), Shape(RowExpr(a.no))));
  }

  /** Two assignments in a row: the second one is the right side of the first; a
      conditional is tighter than either. */
  lemma TwoAssignments(a: Row, x: ExprNode, b: Row, y: ExprNode, c: Row, arm: Arms, depth: int)
    requires IsRow(a) && IsRow(b) && IsRow(c) && IsArm(arm)
    requires x.op == Some(VarAssign) && y.op == Some(VarAssign)
    ensures var e := Infix(x, RowExpr(a), Infix(y, RowExpr(b), Under(arm, RowExpr(c))));
            && Build(RowText(a) + [Leaf(x)] + (RowText(b) + [Leaf(y)] + (RowText(c) + ArmText(arm))), depth)
              == (if depth + Nesting(e) <= 1000 then Some([Shape(e)]) else None)
            && Shape(e) ==
                 Node(x, Shape(RowExpr(a)), Node(y, Shape(RowExpr(b)), Shape(Under(arm, RowExpr(c)))))
  {
    var side := Under(arm, RowExpr(c));
    var inner := Infix(y, RowExpr(b), side);
    RowReads(a);
    RowReads(b);
    RowReads(c);
    Looser(RowExpr(a), 13, 14);
    Looser(RowExpr(b), 13, 14);
    Looser(RowExpr(c), 13, 14);
    ArmReads(arm, RowExpr(c));
    Looser(side, 14, 15);
    AssignOf(y, RowExpr(b), side);
    AssignOf(x, RowExpr(a), inner);
    BuildExactly(Infix(x, RowExpr(a), inner), depth);
  }

  // ----- Parentheses

  function Repeated(t: Tree, n: nat): seq<Tree> {
    if n == 0 then [] else Repeated(t, n - 1) + [t]
  }

  /** e in n pairs of parentheses. */
  function Nested(open: ExprNode, close: ExprNode, e: Expr, n: nat): Expr {
    if n == 0 then e else Paren(open, close, Nested(open, close, e, n - 1))
  }

  lemma {:induction false} RepeatedFront(t: Tree, n: nat)
    requires n > 0
    ensures Repeated(t, n) == [t] + Repeated(t, n - 1)
  {
    if n > 1 {
      RepeatedFront(t, n - 1);
    } else {
      assert Repeated(t, 0) == [];
    }
  }

  lemma {:induction false} NestedReads(open: ExprNode, close: ExprNode, e: Expr, n: nat)
    requires IsPair(open, close) && Operand(e, 0)
    ensures var f := Nested(open, close, e, n);
            Operand(f, 0) && Shape(f) == Shape(e) && Nesting(f) == Nesting(e) + n
  {
    if n > 0 {
      NestedReads(open, close, e, n - 1);
      PairReads(open, close, Nested(open, close, e, n - 1));
    }
  }

  lemma {:induction false} NestedTokens(open: ExprNode, close: ExprNode, e: Expr, n: nat)
    ensures Tokens(Nested(open, close, e, n)) == Repeated(Leaf(open), n) + Tokens(e) + Repeated(Leaf(close), n)
  {
    if n > 0 {
      var inner := Tokens(Nested(open, close, e, n - 1));
      NestedTokens(open, close, e, n - 1);
      RepeatedFront(Leaf(open), n);
      assert Tokens(Nested(open, close, e, n)) == [Leaf(open)] + inner + [Leaf(close)];
    }
  }

  lemma PairReads(open: ExprNode, close: ExprNode, e: Expr)
    requires IsPair(open, close) && Operand(e, 0)
    ensures Operand(Paren(open, close, e), 0)
  {
    Looser(e, 0, 15);
    assert Grammatical(Paren(open, close, e));
  }

  /** A literal in n pairs of parentheses builds exactly when n is at most 1000. */
  lemma ParenthesesLimit(open: ExprNode, close: ExprNode, a: ExprNode, n: nat)
    requires IsPair(open, close) && a.op.None?
    ensures Build(Repeated(Leaf(open), n) + [Leaf(a)] + Repeated(Leaf(close), n), 0)
         == if n <= 1000 then Some([Leaf(a)]) else None
  {
    var e := Nested(open, close, Literal(a), n);
    LiteralTight(a);
    NestedReads(open, close, Literal(a), n);
    NestedTokens(open, close, Literal(a), n);
    Looser(e, 0, 15);
    BuildExactly(e, 0);
  }
}
