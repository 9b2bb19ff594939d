/** Expression nodes, the trees they form, and the five phases of the tree
    builder seen as rewriting of a list of trees.

    The builder works on an array of slots, some of which it empties as it goes.
    Here a phase works on the list of the slots that are not empty; module
    ExprBuilder proves that the in-place loops compute exactly these functions. */
module ExprTree {
  import opened Operators

  /** The deepest parenthesis nesting the builder follows. */
  const MAX_EXPR_DEPTH: nat := 1000

  /** A token, and later a tree node: an operator, or a literal when op is None. */
  class ExprNode {
    const op: Option<Operator>
    const value: string
    var left: ExprNode?
    var right: ExprNode?

    constructor (op: Option<Operator>, value: string)
      ensures this.op == op && this.value == value
      ensures left == null && right == null
    {
      this.op, this.value := op, value;
      left, right := null, null;
    }
  }

  /** The tree hanging off a slot: Nil for an empty slot. */
  datatype Tree = Nil | Node(node: ExprNode, left: Tree, right: Tree)

  function Leaf(n: ExprNode): Tree {
    Node(n, Nil, Nil)
  }

  predicate IsOp(t: Tree, op: Operator) {
    t.Node? && t.node.op == Some(op)
  }

  predicate HasPrecedence(t: Tree, p: int) {
    t.Node? && t.node.op.Some? && Precedence(t.node.op.value) == p
  }

  /** A literal, or an operator that already has its left operand. */
  predicate IsTerm(t: Tree) {
    t.Node? && (t.node.op.None? || t.left.Node?)
  }

  /** An operator of level p still waiting for its operands. */
  predicate Open(t: Tree, p: int) {
    HasPrecedence(t, p) && t.left.Nil?
  }

  // ----- Phase 1: parentheses

  /** How nest open brackets become nest' after the token t. */
  function NestAfter(t: Tree, nest: nat): int {
    nest + (if IsOp(t, OpenBracket) then 1 else 0) - (if IsOp(t, CloseBracket) then 1 else 0)
  }

  /** The index in ts of the bracket that closes the outermost of nest open
      ones; |ts| when there is none. */
  function CloseIndex(ts: seq<Tree>, nest: nat): (m: nat)
    requires 0 < nest
    ensures m <= |ts|
  {
    if ts == [] || NestAfter(ts[0], nest) == 0 then 0
    else 1 + CloseIndex(ts[1..], NestAfter(ts[0], nest))
  }

  /** What the closing index points at. */
  lemma {:induction false} ClosingToken(ts: seq<Tree>, nest: nat)
    requires 0 < nest && CloseIndex(ts, nest) < |ts|
    ensures IsOp(ts[CloseIndex(ts, nest)], CloseBracket)
  {
    if NestAfter(ts[0], nest) != 0 {
      ClosingToken(ts[1..], NestAfter(ts[0], nest));
    }
  }

  /** Phase 1 on ts, depth groups deep; the outermost call may start below 0, which
      allows that many more levels of parentheses. */
  function Brackets(ts: seq<Tree>, depth: int): Option<seq<Tree>>
    decreases |ts|, 0
  {
    if ts == [] then Some([])
    else if IsOp(ts[0], OpenBracket) then
      var m := CloseIndex(ts[1..], 1);
      if m == |ts| - 1 || m == 0 then None
      else
        var inner := Build(ts[1..m+1], depth + 1);
        if inner.None? then None
        else
          var tail := Brackets(ts[m+2..], depth);
          if tail.None? then None else Some(inner.value + tail.value)
    else
      var tail := Brackets(ts[1..], depth);
      if tail.None? then None else Some([ts[0]] + tail.value)
  }

  // ----- Phase 2: prefix operators, right to left

  /** t in front of a list that has been scanned. */
  function PrefixOnto(t: Tree, tail: seq<Tree>): Option<seq<Tree>> {
    if !Open(t, 1) then Some([t] + tail)
    else if tail == [] || !IsTerm(tail[0]) then None
    else Some([Node(t.node, tail[0], Nil)] + tail[1..])
  }

  function Prefixes(ts: seq<Tree>): Option<seq<Tree>> {
    if ts == [] then Some([])
    else
      var tail := Prefixes(ts[1..]);
      if tail.None? then None else PrefixOnto(ts[0], tail.value)
  }

  // ----- Phase 3: one binary level, left to right

  /** done has been scanned, rest has not. */
  function Binaries(p: int, done: seq<Tree>, rest: seq<Tree>): Option<seq<Tree>>
    decreases |rest|
  {
    if rest == [] then Some(done)
    else if !Open(rest[0], p) then Binaries(p, done + [rest[0]], rest[1..])
    else if done == [] || !IsTerm(done[|done|-1]) || |rest| < 2 || !IsTerm(rest[1]) then None
    else Binaries(p, done[..|done|-1] + [Node(rest[0].node, done[|done|-1], rest[1])], rest[2..])
  }

  lemma BinaryStep(p: int, op: Tree, done: seq<Tree>, l: Tree, r: Tree, rest: seq<Tree>)
    requires Open(op, p) && IsTerm(l) && IsTerm(r)
    ensures Binaries(p, done + [l], [op] + ([r] + rest)) == Binaries(p, done + [Node(op.node, l, r)], rest)
  {
    var done' := done + [l];
    assert done'[..|done'|-1] == done;
    assert ([op] + ([r] + rest))[2..] == rest;
  }

  /** Binary levels p..13 in turn. */
  function BinaryLevels(p: int, ts: seq<Tree>): Option<seq<Tree>>
    decreases 14 - p, ts
  {
    if p > 13 then Some(ts)
    else
      var next := Binaries(p, [], ts);
      if next.None? then None else BinaryLevels(p + 1, next.value)
  }

  // ----- Phase 4: ternaries, left to right

  predicate OpenTernary(t: Tree) {
    IsOp(t, TernaryQ) && t.left.Nil?
  }

  function TernaryNode(q: Tree, colon: Tree, cond: Tree, yes: Tree, no: Tree): Tree
    requires q.Node? && colon.Node?
  {
    Node(q.node, cond, Node(colon.node, yes, no))
  }

  function Ternaries(done: seq<Tree>, rest: seq<Tree>): Option<seq<Tree>>
    decreases |rest|
  {
    if rest == [] then Some(done)
    else if !OpenTernary(rest[0]) then Ternaries(done + [rest[0]], rest[1..])
    else if done == [] || !IsTerm(done[|done|-1]) then None
    else if |rest| < 4 || !IsTerm(rest[1]) || !IsOp(rest[2], TernaryC) || !IsTerm(rest[3]) then None
    else
      Ternaries(done[..|done|-1] + [TernaryNode(rest[0], rest[2], done[|done|-1], rest[1], rest[3])], rest[4..])
  }

  lemma TernaryStep(q: Tree, colon: Tree, done: seq<Tree>, cond: Tree, yes: Tree, no: Tree, rest: seq<Tree>)
    requires OpenTernary(q) && IsOp(colon, TernaryC)
    requires IsTerm(cond) && IsTerm(yes) && IsTerm(no)
    ensures Ternaries(done + [cond], [q] + ([yes] + ([colon] + ([no] + rest))))
         == Ternaries(done + [TernaryNode(q, colon, cond, yes, no)], rest)
  {
    var done' := done + [cond];
    assert done'[..|done'|-1] == done;
    var ts := [q] + ([yes] + ([colon] + ([no] + rest)));
    assert ts[4..] == rest;
  }

  // ----- Phase 5: assignments, right to left

  predicate OpenAssign(t: Tree) {
    IsOp(t, VarAssign) && t.left.Nil?
  }

  /** todo has not been scanned, done has. */
  function Assigns(todo: seq<Tree>, done: seq<Tree>): Option<seq<Tree>>
    decreases |todo|
  {
    if todo == [] then Some(done)
    else
      var k := |todo| - 1;
      if !OpenAssign(todo[k]) then Assigns(todo[..k], [todo[k]] + done)
      else if k == 0 || !IsTerm(todo[k-1]) || done == [] || !IsTerm(done[0]) then None
      else Assigns(todo[..k-1], [Node(todo[k].node, todo[k-1], done[0])] + done[1..])
  }

  lemma AssignStep(op: Tree, todo: seq<Tree>, l: Tree, r: Tree, done: seq<Tree>)
    requires OpenAssign(op) && IsTerm(l) && IsTerm(r)
    ensures Assigns(todo + [l] + [op], [r] + done) == Assigns(todo, [Node(op.node, l, r)] + done)
  {
    var ts := todo + [l] + [op];
    assert ts[..|ts|-2] == todo;
    assert ([r] + done)[1..] == done;
  }

  // ----- The whole builder

  /** Phases 2 to 5. */
  function FoldOperators(ts: seq<Tree>): Option<seq<Tree>> {
    var unary := Prefixes(ts);
    if unary.None? then None
    else
      var binary := BinaryLevels(2, unary.value);
      if binary.None? then None
      else
        var ternary := Ternaries([], binary.value);
        if ternary.None? then None else Assigns(ternary.value, [])
  }

  function Build(ts: seq<Tree>, depth: int): Option<seq<Tree>>
    decreases |ts|, 1
  {
    if depth > MAX_EXPR_DEPTH || ts == [] then None
    else
      var flat := Brackets(ts, depth);
      if flat.None? then None else FoldOperators(flat.value)
  }
}
