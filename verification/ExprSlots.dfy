/** Rows of slots, each empty or holding a tree: what is left when the empty ones
    are skipped, the order the nodes are read in, and what a binding changes.

    A binding empties the slots of the operands and leaves the operator's tree in its
    own slot.  Neither the list of the trees that are left nor the nodes in reading
    order, brackets aside, depends on where the empty slots are, which is all that
    the loops of module ExprBuilder have to know about them. */
module ExprSlots {
  import opened Operators
  import opened ExprTree
  import opened ExprHeap
  import opened Sequences

  // ----- Skipping empty slots

  /** The trees in slots a..b, in order. */
  function Compact(ts: seq<Tree>, a: int, b: int): seq<Tree>
    requires 0 <= a <= b <= |ts|
    decreases b - a
  {
    if a == b then []
    else if ts[a].Nil? then Compact(ts, a + 1, b)
    else [ts[a]] + Compact(ts, a + 1, b)
  }

  lemma {:induction false} CompactSplit(ts: seq<Tree>, a: int, m: int, b: int)
    requires 0 <= a <= m <= b <= |ts|
    ensures Compact(ts, a, b) == Compact(ts, a, m) + Compact(ts, m, b)
    decreases m - a
  {
    if a < m {
      CompactSplit(ts, a + 1, m, b);
    }
  }

  lemma {:induction false} CompactNils(ts: seq<Tree>, a: int, b: int)
    requires 0 <= a <= b <= |ts|
    requires forall k | a <= k < b :: ts[k].Nil?
    ensures Compact(ts, a, b) == []
    decreases b - a
  {
    if a < b {
      CompactNils(ts, a + 1, b);
    }
  }

  /** Empty slots at the front do not matter. */
  lemma {:induction false} CompactAfter(ts: seq<Tree>, a: int, m: int, b: int)
    requires 0 <= a <= m <= b <= |ts| && forall k | a <= k < m :: ts[k].Nil?
    ensures Compact(ts, a, b) == Compact(ts, m, b)
    decreases m - a
  {
    if a < m {
      CompactAfter(ts, a + 1, m, b);
    }
  }

  /** Empty slots at the end do not matter. */
  lemma {:induction false} CompactBefore(ts: seq<Tree>, a: int, m: int, b: int)
    requires 0 <= a <= m <= b <= |ts| && forall k | m <= k < b :: ts[k].Nil?
    ensures Compact(ts, a, b) == Compact(ts, a, m)
    decreases m - a
  {
    if a < m {
      CompactBefore(ts, a + 1, m, b);
    } else {
      CompactNils(ts, m, b);
    }
  }

  lemma {:induction false} CompactSame(ts: seq<Tree>, us: seq<Tree>, a: int, b: int)
    requires 0 <= a <= b <= |ts| && |us| == |ts|
    requires forall k | a <= k < b :: ts[k] == us[k]
    ensures Compact(ts, a, b) == Compact(us, a, b)
    decreases b - a
  {
    if a < b {
      CompactSame(ts, us, a + 1, b);
    }
  }

  lemma {:induction false} StepOver(ts: seq<Tree>, lo: int, j: int)
    requires 0 <= lo <= j < |ts|
    ensures Compact(ts, lo, j + 1) == if ts[j].Nil? then Compact(ts, lo, j) else Compact(ts, lo, j) + [ts[j]]
    decreases j - lo
  {
    if lo < j {
      StepOver(ts, lo + 1, j);
    } else {
      assert Compact(ts, j + 1, j + 1) == Compact(ts, j, j) == [];
    }
  }

  /** i is the first occupied slot from a on, hi if there is none. */
  ghost predicate NextOccupied(ts: seq<Tree>, a: int, i: int, hi: int) {
    && 0 <= a <= i <= hi <= |ts|
    && (forall k | a <= k < i :: ts[k].Nil?)
    && (i < hi ==> ts[i].Node?)
  }

  /** i is the last occupied slot before b, lo - 1 if there is none. */
  ghost predicate PrevOccupied(ts: seq<Tree>, lo: int, i: int, b: int) {
    && 0 <= lo && lo - 1 <= i < b <= |ts|
    && (forall k | i < k < b :: ts[k].Nil?)
    && (lo <= i ==> ts[i].Node?)
  }

  lemma CompactNext(ts: seq<Tree>, a: int, i: int, hi: int)
    requires NextOccupied(ts, a, i, hi)
    ensures Compact(ts, a, hi) == if i == hi then [] else [ts[i]] + Compact(ts, i + 1, hi)
  {
    CompactAfter(ts, a, i, hi);
  }

  lemma CompactPrev(ts: seq<Tree>, lo: int, i: int, b: int)
    requires PrevOccupied(ts, lo, i, b)
    ensures Compact(ts, lo, b) == if i == lo - 1 then [] else Compact(ts, lo, i) + [ts[i]]
  {
    CompactBefore(ts, lo, i + 1, b);
    if lo <= i {
      StepOver(ts, lo, i);
    }
  }

  // ----- The order of reading

  /** The nodes in slots a..b, in the order their tokens were written. */
  function ReadingAll(ts: seq<Tree>, a: int, b: int): seq<ExprNode>
    requires 0 <= a <= b <= |ts|
    decreases b - a
  {
    if a == b then []
    else if ts[a].Nil? then ReadingAll(ts, a + 1, b)
    else Reading(ts[a]) + ReadingAll(ts, a + 1, b)
  }

  lemma {:induction false} ReadingSplit(ts: seq<Tree>, a: int, m: int, b: int)
    requires 0 <= a <= m <= b <= |ts|
    ensures ReadingAll(ts, a, b) == ReadingAll(ts, a, m) + ReadingAll(ts, m, b)
    decreases m - a
  {
    if a < m {
      ReadingSplit(ts, a + 1, m, b);
      ConcatAssoc(Reading(ts[a]), ReadingAll(ts, a + 1, m), ReadingAll(ts, m, b));
    }
  }

  lemma {:induction false} ReadingAfter(ts: seq<Tree>, a: int, m: int, b: int)
    requires 0 <= a <= m <= b <= |ts| && forall k | a <= k < m :: ts[k].Nil?
    ensures ReadingAll(ts, a, b) == ReadingAll(ts, m, b)
    decreases m - a
  {
    if a < m {
      ReadingAfter(ts, a + 1, m, b);
    }
  }

  lemma {:induction false} ReadingSame(ts: seq<Tree>, us: seq<Tree>, a: int, b: int)
    requires 0 <= a <= b <= |ts| && |us| == |ts|
    requires forall k | a <= k < b :: ts[k] == us[k]
    ensures ReadingAll(ts, a, b) == ReadingAll(us, a, b)
    decreases b - a
  {
    if a < b {
      ReadingSame(ts, us, a + 1, b);
    }
  }

  /** The first of a range of slots, the rest up to the next one being empty. */
  lemma ReadingFirst(ts: seq<Tree>, a: int, m: int, b: int)
    requires 0 <= a < m <= b <= |ts| && ts[a].Node?
    requires forall k | a < k < m :: ts[k].Nil?
    ensures ReadingAll(ts, a, b) == Reading(ts[a]) + ReadingAll(ts, m, b)
  {
    ReadingAfter(ts, a + 1, m, b);
  }

  /** A range with one occupied slot reads as that slot's tree. */
  lemma ReadingOne(ts: seq<Tree>, a: int, j: int, b: int)
    requires 0 <= a <= j < b <= |ts| && ts[j].Node?
    requires forall k | a <= k < b && k != j :: ts[k].Nil?
    ensures ReadingAll(ts, a, b) == Reading(ts[j])
  {
    ReadingAfter(ts, a, j, b);
    ReadingAfter(ts, j + 1, b, b);
    assert ReadingAll(ts, b, b) == [];
  }

  /** Replacing a window by one that reads the same keeps the reading. */
  lemma ReadingWindow(ts: seq<Tree>, us: seq<Tree>, a: int, b: int)
    requires |ts| == |us| && 0 <= a <= b <= |ts|
    requires forall k | 0 <= k < |ts| && !(a <= k < b) :: ts[k] == us[k]
    requires ReadingAll(ts, a, b) == ReadingAll(us, a, b)
    ensures ReadingAll(ts, 0, |ts|) == ReadingAll(us, 0, |us|)
  {
    ReadingSplit(ts, 0, a, |ts|);
    ReadingSplit(us, 0, a, |ts|);
    ReadingSplit(ts, a, b, |ts|);
    ReadingSplit(us, a, b, |ts|);
    ReadingSame(ts, us, 0, a);
    ReadingSame(ts, us, b, |ts|);
  }

  predicate IsBracket(n: ExprNode) {
    n.op == Some(OpenBracket) || n.op == Some(CloseBracket)
  }

  /** ns without its brackets. */
  function Unbracketed(ns: seq<ExprNode>): seq<ExprNode> {
    if ns == [] then [] else (if IsBracket(ns[0]) then [] else [ns[0]]) + Unbracketed(ns[1..])
  }

  lemma {:induction false} UnbracketedConcat(a: seq<ExprNode>, b: seq<ExprNode>)
    ensures Unbracketed(a + b) == Unbracketed(a) + Unbracketed(b)
  {
    if a == [] {
      assert a + b == b;
    } else {
      assert (a + b)[1..] == a[1..] + b;
      UnbracketedConcat(a[1..], b);
    }
  }

  // ----- What a binding does to the row

  /** A root that a later phase may still have to deal with. */
  predicate Raw(t: Tree) {
    t.Node? && (t.left.Nil? || IsOp(t, TernaryC))
  }

  /** us comes from ts by bindings between lo and hi: nothing else moved, no new
      raw root appeared, and the nodes still read in the same order. */
  ghost predicate Rearranges(ts: seq<Tree>, us: seq<Tree>, lo: int, hi: int) {
    && |us| == |ts|
    && (forall i | 0 <= i < |ts| && !(lo <= i < hi) :: us[i] == ts[i])
    && (forall i | 0 <= i < |us| && Raw(us[i]) :: us[i] == ts[i])
    && ReadingAll(us, 0, |us|) == ReadingAll(ts, 0, |ts|)
  }

  /** Slots l, j and r are occupied and those between them are empty. */
  ghost predicate Adjacent(ts: seq<Tree>, l: int, j: int, r: int) {
    && 0 <= l < j < r < |ts|
    && ts[l].Node? && ts[j].Node? && ts[r].Node?
    && (forall k | l < k < r && k != j :: ts[k].Nil?)
  }

  /** The operator in slot j has taken the trees of slots l and r. */
  function Bound(ts: seq<Tree>, l: int, j: int, r: int): seq<Tree>
    requires 0 <= l < j < r < |ts| && ts[j].Node?
  {
    ts[j := Node(ts[j].node, ts[l], ts[r])][l := Nil][r := Nil]
  }

  /** us is ts with the window a..b collapsed into the one tree in slot j. */
  ghost predicate Collapsed(ts: seq<Tree>, us: seq<Tree>, a: int, j: int, b: int) {
    && |us| == |ts| && 0 <= a <= j <= b < |ts| && us[j].Node?
    && (forall k | 0 <= k < |ts| && !(a <= k <= b) :: us[k] == ts[k])
    && (forall k | a <= k <= b && k != j :: us[k].Nil?)
  }

  lemma CollapsedReading(ts: seq<Tree>, us: seq<Tree>, a: int, j: int, b: int)
    requires Collapsed(ts, us, a, j, b) && ReadingAll(ts, a, b + 1) == Reading(us[j])
    ensures ReadingAll(us, 0, |us|) == ReadingAll(ts, 0, |ts|)
  {
    ReadingOne(us, a, j, b + 1);
    ReadingWindow(ts, us, a, b + 1);
  }

  lemma LeafReading(t: Tree)
    requires t.Node? && t.left.Nil? && t.right.Nil?
    ensures Reading(t) == [t.node]
  {
  }

  lemma ThreeReading(ts: seq<Tree>, l: int, j: int, r: int)
    requires Adjacent(ts, l, j, r) && ts[j].left.Nil? && ts[j].right.Nil?
    ensures ReadingAll(ts, l, r + 1) == Reading(Node(ts[j].node, ts[l], ts[r]))
  {
    ReadingFirst(ts, l, j, r + 1);
    ReadingFirst(ts, j, r, r + 1);
    ReadingOne(ts, r, r, r + 1);
    LeafReading(ts[j]);
    ConcatAssoc(Reading(ts[l]), [ts[j].node], Reading(ts[r]));
  }

  lemma BoundReading(ts: seq<Tree>, l: int, j: int, r: int)
    requires Adjacent(ts, l, j, r) && ts[j].left.Nil? && ts[j].right.Nil?
    ensures ReadingAll(Bound(ts, l, j, r), 0, |ts|) == ReadingAll(ts, 0, |ts|)
  {
    ThreeReading(ts, l, j, r);
    CollapsedReading(ts, Bound(ts, l, j, r), l, j, r);
  }

  lemma BoundRearranges(ts: seq<Tree>, l: int, j: int, r: int, lo: int, hi: int)
    requires Adjacent(ts, l, j, r) && ts[j].left.Nil? && ts[j].right.Nil?
    requires 0 <= lo <= l && r < hi <= |ts| && !IsOp(ts[j], TernaryC)
    ensures Rearranges(ts, Bound(ts, l, j, r), lo, hi)
  {
    BoundReading(ts, l, j, r);
  }

  lemma CollapsedCompact(ts: seq<Tree>, us: seq<Tree>, a: int, j: int, b: int, lo: int, hi: int)
    requires Collapsed(ts, us, a, j, b) && 0 <= lo <= a && b < hi <= |ts|
    ensures Compact(us, lo, j) == Compact(ts, lo, a)
    ensures Compact(us, lo, j + 1) == Compact(ts, lo, a) + [us[j]]
    ensures Compact(us, j + 1, hi) == Compact(ts, b + 1, hi)
    ensures Compact(us, j, hi) == [us[j]] + Compact(ts, b + 1, hi)
  {
    CompactBefore(us, lo, a, j);
    CompactSame(ts, us, lo, a);
    StepOver(us, lo, j);
    CompactAfter(us, j + 1, b + 1, hi);
    CompactSame(ts, us, b + 1, hi);
  }

  lemma TwoTakes(ts: seq<Tree>, l: int, j: int, r: int, x: Tree, y: Tree)
    requires 0 <= l < j < r < |ts|
    ensures ts[j := x][l := Nil][j := y][r := Nil] == ts[j := y][l := Nil][r := Nil]
  {
  }

  /** The prefix operator in slot j has taken the tree of the next slot. */
  function BoundPrefix(ts: seq<Tree>, j: int): seq<Tree>
    requires 0 <= j && j + 1 < |ts| && ts[j].Node?
  {
    ts[j := Node(ts[j].node, ts[j+1], Nil)][j+1 := Nil]
  }

  lemma BoundPrefixRearranges(ts: seq<Tree>, j: int, lo: int, hi: int)
    requires 0 <= lo <= j && j + 1 < hi <= |ts| && ts[j+1].Node?
    requires ts[j].Node? && ts[j].left.Nil? && ts[j].right.Nil? && !IsOp(ts[j], TernaryC)
    ensures Rearranges(ts, BoundPrefix(ts, j), lo, hi)
  {
    var us := BoundPrefix(ts, j);
    ReadingFirst(ts, j, j + 1, j + 2);
    ReadingOne(ts, j + 1, j + 1, j + 2);
    LeafReading(ts[j]);
    CollapsedReading(ts, us, j, j, j + 1);
    CollapsedRearranges(ts, us, j, j, j + 1, lo, hi);
  }

  /** Where the trees are once the ternary at q and colon has taken its operands. */
  lemma BoundTernarySlots(ts: seq<Tree>, cond: int, q: int, yes: int, colon: int, no: int)
    requires Adjacent(ts, yes, colon, no) && 0 <= cond < q < yes
    requires ts[cond].Node? && ts[q].Node?
    requires forall k | cond < k < yes && k != q :: ts[k].Nil?
    ensures Adjacent(Bound(ts, yes, colon, no), cond, q, colon)
    ensures var us := Bound(Bound(ts, yes, colon, no), cond, q, colon);
            && Collapsed(ts, us, cond, q, no)
            && us[q] == TernaryNode(ts[q], ts[colon], ts[cond], ts[yes], ts[no])
  {
  }

  /** The ternary at q and colon has taken its three operands. */
  lemma BoundTernary(ts: seq<Tree>, cond: int, q: int, yes: int, colon: int, no: int, lo: int, hi: int)
    requires Adjacent(ts, yes, colon, no) && 0 <= lo <= cond < q < yes && no < hi <= |ts|
    requires ts[cond].Node? && ts[q].Node?
    requires forall k | cond < k < yes && k != q :: ts[k].Nil?
    requires ts[q].left.Nil? && ts[q].right.Nil? && !IsOp(ts[q], TernaryC)
    requires ts[colon].left.Nil? && ts[colon].right.Nil?
    ensures Adjacent(Bound(ts, yes, colon, no), cond, q, colon)
    ensures var us := Bound(Bound(ts, yes, colon, no), cond, q, colon);
            && Rearranges(ts, us, lo, hi)
            && Collapsed(ts, us, cond, q, no)
            && us[q] == TernaryNode(ts[q], ts[colon], ts[cond], ts[yes], ts[no])
  {
    BoundTernarySlots(ts, cond, q, yes, colon, no);
    var vs := Bound(ts, yes, colon, no);
    BoundReading(ts, yes, colon, no);
    assert vs[q] == ts[q];
    BoundReading(vs, cond, q, colon);
    CollapsedRearranges(ts, Bound(vs, cond, q, colon), cond, q, no, lo, hi);
  }

  lemma CollapsedRearranges(ts: seq<Tree>, us: seq<Tree>, a: int, j: int, b: int, lo: int, hi: int)
    requires Collapsed(ts, us, a, j, b) && 0 <= lo <= a && b < hi <= |ts| && !Raw(us[j])
    requires ReadingAll(us, 0, |us|) == ReadingAll(ts, 0, |ts|)
    ensures Rearranges(ts, us, lo, hi)
  {
  }

  // ----- Releasing and moving

  lemma DropReading(ts: seq<Tree>, i: int)
    requires 0 <= i < |ts| && ts[i].Node? && ts[i].left.Nil? && ts[i].right.Nil? && IsBracket(ts[i].node)
    ensures Unbracketed(ReadingAll(ts[i := Nil], 0, |ts|)) == Unbracketed(ReadingAll(ts, 0, |ts|))
  {
    var us := ts[i := Nil];
    var a, b := ReadingAll(ts, 0, i), ReadingAll(ts, i + 1, |ts|);
    ReadingSplit(ts, 0, i, |ts|);
    ReadingSplit(us, 0, i, |ts|);
    ReadingSame(ts, us, 0, i);
    ReadingSame(ts, us, i + 1, |ts|);
    assert Reading(ts[i]) == [ts[i].node];
    assert ReadingAll(ts, 0, |ts|) == a + ([ts[i].node] + b);
    assert ReadingAll(us, 0, |ts|) == a + b;
    UnbracketedConcat(a, [ts[i].node] + b);
    UnbracketedConcat([ts[i].node], b);
    UnbracketedConcat(a, b);
    assert Unbracketed([ts[i].node]) == [];
    assert [] + Unbracketed(b) == Unbracketed(b);
  }

  /** Moving a tree left over empty slots. */
  lemma MoveReading(ts: seq<Tree>, i: int, j: int)
    requires 0 <= j < i < |ts| && ts[i].Node? && forall k | j <= k < i :: ts[k].Nil?
    ensures ReadingAll(ts[j := ts[i]][i := Nil], 0, |ts|) == ReadingAll(ts, 0, |ts|)
  {
    ReadingOne(ts, j, i, i + 1);
    CollapsedReading(ts, ts[j := ts[i]][i := Nil], j, j, i);
  }
}
