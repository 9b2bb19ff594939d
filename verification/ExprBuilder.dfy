/** The tree builder as the engine runs it: loops over an array of node pointers
    that wire nodes together in place and empty the slots they consume.  Each
    phase is proved to compute the list rewriting of module ExprTree. */
module ExprBuilder {
  import opened Operators
  import opened ExprTree
  import opened ExprHeap
  import opened ExprSlots
  import opened ExprForest
  import opened ExprSteps

  /** The token array together with its allocator. */
  class TokenArray {
    const slots: array<ExprNode?>
    const heap: NodeHeap
    ghost var forest: Forest

    constructor (nodes: seq<ExprNode>)
      requires Distinct(nodes)
      requires forall i | 0 <= i < |nodes| :: nodes[i].left == null && nodes[i].right == null
      ensures Valid() && fresh(slots) && fresh(heap)
      ensures forest == Leaves(nodes)
      ensures heap.freed == []
    {
      slots := new ExprNode?[|nodes|] (i requires 0 <= i < |nodes| => nodes[i]);
      heap := new NodeHeap(set n | n in nodes);
      forest := Leaves(nodes);
      LeavesValid(nodes);
      new;
    }

    /** Each slot points to its tree, the nodes' pointers are those of the
        forest, and the allocated nodes are exactly the nodes of the forest. */
    ghost predicate Valid()
      reads this, slots, heap, heap.live
    {
      && forest.Valid()
      && |forest.trees| == slots.Length
      && (forall i | 0 <= i < slots.Length :: slots[i] == Root(forest.trees[i]))
      && heap.live == forest.owner.Keys
      && Linked(heap.live, forest.left, forest.right)
    }

    // ----- Moves on slots

    /** Empties slot i; f is the forest from then on. */
    method EmptySlot(i: int, ghost f: Forest)
      requires f.Valid() && |f.trees| == slots.Length
      requires heap.live == f.owner.Keys && Linked(heap.live, f.left, f.right)
      requires 0 <= i < slots.Length && f.trees[i].Nil?
      requires forall k | 0 <= k < slots.Length && k != i :: slots[k] == Root(f.trees[k])
      modifies this, slots
      ensures Valid() && forest == f && forall k | 0 <= k < slots.Length && k != i :: slots[k] == old(slots[k])
    {
      slots[i] := null;
      forest := f;
    }

    method LinkLeft(n: ExprNode, m: ExprNode?, ghost left: map<ExprNode, ExprNode?>,
                    ghost right: map<ExprNode, ExprNode?>)
      requires n in heap.live && Linked(heap.live, left, right)
      modifies n
      ensures Linked(heap.live, left[n := m], right)
    {
      n.left := m;
    }

    method LinkRight(n: ExprNode, m: ExprNode?, ghost left: map<ExprNode, ExprNode?>,
                    ghost right: map<ExprNode, ExprNode?>)
      requires n in heap.live && Linked(heap.live, left, right)
      modifies n
      ensures Linked(heap.live, left, right[n := m])
    {
      n.right := m;
    }

    method TakeLeft(j: int, i: int)
      requires Valid() && 0 <= i < slots.Length && 0 <= j < slots.Length && i != j
      requires forest.trees[i].Node? && forest.trees[j].Node? && forest.trees[j].left.Nil?
      modifies this, slots, slots[j]
      ensures Valid() && forest == old(forest).TakeLeft(j, i)
      ensures forest.owner.Keys == old(forest.owner.Keys) && slots[j] == old(slots[j])
    {
      forest.TakeLeftValid(j, i);
      forest.TakeRoots(j, i);
      forest.AtSlot(j);
      ghost var taken := forest.TakeLeft(j, i);
      LinkLeft(slots[j], slots[i], forest.left, forest.right);
      EmptySlot(i, taken);
    }

    method TakeRight(j: int, i: int)
      requires Valid() && 0 <= i < slots.Length && 0 <= j < slots.Length && i != j
      requires forest.trees[i].Node? && forest.trees[j].Node?
      requires forest.trees[j].left.Node? && forest.trees[j].right.Nil?
      modifies this, slots, slots[j]
      ensures Valid() && forest == old(forest).TakeRight(j, i)
      ensures forest.owner.Keys == old(forest.owner.Keys) && slots[j] == old(slots[j])
    {
      forest.TakeRightValid(j, i);
      forest.TakeRoots(j, i);
      forest.AtSlot(j);
      ghost var taken := forest.TakeRight(j, i);
      LinkRight(slots[j], slots[i], forest.left, forest.right);
      EmptySlot(i, taken);
    }

    method ReleaseTree(i: int)
      requires Valid() && 0 <= i < slots.Length && forest.Good(i)
      modifies heap, heap.live
      ensures heap.live == old(heap.live) - NodesOf(forest.trees[i])
      ensures heap.freed == old(heap.freed) + InOrder(forest.trees[i])
      ensures heap.Accounted() == old(heap.Accounted())
      ensures forall n | n in heap.live :: n.left == old(n.left) && n.right == old(n.right)
    {
      SoundRepresents(forest.trees[i], forest.left, forest.right);
      heap.FreeTree(slots[i], forest.trees[i]);
      OnceEach(forest.trees[i]);
      MoveAcross(old(heap.live), NodesOf(forest.trees[i]), old(heap.freed), InOrder(forest.trees[i]));
    }

    /** Releases the tree in slot i and empties the slot. */
    method FreeSlot(i: int)
      requires Valid() && 0 <= i < slots.Length
      modifies this, slots, heap, heap.live
      ensures Valid() && forest == old(forest).Drop(i)
      ensures heap.freed == old(heap.freed) + InOrder(old(forest.trees[i]))
      ensures heap.Accounted() == old(heap.Accounted())
    {
      forest.DropValid(i);
      ReleaseTree(i);
      EmptySlot(i, forest.Drop(i));
    }

    method MoveSlot(i: int, j: int)
      requires Valid() && 0 <= i < slots.Length && 0 <= j < slots.Length && i != j
      requires forest.trees[j].Nil?
      modifies this, slots
      ensures Valid() && forest == old(forest).Move(i, j)
    {
      forest.MoveValid(i, j);
      slots[j] := slots[i];
      EmptySlot(i, forest.Move(i, j));
    }

    /** The first occupied slot from a on, hi if there is none. */
    method NextSlot(a: int, hi: int) returns (i: int)
      requires Valid() && 0 <= a <= hi <= slots.Length
      ensures NextOccupied(forest.trees, a, i, hi)
    {
      i := a;
      while i < hi && slots[i] == null
        invariant a <= i <= hi
        invariant forall k | a <= k < i :: forest.trees[k].Nil?
      {
        i := i + 1;
      }
    }

    /** The last occupied slot before b, lo - 1 if there is none. */
    method PrevSlot(lo: int, b: int) returns (i: int)
      requires Valid() && 0 <= lo <= b <= slots.Length
      ensures PrevOccupied(forest.trees, lo, i, b)
    {
      i := b - 1;
      while i >= lo && slots[i] == null
        invariant lo - 1 <= i < b
        invariant forall k | i < k < b :: forest.trees[k].Nil?
      {
        i := i - 1;
      }
    }

    method IsTermSlot(i: int) returns (b: bool)
      requires Valid() && 0 <= i < slots.Length
      ensures b == IsTerm(forest.trees[i])
    {
      if slots[i] == null {
        return false;
      }
      forest.AtSlot(i);
      b := slots[i].op.None? || slots[i].left != null;
    }

    // ----- Binding an infix operator, in phases 3 and 5

    method BindInfix(l: int, j: int, r: int)
      requires Valid() && Adjacent(forest.trees, l, j, r) && forest.trees[j].left.Nil?
      modifies this, slots, slots[j]
      ensures Valid() && forest.trees == Bound(old(forest.trees), l, j, r)
      ensures forest.owner.Keys == old(forest.owner.Keys)
      ensures old(forest.trees)[j].right.Nil?
    {
      forest.AtSlot(j);
      ghost var ts := forest.trees;
      ghost var n := ts[j].node;
      TwoTakes(ts, l, j, r, Node(n, ts[l], Nil), Node(n, ts[l], ts[r]));
      TakeLeft(j, l);
      TakeRight(j, r);
    }

    /** Gives the operator in slot j its neighbours l and r, unless one of them is
        missing or is not a complete term. */
    method BindNeighbours(lo: int, j: int, hi: int) returns (ok: bool, ghost l: int, ghost r: int)
      requires Valid() && 0 <= lo <= j < hi <= slots.Length
      requires forest.trees[j].Node? && forest.trees[j].left.Nil? && !IsOp(forest.trees[j], TernaryC)
      modifies this, slots, slots[j]
      ensures Valid() && forest.owner.Keys == old(forest.owner.Keys)
      ensures PrevOccupied(old(forest.trees), lo, l, j) && NextOccupied(old(forest.trees), j + 1, r, hi)
      ensures ok == (lo <= l && r < hi && IsTerm(old(forest.trees)[l]) && IsTerm(old(forest.trees)[r]))
      ensures ok ==> forest.trees == Bound(old(forest.trees), l, j, r)
      ensures Rearranges(old(forest.trees), forest.trees, lo, hi)
    {
      var left := PrevSlot(lo, j);
      var right := NextSlot(j + 1, hi);
      l, r := left, right;
      if left < lo {
        return false, l, r;
      }
      var term := IsTermSlot(left);
      if !term {
        return false, l, r;
      }
      if right >= hi {
        return false, l, r;
      }
      term := IsTermSlot(right);
      if !term {
        return false, l, r;
      }
      ghost var ts := forest.trees;
      BindInfix(left, j, right);
      BoundRearranges(ts, l, j, r, lo, hi);
      return true, l, r;
    }

    // ----- Phase 3: binary operators

    /** Whether slot j holds an operator of level p still waiting for operands. */
    method IsOpenSlot(j: int, p: int) returns (b: bool)
      requires Valid() && 0 <= j < slots.Length
      ensures b == Open(forest.trees[j], p)
    {
      if slots[j] == null || slots[j].op.None? {
        return false;
      }
      if Precedence(slots[j].op.value) != p {
        return false;
      }
      forest.AtSlot(j);
      b := slots[j].left == null;
    }

    /** One step of a binary level: slot j is passed over or takes its operands. */
    method BinaryAt(p: int, lo: int, j: int, hi: int) returns (ok: bool)
      requires Valid() && 0 <= lo <= j < hi <= slots.Length && 2 <= p <= 13
      modifies this, slots, heap.live
      ensures Valid() && forest.owner.Keys == old(forest.owner.Keys)
      ensures Rearranges(old(forest.trees), forest.trees, lo, hi)
      ensures Binaries(p, Compact(old(forest.trees), lo, j), Compact(old(forest.trees), j, hi))
           == if ok then Binaries(p, Compact(forest.trees, lo, j + 1), Compact(forest.trees, j + 1, hi)) else None
    {
      ghost var ts := forest.trees;
      var open := IsOpenSlot(j, p);
      if !open {
        BinaryPass(p, ts, lo, j, hi);
        return true;
      }
      forest.AtSlot(j);
      ghost var l, r;
      ok, l, r := BindNeighbours(lo, j, hi);
      if ok {
        BinaryTake(p, ts, lo, l, j, r, hi);
      } else {
        BinaryStuck(p, ts, lo, l, j, r, hi);
      }
    }

    /** One binary level, left to right. */
    method BindLevel(p: int, lo: int, hi: int) returns (ok: bool)
      requires Valid() && 0 <= lo <= hi <= slots.Length && 2 <= p <= 13
      modifies this, slots, heap.live
      ensures Valid() && forest.owner.Keys == old(forest.owner.Keys)
      ensures Rearranges(old(forest.trees), forest.trees, lo, hi)
      ensures Binaries(p, [], Compact(old(forest.trees), lo, hi))
           == if ok then Some(Compact(forest.trees, lo, hi)) else None
    {
      ghost var ts := forest.trees;
      ghost var goal := Binaries(p, [], Compact(ts, lo, hi));
      var j := lo;
      while j < hi
        invariant lo <= j <= hi
        invariant Valid() && forest.owner.Keys == old(forest.owner.Keys)
        invariant Rearranges(ts, forest.trees, lo, hi)
        invariant goal == Binaries(p, Compact(forest.trees, lo, j), Compact(forest.trees, j, hi))
      {
        ghost var us := forest.trees;
        var bound := BinaryAt(p, lo, j, hi);
        RearrangesTwice(ts, us, forest.trees, lo, hi);
        if !bound {
          return false;
        }
        j := j + 1;
      }
      assert Compact(forest.trees, hi, hi) == [];
      assert goal == Some(Compact(forest.trees, lo, hi));
      return true;
    }

    /** Binary levels 2 to 13. */
    method BindLevels(lo: int, hi: int) returns (ok: bool)
      requires Valid() && 0 <= lo <= hi <= slots.Length
      modifies this, slots, heap.live
      ensures Valid() && forest.owner.Keys == old(forest.owner.Keys)
      ensures Rearranges(old(forest.trees), forest.trees, lo, hi)
      ensures BinaryLevels(2, Compact(old(forest.trees), lo, hi))
           == if ok then Some(Compact(forest.trees, lo, hi)) else None
    {
      ghost var ts := forest.trees;
      ghost var goal := BinaryLevels(2, Compact(ts, lo, hi));
      var p := 2;
      while p <= 13
        invariant 2 <= p <= 14 && Valid() && forest.owner.Keys == old(forest.owner.Keys)
        invariant Rearranges(ts, forest.trees, lo, hi)
        invariant goal == BinaryLevels(p, Compact(forest.trees, lo, hi))
      {
        ghost var us := forest.trees;
        var bound := BindLevel(p, lo, hi);
        RearrangesTwice(ts, us, forest.trees, lo, hi);
        if !bound {
          return false;
        }
        p := p + 1;
      }
      return true;
    }

    // ----- Phase 2: prefix operators

    /** One step of the prefix pass: slot j is passed over or takes the next slot. */
    method PrefixAt(lo: int, j: int, hi: int) returns (ok: bool)
      requires Valid() && 0 <= lo <= j < hi <= slots.Length
      requires Open(forest.trees[j], 1) && j + 1 < hi ==> forest.trees[j+1].Node?
      modifies this, slots, heap.live
      ensures Valid() && forest.owner.Keys == old(forest.owner.Keys)
      ensures Rearranges(old(forest.trees), forest.trees, lo, hi)
      ensures forall k | 0 <= k < j :: forest.trees[k] == old(forest.trees)[k]
      ensures forest.trees[j].Node? <==> old(forest.trees)[j].Node?
      ensures ok ==> forall k | j <= k < hi :: Open(forest.trees[k], 1) ==> k > j && Open(old(forest.trees)[k], 1)
      ensures PrefixStep(old(forest.trees)[j], Compact(old(forest.trees), j + 1, hi))
           == if ok then Some(Compact(forest.trees, j, hi)) else None
    {
      ghost var ts := forest.trees;
      var open := IsOpenSlot(j, 1);
      if !open {
        PrefixPass(ts, j, hi);
        return true;
      }
      if j + 1 >= hi {
        PrefixStuck(ts, j, hi);
        return false;
      }
      var term := IsTermSlot(j + 1);
      if !term {
        PrefixStuck(ts, j, hi);
        return false;
      }
      PrefixTake(ts, j, hi);
      BindPrefix(lo, j, hi);
      return true;
    }

    method BindPrefix(ghost lo: int, j: int, ghost hi: int)
      requires Valid() && 0 <= lo <= j && j + 1 < hi <= slots.Length
      requires Open(forest.trees[j], 1) && forest.trees[j+1].Node?
      modifies this, slots, heap.live
      ensures Valid() && forest.owner.Keys == old(forest.owner.Keys)
      ensures forest.trees == BoundPrefix(old(forest.trees), j)
      ensures Rearranges(old(forest.trees), forest.trees, lo, hi)
    {
      forest.AtSlot(j);
      BoundPrefixRearranges(forest.trees, j, lo, hi);
      TakeLeft(j, j + 1);
    }

    /** Prefix operators, right to left. */
    method BindPrefixes(lo: int, hi: int) returns (ok: bool)
      requires Valid() && 0 <= lo <= hi <= slots.Length
      requires forall k | lo <= k < hi - 1 && Open(forest.trees[k], 1) :: forest.trees[k+1].Node?
      modifies this, slots, heap.live
      ensures Valid() && forest.owner.Keys == old(forest.owner.Keys)
      ensures Rearranges(old(forest.trees), forest.trees, lo, hi)
      ensures Prefixes(Compact(old(forest.trees), lo, hi))
           == if ok then Some(Compact(forest.trees, lo, hi)) else None
      ensures ok ==> PrefixesBound(forest.trees, lo, hi)
    {
      ghost var ts := forest.trees;
      var j := hi;
      while j > lo
        invariant lo <= j <= hi
        invariant Valid() && forest.owner.Keys == old(forest.owner.Keys)
        invariant Rearranges(ts, forest.trees, lo, hi)
        invariant forall k | 0 <= k < j :: forest.trees[k] == ts[k]
        invariant j < hi && ts[j].Node? ==> forest.trees[j].Node?
        invariant forall k | j <= k < hi :: !Open(forest.trees[k], 1)
        invariant Prefixes(Compact(ts, j, hi)) == Some(Compact(forest.trees, j, hi))
      {
        j := j - 1;
        PrefixesStep(ts, j, hi);
        ghost var us := forest.trees;
        var bound := PrefixAt(lo, j, hi);
        RearrangesTwice(ts, us, forest.trees, lo, hi);
        if !bound {
          PrefixesFailFrom(ts, lo, j, hi);
          assert Prefixes(Compact(ts, lo, hi)).None?;
          return false;
        }
      }
      return true;
    }

    // ----- Phase 4: ternaries

    method TernaryAt(lo: int, q: int, hi: int) returns (ok: bool)
      requires Valid() && 0 <= lo <= q < hi <= slots.Length
      requires ColonsFree(forest.trees, lo, hi)
      modifies this, slots, heap.live
      ensures Valid() && forest.owner.Keys == old(forest.owner.Keys)
      ensures Rearranges(old(forest.trees), forest.trees, lo, hi)
      ensures ColonsFree(forest.trees, lo, hi)
      ensures Ternaries(Compact(old(forest.trees), lo, q), Compact(old(forest.trees), q, hi))
           == if ok then Ternaries(Compact(forest.trees, lo, q + 1), Compact(forest.trees, q + 1, hi)) else None
    {
      ghost var ts := forest.trees;
      var open := IsOpenTernarySlot(q);
      if !open {
        TernaryPass(ts, lo, q, hi);
        return true;
      }
      var ready, cond, yes, colon, no := FindTernary(lo, q, hi);
      if !ready {
        TernaryStuck(ts, lo, cond, q, yes, colon, no, hi);
        return false;
      }
      BindTernary(lo, cond, q, yes, colon, no, hi);
      TernaryTake(ts, forest.trees, lo, cond, q, yes, colon, no, hi);
      return true;
    }

    method BindTernary(ghost lo: int, cond: int, q: int, yes: int, colon: int, no: int, ghost hi: int)
      requires Valid() && 0 <= lo <= hi <= slots.Length && ColonsFree(forest.trees, lo, hi)
      requires TernaryOperands(forest.trees, lo, cond, q, yes, colon, no, hi)
      requires TernaryReady(forest.trees, lo, cond, yes, colon, no, hi)
      modifies this, slots, heap.live
      ensures Valid() && forest.owner.Keys == old(forest.owner.Keys)
      ensures Rearranges(old(forest.trees), forest.trees, lo, hi)
      ensures Collapsed(old(forest.trees), forest.trees, cond, q, no)
      ensures var ts := old(forest.trees);
              forest.trees[q] == TernaryNode(ts[q], ts[colon], ts[cond], ts[yes], ts[no])
    {
      ghost var ts := forest.trees;
      forest.AtSlot(q);
      forest.AtSlot(colon);
      assert ts[colon].left.Nil?;
      BoundTernary(ts, cond, q, yes, colon, no, lo, hi);
      BindInfix(yes, colon, no);
      forest.AtSlot(q);
      BindInfix(cond, q, colon);
    }

    method IsOpenTernarySlot(q: int) returns (b: bool)
      requires Valid() && 0 <= q < slots.Length
      ensures b == OpenTernary(forest.trees[q])
    {
      if slots[q] == null || slots[q].op != Some(TernaryQ) {
        return false;
      }
      forest.AtSlot(q);
      b := slots[q].left == null;
    }

    /** Looks for the condition, the true branch, the colon and the false branch
        of the `?` in slot q, stopping at the first that is missing. */
    method FindTernary(lo: int, q: int, hi: int) returns (ready: bool, cond: int, yes: int, colon: int, no: int)
      requires Valid() && 0 <= lo <= q < hi <= slots.Length && OpenTernary(forest.trees[q])
      ensures TernaryOperands(forest.trees, lo, cond, q, yes, colon, no, hi)
      ensures ready == TernaryReady(forest.trees, lo, cond, yes, colon, no, hi)
    {
      cond := PrevSlot(lo, q);
      yes := NextSlot(q + 1, hi);
      colon := hi;
      if yes < hi {
        colon := NextSlot(yes + 1, hi);
      }
      no := hi;
      if colon < hi {
        no := NextSlot(colon + 1, hi);
      }
      if cond < lo {
        return false, cond, yes, colon, no;
      }
      var term := IsTermSlot(cond);
      if !term {
        return false, cond, yes, colon, no;
      }
      if yes >= hi {
        return false, cond, yes, colon, no;
      }
      term := IsTermSlot(yes);
      if !term {
        return false, cond, yes, colon, no;
      }
      if colon >= hi || slots[colon].op != Some(TernaryC) {
        return false, cond, yes, colon, no;
      }
      if no >= hi {
        return false, cond, yes, colon, no;
      }
      term := IsTermSlot(no);
      return term, cond, yes, colon, no;
    }

    /** Ternaries, left to right. */
    method BindTernaries(lo: int, hi: int) returns (ok: bool)
      requires Valid() && 0 <= lo <= hi <= slots.Length
      requires ColonsFree(forest.trees, lo, hi)
      modifies this, slots, heap.live
      ensures Valid() && forest.owner.Keys == old(forest.owner.Keys)
      ensures Rearranges(old(forest.trees), forest.trees, lo, hi)
      ensures Ternaries([], Compact(old(forest.trees), lo, hi))
           == if ok then Some(Compact(forest.trees, lo, hi)) else None
    {
      ghost var ts := forest.trees;
      ghost var goal := Ternaries([], Compact(ts, lo, hi));
      var j := lo;
      while j < hi
        invariant lo <= j <= hi
        invariant Valid() && forest.owner.Keys == old(forest.owner.Keys)
        invariant Rearranges(ts, forest.trees, lo, hi)
        invariant ColonsFree(forest.trees, lo, hi)
        invariant goal == Ternaries(Compact(forest.trees, lo, j), Compact(forest.trees, j, hi))
      {
        ghost var us := forest.trees;
        var bound := TernaryAt(lo, j, hi);
        RearrangesTwice(ts, us, forest.trees, lo, hi);
        if !bound {
          return false;
        }
        j := j + 1;
      }
      assert Compact(forest.trees, hi, hi) == [];
      assert goal == Some(Compact(forest.trees, lo, hi));
      return true;
    }

    // ----- Phase 5: assignments

    /** One step of the assignment pass at slot j, the one before end: it is passed over
        or takes its operands; goal is what the pass is bound to leave. */
    method AssignAt(lo: int, j: int, end: int, hi: int, ghost goal: Option<seq<Tree>>) returns (ok: bool)
      requires Valid() && 0 <= lo < end <= hi <= slots.Length && end == j + 1
      requires goal == Assigns(Compact(forest.trees, lo, end), Compact(forest.trees, end, hi))
      modifies this, slots, heap.live
      ensures Valid() && forest.owner.Keys == old(forest.owner.Keys)
      ensures Rearranges(old(forest.trees), forest.trees, lo, hi)
      ensures ok ==> goal == Assigns(Compact(forest.trees, lo, j), Compact(forest.trees, j, hi))
      ensures !ok ==> goal.None?
    {
      ghost var ts := forest.trees;
      if slots[j] == null || slots[j].op != Some(VarAssign) {
        AssignPass(ts, lo, j, hi);
        return true;
      }
      forest.AtSlot(j);
      if slots[j].left != null {
        AssignPass(ts, lo, j, hi);
        return true;
      }
      ghost var l, r;
      ok, l, r := BindNeighbours(lo, j, hi);
      if ok {
        AssignTake(ts, lo, l, j, r, hi);
      } else {
        AssignStuck(ts, lo, l, j, r, hi);
      }
    }

    /** Assignments, right to left. */
    method BindAssigns(lo: int, hi: int) returns (ok: bool)
      requires Valid() && 0 <= lo <= hi <= slots.Length
      modifies this, slots, heap.live
      ensures Valid() && forest.owner.Keys == old(forest.owner.Keys)
      ensures Rearranges(old(forest.trees), forest.trees, lo, hi)
      ensures Assigns(Compact(old(forest.trees), lo, hi), [])
           == if ok then Some(Compact(forest.trees, lo, hi)) else None
    {
      ghost var ts := forest.trees;
      ghost var goal := Assigns(Compact(ts, lo, hi), []);
      AssignEnds(ts, lo, hi);
      var j := hi;
      while j > lo
        invariant lo <= j <= hi
        invariant Valid() && forest.owner.Keys == old(forest.owner.Keys)
        invariant Rearranges(ts, forest.trees, lo, hi)
        invariant goal == Assigns(Compact(forest.trees, lo, j), Compact(forest.trees, j, hi))
      {
        ghost var us := forest.trees;
        var i := j - 1;
        var bound := AssignAt(lo, i, j, hi, goal);
        RearrangesTwice(ts, us, forest.trees, lo, hi);
        if !bound {
          return false;
        }
        j := i;
      }
      AssignEnds(forest.trees, lo, hi);
      return true;
    }

    // ----- Phase 1: parentheses

    /** The slot of the bracket that closes the group opened just before a. */
    method FindClose(a: int, hi: int) returns (m: int)
      requires Valid() && 0 <= a <= hi <= slots.Length
      ensures m == a + CloseIndex(forest.trees[a..hi], 1)
    {
      var nest := 1;
      m := a;
      while m < hi
        invariant a <= m <= hi && 0 < nest
        invariant a + CloseIndex(forest.trees[a..hi], 1) == m + CloseIndex(forest.trees[m..hi], nest)
      {
        assert forest.trees[m..hi][1..] == forest.trees[m+1..hi];
        if slots[m] != null && slots[m].op == Some(OpenBracket) {
          nest := nest + 1;
        }
        if slots[m] != null && slots[m].op == Some(CloseBracket) {
          nest := nest - 1;
        }
        if nest == 0 {
          return m;
        }
        m := m + 1;
      }
      return m;
    }

    method FreeBracket(i: int)
      requires Valid() && 0 <= i < slots.Length
      requires IsLeaf(forest.trees[i]) && IsBracket(forest.trees[i].node)
      modifies this, slots, heap, heap.live
      ensures Valid() && forest.trees == old(forest.trees)[i := Nil]
      ensures Released(old(heap.live), old(forest.trees))
    {
      DropReading(forest.trees, i);
      assert NodesOf(forest.trees[i]) == {forest.trees[i].node};
      FreeSlot(i);
    }

    /** Releases the brackets in slots j and m and moves the group's tree, which
        an inner call left in slot j + 1, to slot j. */
    method Unwrap(j: int, m: int)
      requires Valid() && 0 <= j && j + 1 < m < slots.Length
      requires IsLeaf(forest.trees[j]) && IsBracket(forest.trees[j].node)
      requires IsLeaf(forest.trees[m]) && IsBracket(forest.trees[m].node)
      requires forest.trees[j+1].Node?
      modifies this, slots, heap, heap.live
      ensures Valid() && Released(old(heap.live), old(forest.trees))
      ensures SameOutside(old(forest.trees), forest.trees, j, m + 1) && forest.trees[j].Node?
      ensures Compact(forest.trees, j, m + 1) == Compact(old(forest.trees), j + 1, m)
      ensures AllSettled(old(forest.trees), j + 1, m) ==> AllSettled(forest.trees, j, m + 1)
    {
      ghost var ts := forest.trees;
      UnwrappedCompact(ts, j, m);
      UnwrappedOutside(ts, j, m);
      UnwrappedBySteps(ts, j, m);
      FreeBrackets(j, m);
      MoveReading(forest.trees, j + 1, j);
      MoveSlot(j + 1, j);
    }

    method FreeBrackets(j: int, m: int)
      requires Valid() && 0 <= j < m < slots.Length
      requires IsLeaf(forest.trees[j]) && IsBracket(forest.trees[j].node)
      requires IsLeaf(forest.trees[m]) && IsBracket(forest.trees[m].node)
      modifies this, slots, heap, heap.live
      ensures Valid() && Released(old(heap.live), old(forest.trees))
      ensures forest.trees == old(forest.trees)[m := Nil][j := Nil]
    {
      FreeBracket(m);
      FreeBracket(j);
    }

    /** What every exit of the builder keeps: nothing is allocated, every node is
        still allocated or was released once, and the nodes in the slots that are
        not brackets still read in their order. */
    twostate predicate Released(before: set<ExprNode>, ts: seq<Tree>)
      reads this, heap
    {
      && heap.live <= before
      && Unbracketed(ReadingAll(forest.trees, 0, |forest.trees|)) == Unbracketed(ReadingAll(ts, 0, |ts|))
      && heap.Accounted() == old(heap.Accounted())
    }

    /** Phase 1 has dealt with the group in slots j..next of ts: it failed, or the tree
        of the group is in slot j. */
    twostate predicate GroupDone(before: set<ExprNode>, ts: seq<Tree>, j: int, next: int, hi: int, depth: int, ok: bool)
      reads this, slots, heap, heap.live
    {
      && Valid() && Released(before, ts)
      && 0 <= j < next <= hi <= |ts| && SameOutside(ts, forest.trees, j, next)
      && GroupRead(ts, forest.trees, j, next, hi, depth, ok)
      && (ok ==> forest.trees[j].Node? && AllSettled(forest.trees, j, next))
    }

    /** The group that opens in slot j: an inner call builds it, its brackets are
        released, and next is the slot after the closing one. */
    method GroupAt(j: int, hi: int, depth: int) returns (ok: bool, next: int)
      requires Valid() && 0 <= j < hi <= slots.Length
      requires forall k | j <= k < hi :: IsLeaf(forest.trees[k])
      requires IsOp(forest.trees[j], OpenBracket)
      modifies this, slots, heap, heap.live
      ensures GroupDone(old(heap.live), old(forest.trees), j, next, hi, depth, ok)
      decreases hi - j, 1
    {
      var m := FindClose(j + 1, hi);
      ok, next := GroupTo(j, m, hi, depth);
    }

    /** The group between slots j and m, refused if it is not closed or empty. */
    method GroupTo(j: int, m: int, hi: int, depth: int) returns (ok: bool, next: int)
      requires Valid() && 0 <= j < m <= hi <= slots.Length
      requires forall k | j <= k < hi :: IsLeaf(forest.trees[k])
      requires IsOp(forest.trees[j], OpenBracket) && m == j + 1 + CloseIndex(forest.trees[j+1..hi], 1)
      modifies this, slots, heap, heap.live
      ensures GroupDone(old(heap.live), old(forest.trees), j, next, hi, depth, ok)
      decreases hi - j, 0
    {
      if m == hi || m - j <= 1 {
        next := RefuseGroup(j, m, hi, depth);
        ok := false;
      } else {
        next := m + 1;
        ok := GroupBetween(j, m, hi, depth, next);
      }
    }

    method RefuseGroup(j: int, m: int, hi: int, depth: int) returns (next: int)
      requires Valid() && 0 <= j < m <= hi <= slots.Length && (m == hi || m == j + 1)
      requires IsOp(forest.trees[j], OpenBracket) && m == j + 1 + CloseIndex(forest.trees[j+1..hi], 1)
      ensures GroupDone(old(heap.live), old(forest.trees), j, next, hi, depth, false)
    {
      GroupRefused(forest.trees, j, m, hi, depth);
      next := hi;
    }

    /** The group between slots j and m, seen as a part of slots j..hi. */
    method GroupBetween(j: int, m: int, hi: int, depth: int, ghost next: int) returns (ok: bool)
      requires Valid() && 0 <= j && j + 1 < m < hi <= slots.Length && next == m + 1
      requires forall k | j <= k < hi :: IsLeaf(forest.trees[k])
      requires IsOp(forest.trees[j], OpenBracket) && m == j + 1 + CloseIndex(forest.trees[j+1..hi], 1)
      modifies this, slots, heap, heap.live
      ensures GroupDone(old(heap.live), old(forest.trees), j, next, hi, depth, ok)
      decreases m - j, 1
    {
      ghost var ts := forest.trees;
      ClosingSlot(ts, j, m, hi);
      ok := BuildGroup(j, m, depth);
      GroupBuilt(ts, forest.trees, j, m, next, hi, depth, ok);
    }

    /** Builds the group between the brackets in slots j and m. */
    method BuildGroup(j: int, m: int, depth: int) returns (ok: bool)
      requires Valid() && 0 <= j && j + 1 < m < slots.Length
      requires forall k | j <= k <= m :: IsLeaf(forest.trees[k])
      requires IsOp(forest.trees[j], OpenBracket) && IsOp(forest.trees[m], CloseBracket)
      modifies this, slots, heap, heap.live
      ensures Valid() && Released(old(heap.live), old(forest.trees))
      ensures SameOutside(old(forest.trees), forest.trees, j, m + 1)
      ensures Build(old(forest.trees)[j+1..m], depth + 1)
           == if ok then Some(Compact(forest.trees, j, m + 1)) else None
      ensures ok ==> forest.trees[j].Node? && AllSettled(forest.trees, j, m + 1)
      decreases m - j, 0
    {
      ok := MakeTree(j + 1, m, depth + 1);
      if ok {
        Unwrap(j, m);
      }
    }

    /** One step of phase 1; ts are the tokens it started from. */
    method ScanSlot(lo: int, j: int, hi: int, depth: int, ghost ts: seq<Tree>) returns (ok: bool, next: int)
      requires Valid() && 0 <= lo <= j < hi <= slots.Length && |ts| == slots.Length
      requires forall k | j <= k < hi :: IsLeaf(forest.trees[k]) && forest.trees[k] == ts[k]
      requires Scanned(forest.trees, lo, j)
      modifies this, slots, heap, heap.live
      ensures Valid() && Released(old(heap.live), old(forest.trees))
      ensures j < next <= hi && SameOutside(old(forest.trees), forest.trees, j, next)
      ensures Pending(ts, old(forest.trees), lo, j, hi, depth)
           == if ok then Pending(ts, forest.trees, lo, next, hi, depth) else None
      ensures ok ==> Scanned(forest.trees, lo, next)
      decreases hi - j, 2
    {
      ghost var us := forest.trees;
      assert slots[j] != null;
      if slots[j].op == Some(OpenBracket) {
        ok, next := GroupAt(j, hi, depth);
        if ok {
          ScanGroup(ts, us, forest.trees, lo, j, next, hi, depth);
        } else {
          ScanStuck(ts, us, forest.trees, lo, j, next, hi, depth);
        }
      } else {
        ScanToken(ts, us, lo, j, hi, depth);
        return true, j + 1;
      }
    }

    /** Phase 1: every group of the range is built and unwrapped, left to right. */
    method OpenGroups(lo: int, hi: int, depth: int) returns (ok: bool)
      requires Valid() && 0 <= lo <= hi <= slots.Length
      requires forall k | lo <= k < hi :: IsLeaf(forest.trees[k])
      modifies this, slots, heap, heap.live
      ensures Valid() && Released(old(heap.live), old(forest.trees))
      ensures SameOutside(old(forest.trees), forest.trees, lo, hi)
      ensures Brackets(old(forest.trees)[lo..hi], depth)
           == if ok then Some(Compact(forest.trees, lo, hi)) else None
      ensures ok ==> Scanned(forest.trees, lo, hi)
      decreases hi - lo, 3
    {
      ghost var ts := forest.trees;
      ghost var goal := Brackets(ts[lo..hi], depth);
      PendingEnds(ts, ts, lo, hi, depth);
      var j := lo;
      while j < hi
        invariant lo <= j <= hi && Valid() && Released(old(heap.live), old(forest.trees))
        invariant SameOutside(ts, forest.trees, lo, j)
        invariant Scanned(forest.trees, lo, j)
        invariant goal == Pending(ts, forest.trees, lo, j, hi, depth)
      {
        var scanned, next := ScanSlot(lo, j, hi, depth, ts);
        if !scanned {
          return false;
        }
        j := next;
      }
      PendingEnds(ts, forest.trees, lo, hi, depth);
      return true;
    }

    /** Phases 2 to 5. */
    method FoldRange(lo: int, hi: int) returns (ok: bool)
      requires Valid() && 0 <= lo <= hi <= slots.Length && Scanned(forest.trees, lo, hi)
      modifies this, slots, heap.live
      ensures Valid() && forest.owner.Keys == old(forest.owner.Keys)
      ensures Rearranges(old(forest.trees), forest.trees, lo, hi)
      ensures FoldOperators(Compact(old(forest.trees), lo, hi))
           == if ok then Some(Compact(forest.trees, lo, hi)) else None
      ensures ok ==> AllSettled(forest.trees, lo, hi)
    {
      ghost var ts := forest.trees;
      FoldInTwo(Compact(ts, lo, hi));
      ok := FoldTightly(lo, hi);
      if ok {
        ghost var us := forest.trees;
        ok := FoldLoosely(lo, hi);
        RearrangesTwice(ts, us, forest.trees, lo, hi);
      }
    }

    /** Phases 2 and 3. */
    method FoldTightly(lo: int, hi: int) returns (ok: bool)
      requires Valid() && 0 <= lo <= hi <= slots.Length && Scanned(forest.trees, lo, hi)
      modifies this, slots, heap.live
      ensures Valid() && forest.owner.Keys == old(forest.owner.Keys)
      ensures Rearranges(old(forest.trees), forest.trees, lo, hi)
      ensures FoldTight(Compact(old(forest.trees), lo, hi))
           == if ok then Some(Compact(forest.trees, lo, hi)) else None
      ensures ok ==> PrefixesBound(forest.trees, lo, hi) && ColonsFree(forest.trees, lo, hi)
    {
      ghost var ts := forest.trees;
      ok := BindPrefixes(lo, hi);
      if ok {
        ghost var us := forest.trees;
        ok := BindLevels(lo, hi);
        RearrangesTwice(ts, us, forest.trees, lo, hi);
        StaysBound(us, forest.trees, lo, hi);
        ColonsStayFree(ts, forest.trees, lo, hi);
      }
    }

    /** Phases 4 and 5. */
    method FoldLoosely(lo: int, hi: int) returns (ok: bool)
      requires Valid() && 0 <= lo <= hi <= slots.Length
      requires PrefixesBound(forest.trees, lo, hi) && ColonsFree(forest.trees, lo, hi)
      modifies this, slots, heap.live
      ensures Valid() && forest.owner.Keys == old(forest.owner.Keys)
      ensures Rearranges(old(forest.trees), forest.trees, lo, hi)
      ensures FoldLoose(Compact(old(forest.trees), lo, hi))
           == if ok then Some(Compact(forest.trees, lo, hi)) else None
      ensures ok ==> AllSettled(forest.trees, lo, hi)
    {
      ghost var ts := forest.trees;
      ok := BindTernaries(lo, hi);
      if ok {
        ghost var us := forest.trees;
        ok := BindAssigns(lo, hi);
        RearrangesTwice(ts, us, forest.trees, lo, hi);
        StaysBound(ts, forest.trees, lo, hi);
      }
    }

    /** Builds the tree of slots lo..hi in place.  On success the first slot of the
        range is occupied and the range holds what Build prescribes. */
    method MakeTree(lo: int, hi: int, depth: int) returns (ok: bool)
      requires Valid() && 0 <= lo <= hi <= slots.Length
      requires forall k | lo <= k < hi :: IsLeaf(forest.trees[k])
      modifies this, slots, heap, heap.live
      ensures Valid() && Released(old(heap.live), old(forest.trees))
      ensures SameOutside(old(forest.trees), forest.trees, lo, hi)
      ensures Build(old(forest.trees)[lo..hi], depth)
           == if ok then Some(Compact(forest.trees, lo, hi)) else None
      ensures ok ==> lo < hi && forest.trees[lo].Node?
      ensures ok ==> AllSettled(forest.trees, lo, hi)
      decreases hi - lo, 4
    {
      if depth > MAX_EXPR_DEPTH {
        return false;
      }
      if hi <= lo {
        return false;
      }
      ghost var ts := forest.trees;
      ok := OpenGroups(lo, hi, depth);
      if !ok {
        return;
      }
      ok := FoldRange(lo, hi);
      if !ok {
        return;
      }
      BuildNonEmpty(ts[lo..hi], depth);
      MoveToFront(lo, hi);
    }

    /** Moves the first tree of the range to its first slot. */
    method MoveToFront(lo: int, hi: int)
      requires Valid() && 0 <= lo <= hi <= slots.Length && Compact(forest.trees, lo, hi) != []
      modifies this, slots
      ensures Valid() && forest.owner.Keys == old(forest.owner.Keys)
      ensures ReadingAll(forest.trees, 0, |forest.trees|) == ReadingAll(old(forest.trees), 0, |old(forest.trees)|)
      ensures SameOutside(old(forest.trees), forest.trees, lo, hi)
      ensures Compact(forest.trees, lo, hi) == Compact(old(forest.trees), lo, hi)
      ensures lo < hi && forest.trees[lo].Node?
      ensures AllSettled(old(forest.trees), lo, hi) ==> AllSettled(forest.trees, lo, hi)
    {
      var i := NextSlot(lo, hi);
      ghost var ts := forest.trees;
      SomethingLeft(ts, lo, i, hi);
      if i > lo {
        FrontedCompact(ts, lo, i, hi);
        MoveSlot(i, lo);
        assert forest.trees == Fronted(ts, lo, i);
      }
    }

    /** The cleanup that follows the builder, whatever its outcome: every slot's
        tree is released, and with it every node that is still allocated. */
    method ReleaseAll()
      requires Valid()
      modifies this, slots, heap, heap.live
      ensures Valid() && heap.live == {}
      ensures multiset(heap.freed) == old(heap.Accounted())
    {
      var i := 0;
      while i < slots.Length
        invariant 0 <= i <= slots.Length && Valid()
        invariant forall k | 0 <= k < i :: forest.trees[k].Nil?
        invariant heap.live <= old(heap.live)
        invariant heap.Accounted() == old(heap.Accounted())
      {
        FreeSlot(i);
        i := i + 1;
      }
      forest.AllEmpty();
      TallyMeans(heap.live, heap.freed);
    }
  }
}
