/** Which slot owns which node, and what the pointers of each node are.

    The token array of the engine is a row of trees that share no node.  The owner of
    a node is the slot whose tree it is in, and the two maps of pointers spell every
    tree.  The lemmas here say how ownership and pointers follow when a slot is
    emptied or moved, and when an operator takes the trees of its neighbours; the
    methods of module ExprBuilder keep them in step with the heap. */
module ExprForest {
  import opened ExprTree
  import opened ExprHeap

  /** t as left and right spell it, with no node twice, and a node without a left
      operand has no right one. */
  ghost predicate Sound(t: Tree, left: map<ExprNode, ExprNode?>, right: map<ExprNode, ExprNode?>) {
    t.Node? ==>
      && t.node in left && left[t.node] == Root(t.left)
      && t.node in right && right[t.node] == Root(t.right)
      && (t.left.Nil? ==> t.right.Nil?)
      && t.node !in NodesOf(t.left) && t.node !in NodesOf(t.right)
      && NodesOf(t.left) !! NodesOf(t.right)
      && Sound(t.left, left, right) && Sound(t.right, left, right)
  }

  lemma {:induction false} SoundElsewhere(t: Tree, n: ExprNode, left: map<ExprNode, ExprNode?>,
                                          right: map<ExprNode, ExprNode?>, l: ExprNode?, r: ExprNode?)
    requires Sound(t, left, right) && n !in NodesOf(t)
    ensures Sound(t, left[n := l], right[n := r])
  {
    if t.Node? {
      SoundElsewhere(t.left, n, left, right, l, r);
      SoundElsewhere(t.right, n, left, right, l, r);
    }
  }

  lemma {:induction false} SoundRepresents(t: Tree, left: map<ExprNode, ExprNode?>, right: map<ExprNode, ExprNode?>)
    requires Sound(t, left, right)
    requires forall n | n in NodesOf(t) :: n in left && n.left == left[n] && n in right && n.right == right[n]
    ensures Represents(t) && Unshared(t)
  {
    if t.Node? {
      SoundRepresents(t.left, left, right);
      SoundRepresents(t.right, left, right);
    }
  }

  /** The pointers of the nodes are the ones given. */
  ghost predicate Linked(nodes: set<ExprNode>, left: map<ExprNode, ExprNode?>, right: map<ExprNode, ExprNode?>)
    reads nodes
  {
    forall n | n in nodes :: n in left && n in right && n.left == left[n] && n.right == right[n]
  }

  /** The trees in the slots, the slot each allocated node belongs to, and the
      pointers of each node. */
  datatype Forest = Forest(trees: seq<Tree>, owner: map<ExprNode, int>,
                           left: map<ExprNode, ExprNode?>, right: map<ExprNode, ExprNode?>)
  {
    /** Tree i is spelled by the pointers, and slot i owns its nodes. */
    ghost predicate Good(i: int)
      requires 0 <= i < |trees|
    {
      && Sound(trees[i], left, right)
      && (forall n | n in NodesOf(trees[i]) :: n in owner && owner[n] == i)
    }

    ghost predicate GoodUpTo(k: nat)
      requires k <= |trees|
    {
      k == 0 || (Good(k - 1) && GoodUpTo(k - 1))
    }

    ghost function NodesUpTo(k: nat): set<ExprNode>
      requires k <= |trees|
    {
      if k == 0 then {} else NodesUpTo(k - 1) + NodesOf(trees[k-1])
    }

    /** Every tree is good, and together they hold exactly the allocated nodes. */
    ghost predicate Valid() {
      && left.Keys == right.Keys == owner.Keys
      && GoodUpTo(|trees|)
      && NodesUpTo(|trees|) == owner.Keys
    }

    lemma {:induction false} GoodBelow(i: int, k: nat)
      requires 0 <= i < k <= |trees| && GoodUpTo(k)
      ensures Good(i)
    {
      if i < k - 1 {
        GoodBelow(i, k - 1);
      }
    }

    lemma {:induction false} AllGood(k: nat)
      requires k <= |trees| && forall i | 0 <= i < k :: Good(i)
      ensures GoodUpTo(k)
    {
      if k > 0 {
        AllGood(k - 1);
      }
    }

    lemma {:induction false} InUpTo(n: ExprNode, k: nat)
      requires k <= |trees|
      ensures n in NodesUpTo(k) <==> exists i :: 0 <= i < k && n in NodesOf(trees[i])
    {
      if k > 0 {
        InUpTo(n, k - 1);
      }
    }

    /** What a valid forest says about one occupied slot. */
    lemma AtSlot(i: int)
      requires Valid() && 0 <= i < |trees| && trees[i].Node?
      ensures Good(i)
      ensures trees[i].node in owner && owner[trees[i].node] == i
      ensures left[trees[i].node] == Root(trees[i].left) && right[trees[i].node] == Root(trees[i].right)
      ensures trees[i].left.Nil? ==> trees[i].right.Nil?
    {
      GoodBelow(i, |trees|);
      assert trees[i].node in NodesOf(trees[i]);
    }

    lemma Intro()
      requires left.Keys == right.Keys == owner.Keys
      requires forall i | 0 <= i < |trees| :: Good(i)
      requires forall n | n in owner :: 0 <= owner[n] < |trees| && n in NodesOf(trees[owner[n]])
      ensures Valid()
    {
      AllGood(|trees|);
      forall n | n in NodesUpTo(|trees|)
        ensures n in owner.Keys
      {
        InUpTo(n, |trees|);
        var i :| 0 <= i < |trees| && n in NodesOf(trees[i]);
        assert Good(i);
      }
      forall n | n in owner.Keys
        ensures n in NodesUpTo(|trees|)
      {
        InUpTo(n, |trees|);
      }
    }

    /** When every slot is empty, no node is allocated. */
    lemma AllEmpty()
      requires Valid() && forall i | 0 <= i < |trees| :: trees[i].Nil?
      ensures owner.Keys == {}
    {
      forall n | n in owner.Keys
        ensures false
      {
        InUpTo(n, |trees|);
      }
    }

    lemma AtNode(n: ExprNode)
      requires Valid() && n in owner
      ensures 0 <= owner[n] < |trees| && n in NodesOf(trees[owner[n]])
    {
      InUpTo(n, |trees|);
      var i :| 0 <= i < |trees| && n in NodesOf(trees[i]);
      GoodBelow(i, |trees|);
    }

    /** The node in slot j takes the tree of slot i as its left operand. */
    ghost function TakeLeft(j: int, i: int): Forest
      requires 0 <= i < |trees| && 0 <= j < |trees| && i != j && trees[j].Node?
    {
      Forest(trees[j := Node(trees[j].node, trees[i], trees[j].right)][i := Nil],
             Rehomed(owner, i, j), left[trees[j].node := Root(trees[i])], right)
    }

    /** The node in slot j takes the tree of slot i as its right operand. */
    ghost function TakeRight(j: int, i: int): Forest
      requires 0 <= i < |trees| && 0 <= j < |trees| && i != j && trees[j].Node?
    {
      Forest(trees[j := Node(trees[j].node, trees[j].left, trees[i])][i := Nil],
             Rehomed(owner, i, j), left, right[trees[j].node := Root(trees[i])])
    }

    /** A take empties slot i and changes no other root. */
    lemma TakeRoots(j: int, i: int)
      requires 0 <= i < |trees| && 0 <= j < |trees| && i != j && trees[j].Node?
      ensures forall k | 0 <= k < |trees| ::
        Root(TakeLeft(j, i).trees[k]) == Root(TakeRight(j, i).trees[k]) == if k == i then null else Root(trees[k])
    {
    }

    lemma TakeLeftValid(j: int, i: int)
      requires Valid() && 0 <= i < |trees| && 0 <= j < |trees| && i != j
      requires trees[i].Node? && trees[j].Node? && trees[j].left.Nil?
      ensures TakeLeft(j, i).Valid() && TakeLeft(j, i).owner.Keys == owner.Keys
    {
      var f := TakeLeft(j, i);
      AtSlot(i);
      AtSlot(j);
      forall k | 0 <= k < |trees|
        ensures f.Good(k)
      {
        GoodBelow(k, |trees|);
        if k != j {
          SoundElsewhere(trees[k], trees[j].node, left, right, Root(trees[i]), right[trees[j].node]);
          assert right[trees[j].node := right[trees[j].node]] == right;
        } else {
          SoundElsewhere(trees[i], trees[j].node, left, right, Root(trees[i]), right[trees[j].node]);
          assert right[trees[j].node := right[trees[j].node]] == right;
        }
      }
      forall m | m in f.owner
        ensures 0 <= f.owner[m] < |trees| && m in NodesOf(f.trees[f.owner[m]])
      {
        AtNode(m);
      }
      f.Intro();
    }

    lemma TakeRightValid(j: int, i: int)
      requires Valid() && 0 <= i < |trees| && 0 <= j < |trees| && i != j
      requires trees[i].Node? && trees[j].Node? && trees[j].left.Node? && trees[j].right.Nil?
      ensures TakeRight(j, i).Valid() && TakeRight(j, i).owner.Keys == owner.Keys
    {
      var f := TakeRight(j, i);
      AtSlot(i);
      AtSlot(j);
      var n := trees[j].node;
      assert left[n := left[n]] == left;
      forall k | 0 <= k < |trees|
        ensures f.Good(k)
      {
        GoodBelow(k, |trees|);
        if k != j {
          SoundElsewhere(trees[k], n, left, right, left[n], Root(trees[i]));
        } else {
          SoundElsewhere(trees[i], n, left, right, left[n], Root(trees[i]));
          SoundElsewhere(trees[j].left, n, left, right, left[n], Root(trees[i]));
        }
      }
      forall m | m in f.owner
        ensures 0 <= f.owner[m] < |trees| && m in NodesOf(f.trees[f.owner[m]])
      {
        AtNode(m);
      }
      f.Intro();
    }

    /** Slot i is emptied and its nodes are gone. */
    ghost function Drop(i: int): Forest
      requires 0 <= i < |trees|
    {
      Forest(trees[i := Nil], owner - NodesOf(trees[i]), left - NodesOf(trees[i]), right - NodesOf(trees[i]))
    }

    lemma DropValid(i: int)
      requires Valid() && 0 <= i < |trees|
      ensures Drop(i).Valid() && Good(i) && NodesOf(trees[i]) <= owner.Keys
      ensures Drop(i).owner.Keys == owner.Keys - NodesOf(trees[i])
    {
      var f := Drop(i);
      GoodBelow(i, |trees|);
      forall k | 0 <= k < |trees|
        ensures f.Good(k)
      {
        GoodBelow(k, |trees|);
        if k != i {
          SoundWithout(trees[k], left, right, NodesOf(trees[i]));
        }
      }
      forall m | m in f.owner
        ensures 0 <= f.owner[m] < |trees| && m in NodesOf(f.trees[f.owner[m]])
      {
        AtNode(m);
      }
      f.Intro();
    }

    /** The tree of slot i moves to the empty slot j. */
    ghost function Move(i: int, j: int): Forest
      requires 0 <= i < |trees| && 0 <= j < |trees|
    {
      Forest(trees[j := trees[i]][i := Nil], Rehomed(owner, i, j), left, right)
    }

    lemma MoveValid(i: int, j: int)
      requires Valid() && 0 <= i < |trees| && 0 <= j < |trees| && i != j && trees[j].Nil?
      ensures Move(i, j).Valid() && Move(i, j).owner.Keys == owner.Keys
    {
      var f := Move(i, j);
      forall k | 0 <= k < |trees|
        ensures f.Good(k)
      {
        GoodBelow(k, |trees|);
        GoodBelow(i, |trees|);
      }
      forall m | m in f.owner
        ensures 0 <= f.owner[m] < |trees| && m in NodesOf(f.trees[f.owner[m]])
      {
        AtNode(m);
      }
      f.Intro();
    }
  }

  lemma {:induction false} SoundWithout(t: Tree, left: map<ExprNode, ExprNode?>, right: map<ExprNode, ExprNode?>,
                                        gone: set<ExprNode>)
    requires Sound(t, left, right) && NodesOf(t) !! gone
    ensures Sound(t, left - gone, right - gone)
  {
    if t.Node? {
      SoundWithout(t.left, left, right, gone);
      SoundWithout(t.right, left, right, gone);
    }
  }

  ghost function Rehomed(owner: map<ExprNode, int>, from: int, to: int): map<ExprNode, int> {
    map n | n in owner :: if owner[n] == from then to else owner[n]
  }

  ghost function IndexOf(nodes: seq<ExprNode>, n: ExprNode): (i: nat)
    requires n in nodes
    ensures i < |nodes| && nodes[i] == n
  {
    var i :| 0 <= i < |nodes| && nodes[i] == n;
    i
  }

  /** The forest before the first binding: one leaf in each slot. */
  ghost function Leaves(nodes: seq<ExprNode>): Forest {
    Forest(seq(|nodes|, i requires 0 <= i < |nodes| => Leaf(nodes[i])),
           map n | n in nodes :: IndexOf(nodes, n),
           map n | n in nodes :: null,
           map n | n in nodes :: null)
  }

  /** No node occurs twice. */
  ghost predicate Distinct(nodes: seq<ExprNode>) {
    nodes != [] ==> nodes[|nodes|-1] !in nodes[..|nodes|-1] && Distinct(nodes[..|nodes|-1])
  }

  lemma {:induction false} DistinctPairs(nodes: seq<ExprNode>)
    requires Distinct(nodes)
    ensures forall i, j | 0 <= i < j < |nodes| :: nodes[i] != nodes[j]
  {
    if nodes != [] {
      var k := |nodes| - 1;
      DistinctPairs(nodes[..k]);
      forall i, j | 0 <= i < j < |nodes|
        ensures nodes[i] != nodes[j]
      {
        assert nodes[i] == nodes[..k][i];
        if j < k {
          assert nodes[j] == nodes[..k][j];
        }
      }
    }
  }

  lemma {:induction false} DistinctJoin(a: seq<ExprNode>, b: seq<ExprNode>)
    requires Distinct(a) && Distinct(b) && forall n | n in a :: n !in b
    ensures Distinct(a + b)
  {
    if b == [] {
      assert a + b == a;
    } else {
      var k := |b| - 1;
      DistinctJoin(a, b[..k]);
      assert (a + b)[..|a + b|-1] == a + b[..k];
      assert (a + b)[|a + b|-1] == b[k];
    }
  }

  lemma DistinctOne(n: ExprNode)
    ensures Distinct([n])
  {
    assert [n][..0] == [];
  }

  lemma {:induction false} DistinctPrefix(a: seq<ExprNode>, b: seq<ExprNode>)
    requires a <= b && Distinct(b)
    ensures Distinct(a)
    decreases |b|
  {
    if a != b {
      assert a <= b[..|b|-1];
      DistinctPrefix(a, b[..|b|-1]);
    }
  }

  lemma {:induction false} DistinctOnce(nodes: seq<ExprNode>)
    requires Distinct(nodes)
    ensures multiset(nodes) == multiset(set n | n in nodes)
  {
    if nodes != [] {
      var k := |nodes| - 1;
      DistinctOnce(nodes[..k]);
      assert nodes == nodes[..k] + [nodes[k]];
      assert (set n | n in nodes) == (set n | n in nodes[..k]) + {nodes[k]};
    }
  }

  lemma LeavesValid(nodes: seq<ExprNode>)
    requires Distinct(nodes)
    ensures Leaves(nodes).Valid()
  {
    DistinctPairs(nodes);
    var f := Leaves(nodes);
    forall i | 0 <= i < |nodes|
      ensures f.Good(i) && NodesOf(f.trees[i]) == {nodes[i]}
    {
    }
    f.Intro();
  }
}
