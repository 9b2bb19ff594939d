/** Expression trees in the heap: how node pointers represent a tree, who owns
    which node, and the constant-space teardown by rotation. */
module ExprHeap {
  import opened ExprTree

  function Root(t: Tree): ExprNode? {
    if t.Nil? then null else t.node
  }

  ghost function NodesOf(t: Tree): set<ExprNode> {
    if t.Nil? then {} else {t.node} + NodesOf(t.left) + NodesOf(t.right)
  }

  /** The pointers in the heap spell out t. */
  ghost predicate Represents(t: Tree)
    reads NodesOf(t)
  {
    t.Node? ==>
      && t.node.left == Root(t.left) && t.node.right == Root(t.right)
      && Represents(t.left) && Represents(t.right)
  }

  /** No node occurs twice in t. */
  ghost predicate Unshared(t: Tree) {
    t.Node? ==>
      && t.node !in NodesOf(t.left) && t.node !in NodesOf(t.right)
      && NodesOf(t.left) !! NodesOf(t.right)
      && Unshared(t.left) && Unshared(t.right)
  }

  /** The nodes of t in symmetric order. */
  function InOrder(t: Tree): seq<ExprNode> {
    if t.Nil? then [] else InOrder(t.left) + [t.node] + InOrder(t.right)
  }

  /** The nodes of t in the order their tokens were written: a node without a
      right operand is a literal or a prefix operator. */
  function Reading(t: Tree): seq<ExprNode> {
    if t.Nil? then []
    else if t.right.Nil? then [t.node] + Reading(t.left)
    else Reading(t.left) + [t.node] + Reading(t.right)
  }

  function Size(t: Tree): nat {
    if t.Nil? then 0 else 1 + Size(t.left) + Size(t.right)
  }

  /** t with its left child lifted above its root. */
  function Rotated(t: Tree): Tree
    requires t.Node? && t.left.Node?
  {
    Node(t.left.node, t.left.left, Node(t.node, t.left.right, t.right))
  }

  lemma RotatedKeeps(t: Tree)
    requires t.Node? && t.left.Node? && Unshared(t)
    ensures Unshared(Rotated(t)) && NodesOf(Rotated(t)) == NodesOf(t)
    ensures InOrder(Rotated(t)) == InOrder(t)
    ensures Size(Rotated(t)) == Size(t) && Size(Rotated(t).left) < Size(t.left)
  {
    var l := t.left;
    assert InOrder(t) == InOrder(l.left) + [l.node] + (InOrder(l.right) + [t.node] + InOrder(t.right));
  }

  lemma {:induction false} OnceEach(t: Tree)
    requires Unshared(t)
    ensures multiset(InOrder(t)) == multiset(NodesOf(t))
  {
    if t.Node? {
      OnceEach(t.left);
      OnceEach(t.right);
      JoinOnce(InOrder(t.left), t.node, InOrder(t.right), NodesOf(t.left), NodesOf(t.right));
    }
  }

  lemma JoinOnce<T>(a: seq<T>, n: T, b: seq<T>, l: set<T>, r: set<T>)
    requires multiset(a) == multiset(l) && multiset(b) == multiset(r)
    requires l !! r && n !in l && n !in r
    ensures multiset(a + [n] + b) == multiset({n} + l + r)
  {
  }

  /** The allocated nodes together with the released ones, each as often as it
      was released. */
  ghost function Tally(live: set<ExprNode>, freed: seq<ExprNode>): multiset<ExprNode> {
    if freed == [] then multiset(live)
    else Tally(live, freed[..|freed|-1]) + multiset{freed[|freed|-1]}
  }

  lemma {:induction false} TallyMeans(live: set<ExprNode>, freed: seq<ExprNode>)
    ensures Tally(live, freed) == multiset(live) + multiset(freed)
  {
    if freed != [] {
      TallyMeans(live, freed[..|freed|-1]);
      assert freed == freed[..|freed|-1] + [freed[|freed|-1]];
    }
  }

  lemma MoveAcross(live: set<ExprNode>, gone: set<ExprNode>, freed: seq<ExprNode>, order: seq<ExprNode>)
    requires gone <= live && multiset(order) == multiset(gone)
    ensures Tally(live - gone, freed + order) == Tally(live, freed)
  {
    TallyMeans(live - gone, freed + order);
    TallyMeans(live, freed);
  }

  /** The node allocator: which nodes are allocated, and in which order nodes
      have been released. */
  class NodeHeap {
    ghost var live: set<ExprNode>
    ghost var freed: seq<ExprNode>

    constructor (ghost nodes: set<ExprNode>)
      ensures live == nodes && freed == []
    {
      live, freed := nodes, [];
    }

    /** Every node ever handed out, allocated or released. */
    ghost function Accounted(): multiset<ExprNode>
      reads this
    {
      Tally(live, freed)
    }

    // The teardown reads, writes and releases nodes only through these five, and
    // each demands that the node is still allocated.

    function Left(n: ExprNode): (l: ExprNode?)
      requires n in live
      reads this, n
    {
      n.left
    }

    function Right(n: ExprNode): (r: ExprNode?)
      requires n in live
      reads this, n
    {
      n.right
    }

    method SetLeft(n: ExprNode, l: ExprNode?)
      requires n in live
      modifies n
      ensures n.left == l && n.right == old(n.right)
    {
      n.left := l;
    }

    method SetRight(n: ExprNode, r: ExprNode?)
      requires n in live
      modifies n
      ensures n.right == r && n.left == old(n.left)
    {
      n.right := r;
    }

    method Release(n: ExprNode)
      requires n in live
      modifies this
      ensures live == old(live) - {n} && freed == old(freed) + [n]
    {
      live, freed := live - {n}, freed + [n];
    }

    /** Lifts the left child of q above q; both, and all below them, must be allocated. */
    method RotateUp(q: ExprNode, ghost u: Tree) returns (lifted: ExprNode)
      requires u.Node? && q == u.node && u.left.Node? && Represents(u) && Unshared(u)
      requires NodesOf(u) <= live
      modifies q, u.left.node
      ensures lifted == Root(Rotated(u)) && Represents(Rotated(u))
    {
      ghost var l, r := u.left, u.right;
      assert Represents(l.left) && Represents(l.right) && Represents(r);
      assert q !in NodesOf(l) && q !in NodesOf(r) && l.node !in NodesOf(r);
      lifted := Left(q);
      SetLeft(q, Right(lifted));
      SetRight(lifted, q);
      assert Represents(l.left) && Represents(l.right) && Represents(r);
    }

    /** Releases the tree under p without recursion and without extra space:
        every node exactly once, in symmetric order, and no node is read or
        written after its release. */
    method FreeTree(p: ExprNode?, ghost t: Tree)
      requires p == Root(t) && Represents(t) && Unshared(t) && NodesOf(t) <= live
      modifies this, NodesOf(t)
      ensures live == old(live) - NodesOf(t)
      ensures freed == old(freed) + InOrder(t)
    {
      var q := p;
      ghost var u := t;
      ghost var gone: set<ExprNode> := {};
      while q != null
        invariant q == Root(u) && Represents(u) && Unshared(u)
        invariant gone !! NodesOf(u) && gone + NodesOf(u) == NodesOf(t)
        invariant live == old(live) - gone
        invariant freed + InOrder(u) == old(freed) + InOrder(t)
        decreases Size(u), if u.Nil? then 0 else Size(u.left)
      {
        var left := Left(q);
        if left != null {
          RotatedKeeps(u);
          q := RotateUp(q, u);
          u := Rotated(u);
        } else {
          var next := Right(q);
          Release(q);
          gone := gone + {q};
          q := next;
          u := u.right;
        }
      }
    }
  }
}
