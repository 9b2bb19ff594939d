/** Lists of constructs between two phases of the builder: operators that still wait
    for operands beside constructs that are complete.  Undoing a phase recovers the
    constructs it has put together. */
module ExprLists {
  import opened Operators
  import opened ExprTree
  import opened ExprGrammar
  import opened ExprShape
  import opened Sequences

  /** A lone operator token. */
  predicate Raw(e: Expr) {
    e.Literal? && e.tok.op.Some?
  }

  /** An operator token that the phases up to level p leave alone: one of a looser
      level, a closing bracket, or a colon. */
  predicate Waiting(e: Expr, p: int) {
    && Raw(e) && e.tok.op != Some(OpenBracket)
    && (NodePrecedence(e.tok) < 1 || NodePrecedence(e.tok) > p || (p >= 14 && e.tok.op == Some(TernaryC)))
  }

  ghost predicate Fine(es: seq<Expr>, p: int) {
    forall i | 0 <= i < |es| :: Waiting(es[i], p) || Operand(es[i], p)
  }

  function Shapes(es: seq<Expr>): (ts: seq<Tree>)
    ensures |ts| == |es| && forall i | 0 <= i < |es| :: ts[i] == Shape(es[i])
  {
    seq(|es|, i requires 0 <= i < |es| => Shape(es[i]))
  }

  /** What phases 2 to 5 find of e: its tokens, with each parenthesised operand as
      one item. */
  function AtomsOf(e: Expr): seq<Expr> {
    match e
    case Literal(_) => [e]
    case Prefix(op, arg) => [Literal(op)] + AtomsOf(arg)
    case Infix(op, lhs, rhs) => AtomsOf(lhs) + [Literal(op)] + AtomsOf(rhs)
    case Paren(_, _, _) => [e]
  }

  /** The items of es, one construct after the other. */
  function Spread(es: seq<Expr>): seq<Expr> {
    if es == [] then [] else AtomsOf(es[0]) + Spread(es[1..])
  }

  lemma {:induction false} SpreadJoin(a: seq<Expr>, b: seq<Expr>)
    ensures Spread(a + b) == Spread(a) + Spread(b)
  {
    if a == [] {
      assert a + b == b;
    } else {
      assert (a + b)[1..] == a[1..] + b;
      SpreadJoin(a[1..], b);
    }
  }

  lemma SpreadOne(e: Expr)
    ensures Spread([e]) == AtomsOf(e)
  {
    assert [e][1..] == [];
  }

  lemma SpreadCons(e: Expr, es: seq<Expr>)
    ensures Spread([e] + es) == AtomsOf(e) + Spread(es)
  {
    assert ([e] + es)[1..] == es;
  }

  lemma SpreadSnoc(es: seq<Expr>, e: Expr)
    ensures Spread(es + [e]) == Spread(es) + AtomsOf(e)
  {
    SpreadJoin(es, [e]);
    SpreadOne(e);
  }

  /** A complete construct is a term and no operator, a raw one is no term. */
  lemma TermOrRaw(e: Expr, p: int)
    requires Waiting(e, p) || Operand(e, p)
    ensures IsTerm(Shape(e)) <==> Operand(e, p)
    ensures Raw(e) ==> AtomsOf(e) == [e] && Shape(e) == Leaf(e.tok)
    ensures !Raw(e) ==> Shape(e).left.Node? || Shape(e).node.op.None?
    ensures !Raw(e) ==> !IsOp(Shape(e), TernaryC)
  {
    if !Raw(e) {
      ShapeIsTerm(e);
      NotArms(e);
    }
  }

  lemma {:induction false} NotArms(e: Expr)
    requires Grammatical(e) && !IsArms(e)
    ensures !IsOp(Shape(e), TernaryC)
  {
    if e.Paren? {
      NotArms(e.body);
    }
  }

  // ----- Phase 2

  lemma ShapesCons(e: Expr, es: seq<Expr>)
    ensures Shapes([e] + es) == [Shape(e)] + Shapes(es)
  {
  }

  lemma ShapesSnoc(es: seq<Expr>, e: Expr)
    ensures Shapes(es + [e]) == Shapes(es) + [Shape(e)]
  {
  }

  lemma FineCons(e: Expr, es: seq<Expr>, p: int)
    requires (Waiting(e, p) || Operand(e, p)) && Fine(es, p)
    ensures Fine([e] + es, p)
  {
  }

  lemma FineSnoc(es: seq<Expr>, e: Expr, p: int)
    requires Fine(es, p) && (Waiting(e, p) || Operand(e, p))
    ensures Fine(es + [e], p)
  {
  }

  lemma ConsFine(e: Expr, es: seq<Expr>, p: int)
    requires (Waiting(e, p) || Operand(e, p)) && Fine(es, p)
    ensures Fine([e] + es, p)
    ensures Shapes([e] + es) == [Shape(e)] + Shapes(es)
    ensures Spread([e] + es) == AtomsOf(e) + Spread(es)
  {
    FineCons(e, es, p);
    ShapesCons(e, es);
    SpreadCons(e, es);
  }

  lemma SnocFine(es: seq<Expr>, e: Expr, p: int)
    requires Fine(es, p) && (Waiting(e, p) || Operand(e, p))
    ensures Fine(es + [e], p)
    ensures Shapes(es + [e]) == Shapes(es) + [Shape(e)]
    ensures Spread(es + [e]) == Spread(es) + AtomsOf(e)
  {
    FineSnoc(es, e, p);
    ShapesSnoc(es, e);
    SpreadSnoc(es, e);
  }

  /** A list cut in two. */
  lemma Cut(es: seq<Expr>, k: nat)
    requires k <= |es|
    ensures Shapes(es)[k..] == Shapes(es[k..])
    ensures Shapes(es)[..k] == Shapes(es[..k])
  {
  }

  lemma CutSpread(es: seq<Expr>, k: nat)
    requires k <= |es|
    ensures Spread(es) == Spread(es[..k]) + Spread(es[k..])
  {
    assert es == es[..k] + es[k..];
    SpreadJoin(es[..k], es[k..]);
  }

  lemma First(es: seq<Expr>)
    requires es != []
    ensures Spread(es) == AtomsOf(es[0]) + Spread(es[1..])
    ensures Shapes(es)[1..] == Shapes(es[1..])
  {
    Cut(es, 1);
  }

  lemma Last(es: seq<Expr>)
    requires es != []
    ensures Spread(es) == Spread(es[..|es|-1]) + AtomsOf(es[|es|-1])
    ensures Shapes(es)[..|es|-1] == Shapes(es[..|es|-1])
  {
    Cut(es, |es| - 1);
    CutSpread(es, |es| - 1);
    assert es[|es|-1..] == [es[|es|-1]];
    SpreadOne(es[|es|-1]);
  }

  lemma BindPrefix(e: Expr, arg: Expr)
    requires Raw(e) && NodePrecedence(e.tok) == 1 && Operand(arg, 1)
    ensures Operand(Prefix(e.tok, arg), 1)
    ensures Shape(Prefix(e.tok, arg)) == Node(e.tok, Shape(arg), Nil)
    ensures AtomsOf(Prefix(e.tok, arg)) == AtomsOf(e) + AtomsOf(arg)
  {
  }

  lemma {:induction false} LiftPrefixes(es: seq<Expr>) returns (fs: seq<Expr>)
    requires Fine(es, 0) && Prefixes(Shapes(es)).Some?
    ensures Fine(fs, 1) && Shapes(fs) == Prefixes(Shapes(es)).value && Spread(fs) == Spread(es)
  {
    if es == [] {
      return [];
    }
    var e := es[0];
    First(es);
    var gs := LiftPrefixes(es[1..]);
    TermOrRaw(e, 0);
    if !Open(Shape(e), 1) {
      fs := [e] + gs;
      ConsFine(e, gs, 1);
    } else {
      TermOrRaw(gs[0], 1);
      BindPrefix(e, gs[0]);
      First(gs);
      ConcatAssoc(AtomsOf(e), AtomsOf(gs[0]), Spread(gs[1..]));
      fs := [Prefix(e.tok, gs[0])] + gs[1..];
      ConsFine(Prefix(e.tok, gs[0]), gs[1..], 1);
    }
  }

  // ----- Phase 3

  lemma BindInfix(e: Expr, l: Expr, r: Expr, p: int)
    requires Raw(e) && NodePrecedence(e.tok) == p && 2 <= p <= 13 && Operand(l, p) && Operand(r, p - 1)
    ensures Operand(Infix(e.tok, l, r), p)
    ensures AtomsOf(Infix(e.tok, l, r)) == AtomsOf(l) + AtomsOf(e) + AtomsOf(r)
  {
    LooseLevels(e.tok.op.value);
  }

  lemma Regroup<T>(a: seq<T>, b: seq<T>, c: seq<T>, d: seq<T>, r: seq<T>)
    ensures (a + (b + c + d)) + r == (a + b) + (c + (d + r))
  {
  }

  lemma {:induction false} LiftBinaries(p: int, done: seq<Expr>, rest: seq<Expr>) returns (fs: seq<Expr>)
    requires 2 <= p <= 13 && Fine(done, p) && Fine(rest, p - 1)
    requires Binaries(p, Shapes(done), Shapes(rest)).Some?
    ensures Fine(fs, p) && Shapes(fs) == Binaries(p, Shapes(done), Shapes(rest)).value
    ensures Spread(fs) == Spread(done) + Spread(rest)
    decreases |rest|
  {
    if rest == [] {
      return done;
    }
    var e := rest[0];
    TermOrRaw(e, p - 1);
    First(rest);
    if !Open(Shape(e), p) {
      SnocFine(done, e, p);
      fs := LiftBinaries(p, done + [e], rest[1..]);
      ConcatAssoc(Spread(done), AtomsOf(e), Spread(rest[1..]));
    } else {
      var k := |done| - 1;
      var l, r := done[k], rest[1];
      TermOrRaw(l, p);
      TermOrRaw(r, p - 1);
      var f := Infix(e.tok, l, r);
      BindInfix(e, l, r, p);
      Last(done);
      First(rest[1..]);
      assert Shapes(rest)[2..] == Shapes(rest[2..]) && rest[1..][1..] == rest[2..];
      SnocFine(done[..k], f, p);
      fs := LiftBinaries(p, done[..k] + [f], rest[2..]);
      Regroup(Spread(done[..k]), AtomsOf(l), AtomsOf(e), AtomsOf(r), Spread(rest[2..]));
    }
  }

  lemma {:induction false} LiftLevels(p: int, es: seq<Expr>) returns (fs: seq<Expr>)
    requires 2 <= p <= 14 && Fine(es, p - 1) && BinaryLevels(p, Shapes(es)).Some?
    ensures Fine(fs, 13) && Shapes(fs) == BinaryLevels(p, Shapes(es)).value && Spread(fs) == Spread(es)
    decreases 14 - p
  {
    if p > 13 {
      return es;
    }
    assert Shapes([]) == [];
    var gs := LiftBinaries(p, [], es);
    assert Spread(gs) == Spread(es);
    fs := LiftLevels(p + 1, gs);
  }

  // ----- Phase 4

  lemma BindTernary(q: Expr, colon: Expr, cond: Expr, yes: Expr, no: Expr)
    requires Raw(q) && q.tok.op == Some(TernaryQ) && Raw(colon) && colon.tok.op == Some(TernaryC)
    requires Operand(cond, 14) && Operand(yes, 13) && Operand(no, 13)
    ensures var e := Infix(q.tok, cond, Infix(colon.tok, yes, no));
            && Operand(e, 14)
            && Shape(e) == TernaryNode(Shape(q), Shape(colon), Shape(cond), Shape(yes), Shape(no))
            && AtomsOf(e) == AtomsOf(cond) + AtomsOf(q) + (AtomsOf(yes) + AtomsOf(colon) + AtomsOf(no))
  {
    var arms := Infix(colon.tok, yes, no);
    assert Grammatical(arms) && IsArms(arms);
    assert Shape(arms) == Node(colon.tok, Shape(yes), Shape(no));
  }

  lemma RegroupTernary<T>(a: seq<T>, c: seq<T>, q: seq<T>, y: seq<T>, k: seq<T>, n: seq<T>, r: seq<T>)
    ensures (a + (c + q + (y + k + n))) + r == (a + c) + (q + (y + (k + (n + r))))
  {
  }

  /** The construct at position k of a list. */
  lemma Nth(es: seq<Expr>, k: nat)
    requires k < |es|
    ensures Spread(es[k..]) == AtomsOf(es[k]) + Spread(es[k+1..])
  {
    assert es[k..][1..] == es[k+1..];
  }

  /** The first four of a list. */
  lemma FirstFour(es: seq<Expr>)
    requires |es| >= 4
    ensures Spread(es) == AtomsOf(es[0]) + (AtomsOf(es[1]) + (AtomsOf(es[2]) + (AtomsOf(es[3]) + Spread(es[4..]))))
    ensures Shapes(es)[4..] == Shapes(es[4..])
  {
    assert es[0..] == es;
    Nth(es, 0);
    Nth(es, 1);
    Nth(es, 2);
    Nth(es, 3);
    Cut(es, 4);
  }

  lemma {:induction false} LiftTernaries(done: seq<Expr>, rest: seq<Expr>) returns (fs: seq<Expr>)
    requires Fine(done, 14) && Fine(rest, 13) && Ternaries(Shapes(done), Shapes(rest)).Some?
    ensures Fine(fs, 14) && Shapes(fs) == Ternaries(Shapes(done), Shapes(rest)).value
    ensures Spread(fs) == Spread(done) + Spread(rest)
    decreases |rest|
  {
    if rest == [] {
      return done;
    }
    var e := rest[0];
    TermOrRaw(e, 13);
    if !OpenTernary(Shape(e)) {
      First(rest);
      SnocFine(done, e, 14);
      fs := LiftTernaries(done + [e], rest[1..]);
      ConcatAssoc(Spread(done), AtomsOf(e), Spread(rest[1..]));
    } else {
      var k := |done| - 1;
      TermOrRaw(done[k], 14);
      TermOrRaw(rest[1], 13);
      TermOrRaw(rest[2], 13);
      TermOrRaw(rest[3], 13);
      var f := Infix(e.tok, done[k], Infix(rest[2].tok, rest[1], rest[3]));
      BindTernary(e, rest[2], done[k], rest[1], rest[3]);
      Last(done);
      FirstFour(rest);
      SnocFine(done[..k], f, 14);
      fs := LiftTernaries(done[..k] + [f], rest[4..]);
      RegroupTernary(Spread(done[..k]), AtomsOf(done[k]), AtomsOf(e), AtomsOf(rest[1]), AtomsOf(rest[2]),
                     AtomsOf(rest[3]), Spread(rest[4..]));
    }
  }

  // ----- Phase 5

  lemma BindAssign(e: Expr, l: Expr, r: Expr)
    requires Raw(e) && e.tok.op == Some(VarAssign) && Operand(l, 14) && Operand(r, 15)
    ensures Operand(Infix(e.tok, l, r), 15)
    ensures AtomsOf(Infix(e.tok, l, r)) == AtomsOf(l) + AtomsOf(e) + AtomsOf(r)
  {
  }

  lemma RegroupAssign<T>(t: seq<T>, l: seq<T>, o: seq<T>, r: seq<T>, d: seq<T>)
    ensures t + ((l + o + r) + d) == (t + (l + o)) + (r + d)
  {
  }

  lemma SpreadTwo(a: Expr, b: Expr)
    ensures Spread([a, b]) == AtomsOf(a) + AtomsOf(b)
  {
    SpreadCons(a, [b]);
    SpreadOne(b);
    assert [a] + [b] == [a, b];
  }

  /** The last two of a list. */
  lemma LastTwo(es: seq<Expr>, front: seq<Expr>, a: Expr, b: Expr)
    requires es == front + [a, b]
    ensures Spread(es) == Spread(front) + (AtomsOf(a) + AtomsOf(b))
    ensures Shapes(es)[..|front|] == Shapes(front)
  {
    SpreadJoin(front, [a, b]);
    SpreadTwo(a, b);
  }

  /** Undoes the binding of an assignment. */
  lemma AssignParts(todo: seq<Expr>, done: seq<Expr>) returns (f: Expr)
    requires |todo| >= 2 && done != [] && Fine(done, 15)
    requires var e := todo[|todo|-1]; Raw(e) && e.tok.op == Some(VarAssign)
    requires Operand(todo[|todo|-2], 14) && Operand(done[0], 15)
    ensures var k := |todo| - 1;
            && Fine([f] + done[1..], 15)
            && Shapes([f] + done[1..]) == [Shape(f)] + Shapes(done)[1..]
            && Shape(f) == Node(Shape(todo[k]).node, Shape(todo[k-1]), Shape(done[0]))
            && Shapes(todo)[..k-1] == Shapes(todo[..k-1])
            && Spread(todo[..k-1]) + Spread([f] + done[1..]) == Spread(todo) + Spread(done)
  {
    var k := |todo| - 1;
    var front, l, e := todo[..k-1], todo[k-1], todo[k];
    f := Infix(e.tok, l, done[0]);
    BindAssign(e, l, done[0]);
    LastTwo(todo, front, l, e);
    First(done);
    ConsFine(f, done[1..], 15);
    RegroupAssign(Spread(front), AtomsOf(l), AtomsOf(e), AtomsOf(done[0]), Spread(done[1..]));
  }

  /** One step of phase 5 that does not fail. */
  lemma AssignCase(todo: seq<Tree>, done: seq<Tree>)
    requires todo != [] && Assigns(todo, done).Some?
    ensures var k := |todo| - 1;
            if !OpenAssign(todo[k]) then Assigns(todo, done) == Assigns(todo[..k], [todo[k]] + done)
            else k > 0 && IsTerm(todo[k-1]) && done != [] && IsTerm(done[0])
                 && Assigns(todo, done) == Assigns(todo[..k-1], [Node(todo[k].node, todo[k-1], done[0])] + done[1..])
  {
  }

  /** A step that passes over the last of todo. */
  lemma AssignPassed(todo: seq<Expr>, done: seq<Expr>)
    requires todo != [] && Fine(todo, 14) && Fine(done, 15)
    requires !OpenAssign(Shape(todo[|todo|-1])) && Assigns(Shapes(todo), Shapes(done)).Some?
    ensures var k := |todo| - 1;
            && Fine([todo[k]] + done, 15)
            && Assigns(Shapes(todo), Shapes(done)) == Assigns(Shapes(todo[..k]), Shapes([todo[k]] + done))
            && Spread(todo[..k]) + Spread([todo[k]] + done) == Spread(todo) + Spread(done)
  {
    var e := todo[|todo|-1];
    var front := todo[..|todo|-1];
    AssignCase(Shapes(todo), Shapes(done));
    TermOrRaw(e, 14);
    Last(todo);
    ConsFine(e, done, 15);
    ConcatAssoc(Spread(front), AtomsOf(e), Spread(done));
  }

  /** A step that binds the last of todo. */
  lemma AssignBound(todo: seq<Expr>, done: seq<Expr>) returns (f: Expr)
    requires todo != [] && Fine(todo, 14) && Fine(done, 15)
    requires OpenAssign(Shape(todo[|todo|-1])) && Assigns(Shapes(todo), Shapes(done)).Some?
    ensures |todo| >= 2 && done != []
    ensures var k := |todo| - 1;
            && Fine([f] + done[1..], 15)
            && Assigns(Shapes(todo), Shapes(done)) == Assigns(Shapes(todo[..k-1]), Shapes([f] + done[1..]))
            && Spread(todo[..k-1]) + Spread([f] + done[1..]) == Spread(todo) + Spread(done)
  {
    var k := |todo| - 1;
    AssignCase(Shapes(todo), Shapes(done));
    TermOrRaw(todo[k], 14);
    TermOrRaw(todo[k-1], 14);
    TermOrRaw(done[0], 15);
    f := AssignParts(todo, done);
  }

  lemma {:induction false} LiftAssigns(todo: seq<Expr>, done: seq<Expr>) returns (fs: seq<Expr>)
    requires Fine(todo, 14) && Fine(done, 15) && Assigns(Shapes(todo), Shapes(done)).Some?
    ensures Fine(fs, 15) && Shapes(fs) == Assigns(Shapes(todo), Shapes(done)).value
    ensures Spread(fs) == Spread(todo) + Spread(done)
    decreases |todo|
  {
    if todo == [] {
      return done;
    }
    var k := |todo| - 1;
    if !OpenAssign(Shape(todo[k])) {
      AssignPassed(todo, done);
      fs := LiftAssigns(todo[..k], [todo[k]] + done);
    } else {
      var f := AssignBound(todo, done);
      fs := LiftAssigns(todo[..k-1], [f] + done[1..]);
    }
  }

  lemma LiftOperators(es: seq<Expr>) returns (fs: seq<Expr>)
    requires Fine(es, 0) && FoldOperators(Shapes(es)).Some?
    ensures Fine(fs, 15) && Shapes(fs) == FoldOperators(Shapes(es)).value && Spread(fs) == Spread(es)
  {
    var a := LiftPrefixes(es);
    var b := LiftLevels(2, a);
    assert Shapes([]) == [];
    var c := LiftTernaries([], b);
    assert Spread(c) == Spread(b);
    fs := LiftAssigns(c, []);
    assert Spread(fs) == Spread(c);
  }
}
