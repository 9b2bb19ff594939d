/** One slot at a time: what passing a slot, binding an operator or finding it
    stuck means for the list rewritings of module ExprTree.

    Every phase of the builder has its group of lemmas here.  A phase passes a slot
    that is none of its business, takes an operator together with its operands, or
    is stuck on an operator without them; the loops of module ExprBuilder need
    nothing else about the rewritings, and the invariants of these loops say how far
    the rewriting of the whole row has come. */
module ExprSteps {
  import opened Operators
  import opened ExprTree
  import opened ExprSlots
  import opened Sequences

  // ----- Phase 1

  /** done in front of what the rest of a phase leaves. */
  function Prefixed(done: seq<Tree>, r: Option<seq<Tree>>): Option<seq<Tree>> {
    if r.None? then None else Some(done + r.value)
  }

  lemma PrefixedTwice(a: seq<Tree>, b: seq<Tree>, r: Option<seq<Tree>>)
    ensures Prefixed(a, Prefixed(b, r)) == Prefixed(a + b, r)
  {
    if r.Some? {
      ConcatAssoc(a, b, r.value);
    }
  }

  lemma BracketsSkip(ts: seq<Tree>, j: int, hi: int, depth: int)
    requires 0 <= j < hi <= |ts| && !IsOp(ts[j], OpenBracket)
    ensures Brackets(ts[j..hi], depth) == Prefixed([ts[j]], Brackets(ts[j+1..hi], depth))
  {
    assert ts[j..hi][1..] == ts[j+1..hi];
  }

  lemma BracketsGroup(ts: seq<Tree>, j: int, m: int, hi: int, depth: int)
    requires 0 <= j < m <= hi <= |ts| && IsOp(ts[j], OpenBracket)
    requires m == j + 1 + CloseIndex(ts[j+1..hi], 1)
    ensures Brackets(ts[j..hi], depth)
         == if m == hi || m == j + 1 || Build(ts[j+1..m], depth + 1).None? then None
            else Prefixed(Build(ts[j+1..m], depth + 1).value, Brackets(ts[m+1..hi], depth))
  {
    var us := ts[j..hi];
    assert us[1..] == ts[j+1..hi];
    if m < hi {
      SliceOfSlice(ts, j, hi, 1, m - j);
      SliceOfSlice(ts, j, hi, m - j + 1, hi - j);
    }
  }

  /** Phase 1 at the group that opens in slot j of ts: it fails, or us has what the
      group leaves in slots j..next and the tokens from next on are still to come. */
  ghost predicate GroupRead(ts: seq<Tree>, us: seq<Tree>, j: int, next: int, hi: int, depth: int, ok: bool)
    requires 0 <= j <= next <= hi <= |ts| == |us|
  {
    Brackets(ts[j..hi], depth) == if ok then Prefixed(Compact(us, j, next), Brackets(ts[next..hi], depth)) else None
  }

  /** A group without a closing bracket, or with nothing in it. */
  lemma GroupRefused(ts: seq<Tree>, j: int, m: int, hi: int, depth: int)
    requires 0 <= j < m <= hi <= |ts| && IsOp(ts[j], OpenBracket)
    requires m == j + 1 + CloseIndex(ts[j+1..hi], 1) && (m == hi || m == j + 1)
    ensures GroupRead(ts, ts, j, hi, hi, depth, false) && SameOutside(ts, ts, j, hi)
  {
    BracketsGroup(ts, j, m, hi, depth);
  }

  /** A group that has been built into us, or failed to build; next is the slot after
      its closing bracket. */
  lemma GroupBuilt(ts: seq<Tree>, us: seq<Tree>, j: int, m: int, next: int, hi: int, depth: int, ok: bool)
    requires 0 <= j && j + 1 < m < hi <= |ts| && IsOp(ts[j], OpenBracket) && next == m + 1
    requires m == j + 1 + CloseIndex(ts[j+1..hi], 1)
    requires SameOutside(ts, us, j, m + 1) && (ok ==> AllSettled(us, j, m + 1))
    requires Build(ts[j+1..m], depth + 1) == if ok then Some(Compact(us, j, m + 1)) else None
    ensures GroupRead(ts, us, j, next, hi, depth, ok)
    ensures SameOutside(ts, us, j, next) && (ok ==> AllSettled(us, j, next))
  {
    BracketsGroup(ts, j, m, hi, depth);
    assert GroupRead(ts, us, j, m + 1, hi, depth, ok);
  }

  /** The bracket that closes a group. */
  lemma ClosingSlot(ts: seq<Tree>, j: int, m: int, hi: int)
    requires 0 <= j < m < hi <= |ts| && m == j + 1 + CloseIndex(ts[j+1..hi], 1)
    ensures IsOp(ts[m], CloseBracket)
  {
    ClosingToken(ts[j+1..hi], 1);
    assert ts[j+1..hi][m-j-1] == ts[m];
  }

  lemma SliceOfSlice<T>(s: seq<T>, a: int, b: int, c: int, d: int)
    requires 0 <= a <= b <= |s| && 0 <= c <= d <= b - a
    ensures s[a..b][c..d] == s[a+c..a+d]
  {
    var t := s[a..b];
    assert forall i | c <= i < d :: t[i] == s[a+i];
  }

  // ----- Phase 2

  lemma {:induction false} PrefixesFail(a: seq<Tree>, ts: seq<Tree>)
    requires Prefixes(ts).None?
    ensures Prefixes(a + ts).None?
  {
    if a == [] {
      assert a + ts == ts;
    } else {
      assert (a + ts)[1..] == a[1..] + ts;
      PrefixesFail(a[1..], ts);
    }
  }

  /** What the prefix pass makes of a slot in front of a scanned list. */
  function PrefixStep(t: Tree, tail: seq<Tree>): Option<seq<Tree>> {
    if t.Nil? then Some(tail) else PrefixOnto(t, tail)
  }

  lemma PrefixesStep(ts: seq<Tree>, j: int, hi: int)
    requires 0 <= j < hi <= |ts| && Prefixes(Compact(ts, j + 1, hi)).Some?
    ensures Prefixes(Compact(ts, j, hi)) == PrefixStep(ts[j], Prefixes(Compact(ts, j + 1, hi)).value)
  {
    if ts[j].Node? {
      assert ([ts[j]] + Compact(ts, j + 1, hi))[1..] == Compact(ts, j + 1, hi);
    }
  }

  lemma PrefixesFailFrom(ts: seq<Tree>, lo: int, j: int, hi: int)
    requires 0 <= lo <= j <= hi <= |ts| && Prefixes(Compact(ts, j, hi)).None?
    ensures Prefixes(Compact(ts, lo, hi)).None?
  {
    CompactSplit(ts, lo, j, hi);
    PrefixesFail(Compact(ts, lo, j), Compact(ts, j, hi));
  }

  lemma PrefixPass(ts: seq<Tree>, j: int, hi: int)
    requires 0 <= j < hi <= |ts| && !Open(ts[j], 1)
    ensures PrefixStep(ts[j], Compact(ts, j + 1, hi)) == Some(Compact(ts, j, hi))
  {
  }

  lemma PrefixStuck(ts: seq<Tree>, j: int, hi: int)
    requires 0 <= j < hi <= |ts| && Open(ts[j], 1)
    requires j + 1 == hi || (ts[j+1].Node? && !IsTerm(ts[j+1]))
    ensures PrefixOnto(ts[j], Compact(ts, j + 1, hi)).None?
  {
    if j + 1 < hi {
      CompactNext(ts, j + 1, j + 1, hi);
    }
  }

  lemma PrefixTake(ts: seq<Tree>, j: int, hi: int)
    requires 0 <= j && j + 1 < hi <= |ts| && Open(ts[j], 1) && IsTerm(ts[j+1])
    ensures PrefixOnto(ts[j], Compact(ts, j + 1, hi)) == Some(Compact(BoundPrefix(ts, j), j, hi))
  {
    CompactNext(ts, j + 1, j + 1, hi);
    CollapsedCompact(ts, BoundPrefix(ts, j), j, j, j + 1, j, hi);
    assert ([ts[j+1]] + Compact(ts, j + 2, hi))[1..] == Compact(ts, j + 2, hi);
  }

  // ----- Phase 3

  lemma BinaryPass(p: int, us: seq<Tree>, lo: int, j: int, hi: int)
    requires 0 <= lo <= j < hi <= |us| && !Open(us[j], p)
    ensures Binaries(p, Compact(us, lo, j), Compact(us, j, hi))
         == Binaries(p, Compact(us, lo, j + 1), Compact(us, j + 1, hi))
  {
    StepOver(us, lo, j);
    if us[j].Node? {
      assert ([us[j]] + Compact(us, j + 1, hi))[1..] == Compact(us, j + 1, hi);
    }
  }

  /** What lies around slot j, as lists. */
  lemma Around(us: seq<Tree>, lo: int, l: int, j: int, r: int, hi: int)
    requires PrevOccupied(us, lo, l, j) && NextOccupied(us, j + 1, r, hi) && us[j].Node?
    ensures Compact(us, lo, j) == if l < lo then [] else Compact(us, lo, l) + [us[l]]
    ensures Compact(us, j + 1, hi) == if r == hi then [] else [us[r]] + Compact(us, r + 1, hi)
    ensures Compact(us, j, hi) == [us[j]] + Compact(us, j + 1, hi)
    ensures Compact(us, lo, j + 1) == Compact(us, lo, j) + [us[j]]
  {
    CompactPrev(us, lo, l, j);
    CompactNext(us, j + 1, r, hi);
    StepOver(us, lo, j);
  }

  lemma BinaryStuck(p: int, us: seq<Tree>, lo: int, l: int, j: int, r: int, hi: int)
    requires PrevOccupied(us, lo, l, j) && NextOccupied(us, j + 1, r, hi) && Open(us[j], p)
    requires l < lo || !IsTerm(us[l]) || r == hi || !IsTerm(us[r])
    ensures Binaries(p, Compact(us, lo, j), Compact(us, j, hi)).None?
  {
    Around(us, lo, l, j, r, hi);
  }

  lemma BinaryTake(p: int, us: seq<Tree>, lo: int, l: int, j: int, r: int, hi: int)
    requires Adjacent(us, l, j, r) && 0 <= lo <= l && r < hi <= |us|
    requires Open(us[j], p) && IsTerm(us[l]) && IsTerm(us[r])
    ensures Binaries(p, Compact(us, lo, j), Compact(us, j, hi))
         == Binaries(p, Compact(Bound(us, l, j, r), lo, j + 1), Compact(Bound(us, l, j, r), j + 1, hi))
  {
    CollapsedCompact(us, Bound(us, l, j, r), l, j, r, lo, hi);
    Around(us, lo, l, j, r, hi);
    BinaryStep(p, us[j], Compact(us, lo, l), us[l], us[r], Compact(us, r + 1, hi));
  }

  // ----- Phase 4

  lemma TernaryPass(us: seq<Tree>, lo: int, j: int, hi: int)
    requires 0 <= lo <= j < hi <= |us| && !OpenTernary(us[j])
    ensures Ternaries(Compact(us, lo, j), Compact(us, j, hi))
         == Ternaries(Compact(us, lo, j + 1), Compact(us, j + 1, hi))
  {
    StepOver(us, lo, j);
    if us[j].Node? {
      assert ([us[j]] + Compact(us, j + 1, hi))[1..] == Compact(us, j + 1, hi);
    }
  }

  /** The operands the engine looks for, in the order it looks; hi stands for a
      slot it did not find. */
  ghost predicate TernaryOperands(us: seq<Tree>, lo: int, cond: int, q: int, yes: int, colon: int, no: int, hi: int) {
    && PrevOccupied(us, lo, cond, q) && q < hi <= |us| && OpenTernary(us[q])
    && NextOccupied(us, q + 1, yes, hi)
    && (if yes < hi then NextOccupied(us, yes + 1, colon, hi) else colon == hi)
    && (if colon < hi then NextOccupied(us, colon + 1, no, hi) else no == hi)
  }

  /** No colon in the range has operands yet. */
  ghost predicate ColonsFree(us: seq<Tree>, lo: int, hi: int)
    requires 0 <= lo <= hi <= |us|
  {
    forall k | lo <= k < hi && IsOp(us[k], TernaryC) :: us[k].left.Nil?
  }

  ghost predicate TernaryReady(us: seq<Tree>, lo: int, cond: int, yes: int, colon: int, no: int, hi: int)
    requires cond < |us| && 0 <= yes <= colon <= no <= hi <= |us| && 0 <= lo
  {
    && lo <= cond && IsTerm(us[cond])
    && yes < hi && IsTerm(us[yes])
    && colon < hi && IsOp(us[colon], TernaryC)
    && no < hi && IsTerm(us[no])
  }

  lemma TernaryLeft(us: seq<Tree>, lo: int, cond: int, q: int, hi: int)
    requires PrevOccupied(us, lo, cond, q) && q < hi <= |us| && us[q].Node?
    ensures Compact(us, lo, q) == if cond < lo then [] else Compact(us, lo, cond) + [us[cond]]
    ensures Compact(us, q, hi) == [us[q]] + Compact(us, q + 1, hi)
  {
    CompactPrev(us, lo, cond, q);
  }

  lemma TernaryRight(us: seq<Tree>, lo: int, cond: int, q: int, yes: int, colon: int, no: int, hi: int)
    requires TernaryOperands(us, lo, cond, q, yes, colon, no, hi)
    ensures Compact(us, q + 1, hi) == if yes == hi then [] else [us[yes]] + Compact(us, yes + 1, hi)
    ensures yes < hi ==>
      Compact(us, yes + 1, hi) == if colon == hi then [] else [us[colon]] + Compact(us, colon + 1, hi)
    ensures colon < hi ==> Compact(us, colon + 1, hi) == if no == hi then [] else [us[no]] + Compact(us, no + 1, hi)
  {
    CompactNext(us, q + 1, yes, hi);
    if yes < hi {
      CompactNext(us, yes + 1, colon, hi);
    }
    if colon < hi {
      CompactNext(us, colon + 1, no, hi);
    }
  }

  lemma TernaryStuck(us: seq<Tree>, lo: int, cond: int, q: int, yes: int, colon: int, no: int, hi: int)
    requires TernaryOperands(us, lo, cond, q, yes, colon, no, hi)
    requires !TernaryReady(us, lo, cond, yes, colon, no, hi)
    ensures Ternaries(Compact(us, lo, q), Compact(us, q, hi)).None?
  {
    TernaryLeft(us, lo, cond, q, hi);
    TernaryRight(us, lo, cond, q, yes, colon, no, hi);
    var done, rest := Compact(us, lo, q), Compact(us, q, hi);
    assert done == [] || done[|done|-1] == us[cond];
    if yes == hi || colon == hi || no == hi {
      assert |rest| <= 3;
      TernaryRefused(done, rest);
    } else {
      assert rest[1] == us[yes] && rest[2] == us[colon] && rest[3] == us[no];
      TernaryRefused(done, rest);
    }
  }

  lemma TernaryRefused(done: seq<Tree>, rest: seq<Tree>)
    requires rest != [] && OpenTernary(rest[0])
    requires done == [] || !IsTerm(done[|done|-1])
      || |rest| < 4 || !IsTerm(rest[1]) || !IsOp(rest[2], TernaryC) || !IsTerm(rest[3])
    ensures Ternaries(done, rest).None?
  {
  }

  lemma TernaryTake(us: seq<Tree>, vs: seq<Tree>, lo: int, cond: int, q: int, yes: int, colon: int, no: int, hi: int)
    requires TernaryOperands(us, lo, cond, q, yes, colon, no, hi)
    requires TernaryReady(us, lo, cond, yes, colon, no, hi)
    requires Collapsed(us, vs, cond, q, no)
    requires vs[q] == TernaryNode(us[q], us[colon], us[cond], us[yes], us[no])
    ensures Ternaries(Compact(us, lo, q), Compact(us, q, hi))
         == Ternaries(Compact(vs, lo, q + 1), Compact(vs, q + 1, hi))
  {
    TernaryLeft(us, lo, cond, q, hi);
    TernaryRight(us, lo, cond, q, yes, colon, no, hi);
    CollapsedCompact(us, vs, cond, q, no, lo, hi);
    TernaryStep(us[q], us[colon], Compact(us, lo, cond), us[cond], us[yes], us[no], Compact(us, no + 1, hi));
  }

  // ----- Phase 5

  lemma AssignPass(us: seq<Tree>, lo: int, j: int, hi: int)
    requires 0 <= lo <= j < hi <= |us| && !OpenAssign(us[j])
    ensures Assigns(Compact(us, lo, j + 1), Compact(us, j + 1, hi))
         == Assigns(Compact(us, lo, j), Compact(us, j, hi))
  {
    StepOver(us, lo, j);
    if us[j].Node? {
      var todo := Compact(us, lo, j) + [us[j]];
      assert todo[..|todo|-1] == Compact(us, lo, j);
    }
  }

  lemma AssignStuck(us: seq<Tree>, lo: int, l: int, j: int, r: int, hi: int)
    requires PrevOccupied(us, lo, l, j) && NextOccupied(us, j + 1, r, hi) && OpenAssign(us[j])
    requires l < lo || !IsTerm(us[l]) || r == hi || !IsTerm(us[r])
    ensures Assigns(Compact(us, lo, j + 1), Compact(us, j + 1, hi)).None?
  {
    Around(us, lo, l, j, r, hi);
  }

  lemma AssignTake(us: seq<Tree>, lo: int, l: int, j: int, r: int, hi: int)
    requires Adjacent(us, l, j, r) && 0 <= lo <= l && r < hi <= |us|
    requires OpenAssign(us[j]) && IsTerm(us[l]) && IsTerm(us[r])
    ensures Assigns(Compact(us, lo, j + 1), Compact(us, j + 1, hi))
         == Assigns(Compact(Bound(us, l, j, r), lo, j), Compact(Bound(us, l, j, r), j, hi))
  {
    CollapsedCompact(us, Bound(us, l, j, r), l, j, r, lo, hi);
    Around(us, lo, l, j, r, hi);
    AssignStep(us[j], Compact(us, lo, l), us[l], us[r], Compact(us, r + 1, hi));
  }

  /** Before the first step of the assignment pass, and after the last. */
  lemma AssignEnds(us: seq<Tree>, lo: int, hi: int)
    requires 0 <= lo <= hi <= |us|
    ensures Assigns(Compact(us, lo, hi), []) == Assigns(Compact(us, lo, hi), Compact(us, hi, hi))
    ensures Assigns(Compact(us, lo, lo), Compact(us, lo, hi)) == Some(Compact(us, lo, hi))
  {
    assert Compact(us, hi, hi) == [] && Compact(us, lo, lo) == [];
  }

  // ----- Success leaves something

  lemma {:induction false} PrefixesNonEmpty(ts: seq<Tree>)
    requires ts != [] && Prefixes(ts).Some?
    ensures Prefixes(ts).value != []
  {
  }

  lemma {:induction false} BinariesNonEmpty(p: int, done: seq<Tree>, rest: seq<Tree>)
    requires done + rest != [] && Binaries(p, done, rest).Some?
    ensures Binaries(p, done, rest).value != []
    decreases |rest|
  {
    if rest == [] {
    } else if !Open(rest[0], p) {
      BinariesNonEmpty(p, done + [rest[0]], rest[1..]);
    } else {
      BinariesNonEmpty(p, done[..|done|-1] + [Node(rest[0].node, done[|done|-1], rest[1])], rest[2..]);
    }
  }

  lemma {:induction false} BinaryLevelsNonEmpty(p: int, ts: seq<Tree>)
    requires ts != [] && BinaryLevels(p, ts).Some?
    ensures BinaryLevels(p, ts).value != []
    decreases 14 - p
  {
    if p <= 13 {
      BinariesNonEmpty(p, [], ts);
      BinaryLevelsNonEmpty(p + 1, Binaries(p, [], ts).value);
    }
  }

  lemma {:induction false} TernariesNonEmpty(done: seq<Tree>, rest: seq<Tree>)
    requires done + rest != [] && Ternaries(done, rest).Some?
    ensures Ternaries(done, rest).value != []
    decreases |rest|
  {
    if rest == [] {
    } else if !OpenTernary(rest[0]) {
      TernariesNonEmpty(done + [rest[0]], rest[1..]);
    } else {
      var bound := TernaryNode(rest[0], rest[2], done[|done|-1], rest[1], rest[3]);
      TernariesNonEmpty(done[..|done|-1] + [bound], rest[4..]);
    }
  }

  lemma {:induction false} AssignsNonEmpty(todo: seq<Tree>, done: seq<Tree>)
    requires todo + done != [] && Assigns(todo, done).Some?
    ensures Assigns(todo, done).value != []
    decreases |todo|
  {
    if todo != [] {
      var k := |todo| - 1;
      if !OpenAssign(todo[k]) {
        AssignsNonEmpty(todo[..k], [todo[k]] + done);
      } else {
        AssignsNonEmpty(todo[..k-1], [Node(todo[k].node, todo[k-1], done[0])] + done[1..]);
      }
    }
  }

  lemma FoldOperatorsNonEmpty(ts: seq<Tree>)
    requires ts != [] && FoldOperators(ts).Some?
    ensures FoldOperators(ts).value != []
  {
    PrefixesNonEmpty(ts);
    var unary := Prefixes(ts).value;
    BinaryLevelsNonEmpty(2, unary);
    var binary := BinaryLevels(2, unary).value;
    TernariesNonEmpty([], binary);
    AssignsNonEmpty(Ternaries([], binary).value, []);
  }

  lemma {:induction false} BracketsNonEmpty(ts: seq<Tree>, depth: int)
    requires ts != [] && Brackets(ts, depth).Some?
    ensures Brackets(ts, depth).value != []
    decreases |ts|, 0
  {
    if IsOp(ts[0], OpenBracket) {
      var m := CloseIndex(ts[1..], 1);
      BuildNonEmpty(ts[1..m+1], depth + 1);
    }
  }

  /** A successful build leaves at least one tree. */
  lemma {:induction false} BuildNonEmpty(ts: seq<Tree>, depth: int)
    requires Build(ts, depth).Some?
    ensures Build(ts, depth).value != []
    decreases |ts|, 1
  {
    BracketsNonEmpty(ts, depth);
    FoldOperatorsNonEmpty(Brackets(ts, depth).value);
  }

  // ----- The state phase 1 leaves for the others

  predicate IsLeaf(t: Tree) {
    t.Node? && t.left.Nil? && t.right.Nil?
  }

  /** A root that phases 2 and 4 of an enclosing call can rely on. */
  predicate Settled(t: Tree) {
    !Open(t, 1) && (IsOp(t, TernaryC) ==> t.left.Nil?)
  }

  /** Slots lo..j have been through phase 1: each holds a token or what an inner
      call settled, and no slot right after a waiting prefix operator is empty. */
  ghost predicate Scanned(ts: seq<Tree>, lo: int, j: int)
    requires 0 <= lo <= j <= |ts|
  {
    && (forall k | lo <= k < j && ts[k].Node? :: IsLeaf(ts[k]) || Settled(ts[k]))
    && (forall k | lo <= k < j - 1 && Open(ts[k], 1) :: ts[k+1].Node?)
  }

  /** No prefix operator in the range still waits for its operand. */
  ghost predicate PrefixesBound(us: seq<Tree>, lo: int, hi: int)
    requires 0 <= lo <= hi <= |us|
  {
    forall k | lo <= k < hi :: !Open(us[k], 1)
  }

  ghost predicate AllSettled(us: seq<Tree>, lo: int, hi: int)
    requires 0 <= lo <= hi <= |us|
  {
    forall k | lo <= k < hi :: Settled(us[k])
  }

  /** Bindings create no new raw roots. */
  lemma StaysBound(ts: seq<Tree>, us: seq<Tree>, lo: int, hi: int)
    requires 0 <= lo <= hi <= |ts| && Rearranges(ts, us, lo, hi)
    ensures PrefixesBound(ts, lo, hi) ==> PrefixesBound(us, lo, hi)
    ensures ColonsFree(ts, lo, hi) ==> ColonsFree(us, lo, hi)
  {
  }

  /** After phase 1 and bindings a colon still waits for its arms. */
  lemma ColonsStayFree(ts: seq<Tree>, us: seq<Tree>, lo: int, hi: int)
    requires 0 <= lo <= hi <= |ts| && Scanned(ts, lo, hi) && Rearranges(ts, us, lo, hi)
    ensures ColonsFree(us, lo, hi)
  {
  }

  lemma RearrangesTwice(ts: seq<Tree>, us: seq<Tree>, vs: seq<Tree>, lo: int, hi: int)
    requires Rearranges(ts, us, lo, hi) && Rearranges(us, vs, lo, hi)
    ensures Rearranges(ts, vs, lo, hi)
  {
  }

  /** Phases 2 and 3, and phases 4 and 5. */
  function FoldTight(ts: seq<Tree>): Option<seq<Tree>> {
    var unary := Prefixes(ts);
    if unary.None? then None else BinaryLevels(2, unary.value)
  }

  function FoldLoose(ts: seq<Tree>): Option<seq<Tree>> {
    var ternary := Ternaries([], ts);
    if ternary.None? then None else Assigns(ternary.value, [])
  }

  lemma FoldInTwo(ts: seq<Tree>)
    ensures FoldOperators(ts) == if FoldTight(ts).None? then None else FoldLoose(FoldTight(ts).value)
  {
  }

  ghost predicate SameOutside(ts: seq<Tree>, us: seq<Tree>, lo: int, hi: int) {
    |us| == |ts| && forall k | 0 <= k < |ts| && !(lo <= k < hi) :: us[k] == ts[k]
  }

  /** What phase 1 has made of slots lo..j, in front of what it still has to make
      of the tokens j..hi. */
  ghost function Pending(ts: seq<Tree>, us: seq<Tree>, lo: int, j: int, hi: int, depth: int): Option<seq<Tree>>
    requires 0 <= lo <= j <= hi <= |ts| && |us| == |ts|
    decreases j - lo
  {
    if lo == j then Brackets(ts[j..hi], depth)
    else if us[lo].Nil? then Pending(ts, us, lo + 1, j, hi, depth)
    else Prefixed([us[lo]], Pending(ts, us, lo + 1, j, hi, depth))
  }

  lemma {:induction false} PendingSplit(ts: seq<Tree>, us: seq<Tree>, lo: int, j: int, hi: int, depth: int)
    requires 0 <= lo <= j <= hi <= |ts| && |us| == |ts|
    ensures Pending(ts, us, lo, j, hi, depth) == Prefixed(Compact(us, lo, j), Brackets(ts[j..hi], depth))
    decreases j - lo
  {
    if lo == j {
      var r := Brackets(ts[j..hi], depth);
      assert r.Some? ==> [] + r.value == r.value;
    } else {
      PendingSplit(ts, us, lo + 1, j, hi, depth);
      PrefixedTwice([us[lo]], Compact(us, lo + 1, j), Brackets(ts[j..hi], depth));
    }
  }

  /** Phase 1 moves past a token that is not an opening bracket. */
  lemma ScanToken(ts: seq<Tree>, us: seq<Tree>, lo: int, j: int, hi: int, depth: int)
    requires 0 <= lo <= j < hi <= |ts| && |us| == |ts| && us[j] == ts[j] && IsLeaf(ts[j])
    requires !IsOp(ts[j], OpenBracket) && Scanned(us, lo, j)
    ensures Scanned(us, lo, j + 1)
    ensures Pending(ts, us, lo, j, hi, depth) == Pending(ts, us, lo, j + 1, hi, depth)
  {
    PendingSplit(ts, us, lo, j, hi, depth);
    PendingSplit(ts, us, lo, j + 1, hi, depth);
    BracketsSkip(ts, j, hi, depth);
    StepOver(us, lo, j);
    PrefixedTwice(Compact(us, lo, j), [ts[j]], Brackets(ts[j+1..hi], depth));
  }

  /** Phase 1 moves past a group. */
  lemma ScanGroup(ts: seq<Tree>, us: seq<Tree>, vs: seq<Tree>, lo: int, j: int, next: int, hi: int, depth: int)
    requires 0 <= lo <= j < next <= hi <= |ts| && |us| == |ts| && SameOutside(us, vs, j, next)
    requires Scanned(us, lo, j) && vs[j].Node?
    requires AllSettled(vs, j, next)
    requires forall k | j <= k < hi :: us[k] == ts[k]
    requires GroupRead(us, vs, j, next, hi, depth, true)
    ensures Scanned(vs, lo, next)
    ensures Pending(ts, us, lo, j, hi, depth) == Pending(ts, vs, lo, next, hi, depth)
  {
    PendingSplit(ts, us, lo, j, hi, depth);
    PendingSplit(ts, vs, lo, next, hi, depth);
    assert us[j..hi] == ts[j..hi] && us[next..hi] == ts[next..hi];
    CompactSame(us, vs, lo, j);
    CompactSplit(vs, lo, j, next);
    PrefixedTwice(Compact(us, lo, j), Compact(vs, j, next), Brackets(ts[next..hi], depth));
  }

  /** A group that cannot be built ends phase 1. */
  lemma ScanStuck(ts: seq<Tree>, us: seq<Tree>, vs: seq<Tree>, lo: int, j: int, next: int, hi: int, depth: int)
    requires 0 <= lo <= j < next <= hi <= |ts| && |us| == |ts| == |vs|
    requires forall k | j <= k < hi :: us[k] == ts[k]
    requires GroupRead(us, vs, j, next, hi, depth, false)
    ensures Pending(ts, us, lo, j, hi, depth).None?
  {
    PendingSplit(ts, us, lo, j, hi, depth);
    assert us[j..hi] == ts[j..hi];
  }

  lemma PendingEnds(ts: seq<Tree>, us: seq<Tree>, lo: int, hi: int, depth: int)
    requires 0 <= lo <= hi <= |ts| && |us| == |ts|
    ensures Pending(ts, us, lo, lo, hi, depth) == Brackets(ts[lo..hi], depth)
    ensures Pending(ts, us, lo, hi, hi, depth) == Some(Compact(us, lo, hi))
  {
    PendingSplit(ts, us, lo, hi, hi, depth);
    assert Compact(us, lo, hi) + [] == Compact(us, lo, hi);
  }

  /** The brackets in slots j and m are gone and the tree of slot j + 1 is in slot j. */
  function Unwrapped(ts: seq<Tree>, j: int, m: int): seq<Tree>
    requires 0 <= j && j + 1 < m < |ts|
  {
    ts[m := Nil][j := ts[j+1]][j+1 := Nil]
  }

  /** Emptying slots m and j and then moving the tree of slot j + 1. */
  lemma UnwrappedBySteps(ts: seq<Tree>, j: int, m: int)
    requires 0 <= j && j + 1 < m < |ts|
    ensures ts[m := Nil][j := Nil][j+1] == ts[j+1]
    ensures ts[m := Nil][j := Nil][j := ts[j+1]][j+1 := Nil] == Unwrapped(ts, j, m)
  {
  }

  lemma UnwrappedCompact(us: seq<Tree>, j: int, m: int)
    requires 0 <= j && j + 1 < m < |us| && us[j+1].Node?
    ensures Compact(Unwrapped(us, j, m), j, m + 1) == Compact(us, j + 1, m)
  {
    var vs := Unwrapped(us, j, m);
    assert vs[j] == us[j+1] && vs[j+1].Nil? && vs[m].Nil?;
    CompactAfter(vs, j + 1, j + 2, m + 1);
    CompactBefore(vs, j + 2, m, m + 1);
    CompactSame(us, vs, j + 2, m);
    assert Compact(vs, j, m + 1) == [vs[j]] + Compact(vs, j + 1, m + 1);
  }

  lemma UnwrappedOutside(us: seq<Tree>, j: int, m: int)
    requires 0 <= j && j + 1 < m < |us|
    ensures SameOutside(us, Unwrapped(us, j, m), j, m + 1)
    ensures AllSettled(us, j + 1, m) ==> AllSettled(Unwrapped(us, j, m), j, m + 1)
  {
  }

  lemma SomethingLeft(us: seq<Tree>, lo: int, i: int, hi: int)
    requires NextOccupied(us, lo, i, hi) && Compact(us, lo, hi) != []
    ensures i < hi
  {
    CompactNext(us, lo, i, hi);
  }

  /** The tree of slot i moved to the empty front of its range. */
  function Fronted(us: seq<Tree>, lo: int, i: int): seq<Tree>
    requires 0 <= lo < i < |us|
  {
    us[lo := us[i]][i := Nil]
  }

  lemma FrontedCompact(us: seq<Tree>, lo: int, i: int, hi: int)
    requires NextOccupied(us, lo, i, hi) && lo < i < hi
    ensures Compact(Fronted(us, lo, i), lo, hi) == Compact(us, lo, hi)
    ensures SameOutside(us, Fronted(us, lo, i), lo, hi)
    ensures AllSettled(us, lo, hi) ==> AllSettled(Fronted(us, lo, i), lo, hi)
    ensures Fronted(us, lo, i)[lo].Node?
    ensures ReadingAll(Fronted(us, lo, i), 0, |us|) == ReadingAll(us, 0, |us|)
  {
    var vs := Fronted(us, lo, i);
    CompactNext(us, lo, i, hi);
    CompactAfter(vs, lo + 1, i + 1, hi);
    CompactSame(us, vs, i + 1, hi);
    assert Compact(vs, lo, hi) == [us[i]] + Compact(us, i + 1, hi);
    MoveReading(us, i, lo);
  }
}
