/** Arithmetic with promotion: an operation runs on int64 while operands and result
    fit, and on arbitrary-precision integers otherwise.  Operands travel as decimal
    text, so the arbitrary-precision path sees what the parser makes of it. */
module Promotion {
  import opened Operators
  import opened WideInt
  import opened BigintText
  import opened ExprTree
  import opened ExprEval
  import opened ExprInterp

  datatype Promoted = Exact(v: int) | DividesByZero | Refused | TooNested

  /** What the library makes of a base and an exponent that the cast has made
      negative is left open: an error, or a number that is no larger than 1. */
  type Tiny = v: int | -1 <= v <= 1
  type Library = (int, int) -> Option<Tiny>

  /** What the arbitrary-precision path reads for the operand v. */
  function Reread(v: int): int {
    var r := Parsed(Rendered(v));
    if r.Some? then r.value else 0
  }

  /** The operand needs more than 63 bits, and so is no int64 for the engine: that
      includes the least int64. */
  predicate IsBigint(v: int) {
    Bits(Abs(Reread(v))) > 63
  }

  /** Operands the parser reads in full. */
  predicate Readable(v: int) {
    DigitCount(v) <= MAX_DIGITS
  }

  const INT_MAX: int := 0x7fff_ffff

  /** The conversion of a 64-bit exponent to a 32-bit int. */
  function CastToInt(v: int64): int {
    var low := v as int % 0x1_0000_0000;
    if low > INT_MAX then low - 0x1_0000_0000 else low
  }

  lemma ReadableReread(v: int)
    requires Readable(v)
    ensures Reread(v) == v
    ensures IsBigint(v) <==> !(-0x8000_0000_0000_0000 < v < 0x8000_0000_0000_0000)
  {
    ReadsBack(v);
    BitsMeans(Abs(v), 63);
    PowerOf63();
  }

  lemma PowerOf63()
    ensures Power(2, 63) == 0x8000_0000_0000_0000
  {
    PowerSum(2, 31, 32);
    PowerSum(2, 16, 16);
    PowerSum(2, 16, 15);
    PowerSum(2, 8, 8);
    PowerSum(2, 8, 7);
    assert Power(2, 7) == 128 && Power(2, 8) == 256;
  }

  lemma {:induction false} PowerSum(b: int, i: nat, j: nat)
    ensures Power(b, i + j) == Power(b, i) * Power(b, j)
  {
    if i > 0 {
      PowerSum(b, i - 1, j);
      Reorder(b, Power(b, i - 1), Power(b, j));
    }
  }

  /** A number without leading zero is at least 2 to the number of its other digits. */
  lemma {:induction false} LeadingDigit(s: string)
    requires s != "" && ValueOf(s, 10).Some? && IsDigit(s[0], 10) && s[0] != '0'
    ensures ValueOf(s, 10).value >= Power(2, |s| - 1) >= 1
  {
    var k := |s| - 1;
    if k == 0 {
      assert s[..0] == "";
    } else {
      LeadingDigit(s[..k]);
    }
  }

  /** An operand the parser cuts off is still taken for a bigint. */
  lemma CutIsBigint(v: int)
    requires !Readable(v)
    ensures IsBigint(v)
  {
    var ds := DigitsOf(Abs(v));
    var z := Rendered(v);
    DigitsValue(Abs(v));
    SingleZero(Abs(v));
    assert v < 0 ==> z[1..] == ds;
    assert SkipBlanks(z) == z;
    PlainDigits(ds);
    var kept := ds[..MAX_DIGITS];
    CutSmaller(ds, MAX_DIGITS);
    LeadingDigit(kept);
    PowersGrow(2, 63, MAX_DIGITS - 1);
    PowerPositive(2, 63);
    BitsMeans(ValueOf(kept, 10).value, 63);
    PlainDigits(kept);
    assert Abs(Reread(v)) == ValueOf(kept, 10).value;
  }

  /** The arbitrary-precision operations. */
  method BigintArith(lib: Library, op: Operator, left: int, right: int) returns (r: Promoted)
    requires IsStrict(op)
    ensures r == BigOutcome(lib, op, Reread(left), Reread(right), right)
  {
    var zLeft := FromStr(Rendered(left));
    var zRight := FromStr(Rendered(right));
    ReadAlways(left);
    ReadAlways(right);
    var a, b := zLeft.value, zRight.value;
    if (op == Divide || op == Modulus) && b == 0 {
      return DividesByZero;
    }
    if op == Divide {
      r := Exact(Truncated(a, b));
    } else if op == Modulus {
      r := Exact(FloorMod(a, b));
    } else if op == Exponent {
      if !InRange(right) || right < 0 {
        return Refused;
      }
      var exp := CastToInt(right as int64);
      r := if exp < 0 then NegativePower(lib, a, exp) else Exact(Power(a, exp));
    } else {
      r := Exact(StrictValue(op, a, b));
    }
  }

  lemma ReadAlways(v: int)
    ensures Parsed(Rendered(v)) == Some(Reread(v))
  {
    var n := Abs(v);
    var ds := DigitsOf(n);
    var z := Rendered(v);
    DigitsValue(n);
    SingleZero(n);
    assert v < 0 ==> z[1..] == ds;
    assert SkipBlanks(z) == z;
    MagnitudeCut(n);
  }

  function NegativePower(lib: Library, a: int, exp: int): Promoted {
    var r := lib(a, exp);
    if r.None? then Refused else Exact(r.value)
  }

  /** The meaning of the arbitrary-precision operations on the numbers read; the
      exponent is taken from its text a second time, as an int64. */
  function BigOutcome(lib: Library, op: Operator, a: int, b: int, right: int): Promoted
    requires IsStrict(op)
  {
    if op == Divide || op == Modulus then
      if b == 0 then DividesByZero else Exact(if op == Divide then Truncated(a, b) else FloorMod(a, b))
    else if op == Exponent then
      if !InRange(right) || right < 0 then Refused
      else
        var exp := CastToInt(right as int64);
        if exp < 0 then NegativePower(lib, a, exp) else Exact(Power(a, exp))
    else Exact(StrictValue(op, a, b))
  }

  /** An operand that is no bigint is read in full and fits int64. */
  lemma SmallIsExact(v: int)
    requires !IsBigint(v)
    ensures Reread(v) == v && InRange(v)
  {
    if !Readable(v) {
      CutIsBigint(v);
    }
    ReadableReread(v);
  }

  /** A strict operator with promotion. */
  method Apply(lib: Library, op: Operator, left: int, right: int) returns (r: Promoted)
    requires IsStrict(op)
    ensures r == Promote(lib, op, left, right)
  {
    if IsBigint(left) || IsBigint(right) {
      r := BigintArith(lib, op, left, right);
      return;
    }
    SmallIsExact(left);
    SmallIsExact(right);
    var wide := ApplyStrict(op, left as int64, right as int64);
    if wide.Ok? {
      return Exact(wide.value as int);
    }
    if wide.why == DivideByZero {
      return DividesByZero;
    }
    r := BigintArith(lib, op, left, right);
  }

  // ----- Main results

  /** What Apply returns for a and b. */
  function Promote(lib: Library, op: Operator, a: int, b: int): Promoted
    requires IsStrict(op)
  {
    if IsBigint(a) || IsBigint(b) then BigOutcome(lib, op, Reread(a), Reread(b), b)
    else if StrictOutcome(op, a, b) == Fails(DivideByZero) then DividesByZero
    else if StrictOutcome(op, a, b).Fails? then BigOutcome(lib, op, Reread(a), Reread(b), b)
    else Exact(StrictValue(op, a, b))
  }

  /** Addition, subtraction, multiplication, remainder and the comparisons give the
      exact result whichever path runs. */
  lemma Seamless(lib: Library, op: Operator, a: int, b: int)
    requires IsStrict(op) && op != Divide && op != Exponent
    requires Readable(a) && Readable(b)
    ensures Promote(lib, op, a, b) == if op == Modulus && b == 0 then DividesByZero else Exact(StrictValue(op, a, b))
  {
    ReadableReread(a);
    ReadableReread(b);
  }

  /** Only operands beyond the parser's digit limit are misread. */
  lemma RereadExactly(v: int)
    ensures Reread(v) == v <==> Readable(v)
  {
    ReadsBack(v);
    ReadAlways(v);
  }

  /** Division is exact on the int64 path; the other path rounds toward zero, which
      is the same unless the signs differ and something is left. */
  lemma DivideExactly(lib: Library, a: int, b: int)
    requires Readable(a) && Readable(b) && b != 0
    ensures Promote(lib, Divide, a, b) == Exact(FloorDiv(a, b))
       <==> !(IsBigint(a) || IsBigint(b)) || (a < 0) == (b < 0) || FloorMod(a, b) == 0
  {
    ReadableReread(a);
    ReadableReread(b);
    RoundedDown(a, b);
    TruncatedNearest(a, b);
    RemainderDown(a, b);
    if !(IsBigint(a) || IsBigint(b)) {
      DivideGuard(a as int64, b as int64);
    }
  }

  /** The powers of a base of magnitude at least 2 are all different. */
  lemma {:induction false} PowersGrow(a: int, i: nat, j: nat)
    requires Abs(a) >= 2 && i < j
    ensures Abs(Power(a, i)) < Abs(Power(a, j))
  {
    PowerNonZero(a, j - 1);
    ProductSize(a, Power(a, j - 1));
    Grows(Abs(Power(a, j - 1)), Abs(a));
    if i < j - 1 {
      PowersGrow(a, i, j - 1);
    }
  }

  lemma {:induction false} PowerNonZero(a: int, i: nat)
    requires a != 0
    ensures Power(a, i) != 0
  {
    if i > 0 {
      PowerNonZero(a, i - 1);
      ProductSize(a, Power(a, i - 1));
    }
  }

  /** A power of -1, 0 or 1 is one of these. */
  lemma {:induction false} SmallPower(a: int, i: nat)
    requires -1 <= a <= 1
    ensures -1 <= Power(a, i) <= 1
  {
    if i > 0 {
      SmallPower(a, i - 1);
    }
  }

  lemma CastExactly(v: int64)
    requires v >= 0
    ensures CastToInt(v) < v as int <==> v as int > INT_MAX
    ensures v as int <= INT_MAX ==> CastToInt(v) == v as int
  {
  }

  /** With an exponent beyond int, the library computes something else than the power. */
  lemma WrongPower(lib: Library, a: int, b: nat)
    requires Abs(a) >= 2 && b > INT_MAX && InRange(b)
    ensures BigOutcome(lib, Exponent, a, b, b) != Exact(Power(a, b)) && !InRange(Power(a, b))
  {
    var c := CastToInt(b as int64);
    CastExactly(b as int64);
    LargePowerOverflows(a, b);
    if c >= 0 {
      PowersGrow(a, c, b);
    }
  }

  /** A power is exact when its exponent fits an int, or when it fits an int64 and the
      base is -1, 0 or 1; in every other case it is wrong or refused.  A negative
      exponent gives 0 as long as both operands are small, and is refused otherwise. */
  lemma ExponentExactly(lib: Library, a: int, b: int)
    requires b >= 0 ==> Readable(a) && Readable(b)
    ensures Promote(lib, Exponent, a, b) == Exact(StrictValue(Exponent, a, b)) <==>
      if b < 0 then !IsBigint(a) && !IsBigint(b) else b <= INT_MAX || (InRange(b) && Abs(a) <= 1)
    ensures b < 0 && (IsBigint(a) || IsBigint(b)) ==> Promote(lib, Exponent, a, b) == Refused
  {
    if b >= 0 {
      ReadableReread(a);
      ReadableReread(b);
      if InRange(b) {
        CastExactly(b as int64);
        if Abs(a) <= 1 {
          SmallPower(a, b);
        } else if b > INT_MAX {
          WrongPower(lib, a, b);
        }
      }
    }
  }

  /** From exponent 64 on, a base of magnitude at least 2 leaves int64. */
  lemma LargePowerOverflows(a: int, b: nat)
    requires Abs(a) >= 2 && b >= 64
    ensures !InRange(Power(a, b))
  {
    PowerAtLeast(a, 64);
    PowerOf63();
    assert Power(2, 64) == 2 * Power(2, 63);
    if b > 64 {
      PowersGrow(a, 64, b);
    }
  }

  lemma {:induction false} PowerAtLeast(a: int, i: nat)
    requires Abs(a) >= 2
    ensures Abs(Power(a, i)) >= Power(2, i) >= 1
  {
    if i > 0 {
      PowerAtLeast(a, i - 1);
      PowerNonZero(a, i - 1);
      ProductSize(a, Power(a, i - 1));
      assert Abs(a) * Abs(Power(a, i - 1)) >= 2 * Abs(Power(a, i - 1)) by {
        MoreTimes(2, Abs(a), Abs(Power(a, i - 1)));
      }
    }
  }

  lemma MoreTimes(x: nat, y: nat, z: nat)
    requires x <= y
    ensures x * z <= y * z
  {
  }

  /** When one strict operator gives its exact value on exact operands. */
  predicate ExactStep(op: Operator, a: int, b: int)
    requires IsStrict(op)
  {
    if op == Divide then b != 0 && (!(IsBigint(a) || IsBigint(b)) || (a < 0) == (b < 0) || FloorMod(a, b) == 0)
    else if op == Modulus then b != 0
    else if op == Exponent then
      if b < 0 then !IsBigint(a) && !IsBigint(b) else b <= INT_MAX || (InRange(b) && Abs(a) <= 1)
    else true
  }

  lemma StrictExactly(lib: Library, op: Operator, a: int, b: int)
    requires IsStrict(op) && Readable(a) && Readable(b)
    ensures Promote(lib, op, a, b) == Exact(StrictValue(op, a, b)) <==> ExactStep(op, a, b)
    ensures op != Divide && op != Exponent ==> (Promote(lib, op, a, b).Exact? <==> ExactStep(op, a, b))
  {
    if op == Exponent {
      ExponentExactly(lib, a, b);
    } else if op != Divide {
      Seamless(lib, op, a, b);
    } else if b != 0 {
      DivideExactly(lib, a, b);
    } else {
      RereadExactly(b);
    }
  }

  /** The unary operators with promotion: exact on the operand as it is read. */
  method ApplyUnaryPromoted(op: Operator, v: int) returns (r: int)
    requires IsUnary(op)
    ensures r == UnaryValue(op, Reread(v))
    ensures Readable(v) ==> r == UnaryValue(op, v)
  {
    RereadExactly(v);
    if !IsBigint(v) {
      SmallIsExact(v);
      var wide := ApplyUnary(op, v as int64);
      if wide.Ok? {
        return wide.value as int;
      }
    }
    var parsed := FromStr(Rendered(v));
    ReadAlways(v);
    r := UnaryValue(op, parsed.value);
  }

  // ----- Whole trees with promotion

  /** The operand of t to turn to once the first one has the value v: the condition of
      a ternary must fit int64, the logical operators take any number for a truth
      value. */
  function Next(t: Tree, v: int): (s: Option<Tree>)
    requires IntegerTree(t) && t.node.op.Some?
    ensures s.Some? ==> IntegerTree(s.value) && s.value < t
  {
    var op := t.node.op.value;
    if IsUnary(op) || (op == TernaryQ && !InRange(v)) then None
    else if op == TernaryQ then Some(if v != 0 then t.right.left else t.right.right)
    else if IsLogical(op) && (v != 0) == (op == LogicalOr) then None
    else Some(t.right)
  }

  /** The value of an operator that needs only its first operand. */
  function Alone(op: Operator, v: int): Promoted {
    if IsUnary(op) then Exact(UnaryValue(op, Reread(v)))
    else if op == TernaryQ then Refused
    else Exact(Truth(op == LogicalOr))
  }

  /** The value of an operator with both its operands. */
  function Both(lib: Library, op: Operator, v: int, w: int): Promoted {
    if IsStrict(op) then Promote(lib, op, v, w)
    else if IsLogical(op) then Exact(Truth(w != 0))
    else Exact(w)
  }

  /** The value of a tree with promotion, depth calls deep: evaluated lazily, with
      results of any size. */
  function PromotedValue(lib: Library, t: Tree, depth: nat, leaf: Valuation): Promoted
    requires IntegerTree(t)
  {
    if depth >= MAX_EXPR_DEPTH then TooNested
    else if t.node.op.None? then (if leaf(t.node).Some? then Exact(leaf(t.node).value) else Refused)
    else
      var l := PromotedValue(lib, t.left, depth + 1, leaf);
      if !l.Exact? then l
      else
        var s := Next(t, l.v);
        if s.None? then Alone(t.node.op.value, l.v)
        else
          var r := PromotedValue(lib, s.value, depth + 1, leaf);
          if !r.Exact? then r else Both(lib, t.node.op.value, l.v, r.v)
  }

  /** The outcome of t once its first operand has the value v. */
  function PromotedRest(lib: Library, t: Tree, v: int, depth: nat, leaf: Valuation): Promoted
    requires IntegerTree(t) && t.node.op.Some?
  {
    var s := Next(t, v);
    if s.None? then Alone(t.node.op.value, v)
    else
      var r := PromotedValue(lib, s.value, depth + 1, leaf);
      if !r.Exact? then r else Both(lib, t.node.op.value, v, r.v)
  }

  /** The literals that this evaluation substitutes, in order. */
  function PromotedTried(lib: Library, t: Tree, depth: nat, leaf: Valuation): seq<ExprNode>
    requires IntegerTree(t)
  {
    if depth >= MAX_EXPR_DEPTH then []
    else if t.node.op.None? then [t.node]
    else
      var l := PromotedValue(lib, t.left, depth + 1, leaf);
      PromotedTried(lib, t.left, depth + 1, leaf) +
      (if !l.Exact? || Next(t, l.v).None? then [] else PromotedTried(lib, Next(t, l.v).value, depth + 1, leaf))
  }

  /** The operands that are visited and read from their text, those of unary and
      strict operators, have at most as many digits as the parser reads. */
  predicate AllReadable(t: Tree, leaf: Valuation)
    requires IntegerTree(t)
  {
    t.node.op.Some? ==>
      && AllReadable(t.left, leaf)
      && (Second(t, leaf).Some? ==> AllReadable(Second(t, leaf).value, leaf))
      && (IsUnary(t.node.op.value) || IsStrict(t.node.op.value) ==> Readable(Ideal(t.left, leaf)))
      && (IsStrict(t.node.op.value) ==> Readable(Ideal(t.right, leaf)))
  }

  /** The conditions on one operator. */
  predicate StepUnobstructed(t: Tree, leaf: Valuation)
    requires IntegerTree(t) && t.node.op.Some?
  {
    && (t.node.op.value == TernaryQ ==> InRange(Ideal(t.left, leaf)))
    && (IsStrict(t.node.op.value) ==> ExactStep(t.node.op.value, Ideal(t.left, leaf), Ideal(t.right, leaf)))
  }

  /** No literal that is visited fails, every visited condition of a ternary fits
      int64, and every visited strict operator is exact on its exact operands. */
  predicate Unobstructed(t: Tree, leaf: Valuation)
    requires IntegerTree(t)
  {
    if t.node.op.None? then leaf(t.node).Some?
    else
      && Unobstructed(t.left, leaf) && StepUnobstructed(t, leaf)
      && (Second(t, leaf).Some? ==> Unobstructed(Second(t, leaf).value, leaf))
  }

  /** Every subterm that a lazy evaluation visits has its exact value. */
  predicate ExactThroughout(lib: Library, t: Tree, depth: nat, leaf: Valuation)
    requires IntegerTree(t)
  {
    && PromotedValue(lib, t, depth, leaf) == Exact(Ideal(t, leaf))
    && (t.node.op.Some? ==>
         && ExactThroughout(lib, t.left, depth + 1, leaf)
         && (Second(t, leaf).Some? ==> ExactThroughout(lib, Second(t, leaf).value, depth + 1, leaf)))
  }

  /** On an exact first operand the evaluation goes on as the ideal one does. */
  lemma NextIsSecond(t: Tree, leaf: Valuation)
    requires IntegerTree(t) && t.node.op.Some?
    ensures t.node.op.value == TernaryQ ==> (Next(t, Ideal(t.left, leaf)).Some? <==> InRange(Ideal(t.left, leaf)))
    ensures Next(t, Ideal(t.left, leaf)).Some? || t.node.op.value != TernaryQ ==>
      Next(t, Ideal(t.left, leaf)) == Second(t, leaf)
  {
  }

  /** One operator over operands that have their exact values. */
  lemma OperatorExactly(lib: Library, t: Tree, depth: nat, leaf: Valuation)
    requires IntegerTree(t) && t.node.op.Some? && AllReadable(t, leaf) && depth < MAX_EXPR_DEPTH
    requires PromotedValue(lib, t.left, depth + 1, leaf) == Exact(Ideal(t.left, leaf))
    requires Second(t, leaf).Some? ==>
      PromotedValue(lib, Second(t, leaf).value, depth + 1, leaf) == Exact(Ideal(Second(t, leaf).value, leaf))
    ensures PromotedValue(lib, t, depth, leaf) == Exact(Ideal(t, leaf)) <==> StepUnobstructed(t, leaf)
  {
    NextIsSecond(t, leaf);
    if IsUnary(t.node.op.value) {
      RereadExactly(Ideal(t.left, leaf));
    } else if IsStrict(t.node.op.value) {
      StrictExactly(lib, t.node.op.value, Ideal(t.left, leaf), Ideal(t.right, leaf));
    }
  }

  /** An operator and its operands are exact exactly when the operands are and the
      operator's conditions hold. */
  lemma ExactlyByParts(lib: Library, t: Tree, depth: nat, leaf: Valuation)
    requires IntegerTree(t) && t.node.op.Some? && AllReadable(t, leaf) && depth < MAX_EXPR_DEPTH
    ensures ExactThroughout(lib, t, depth, leaf) <==>
      && ExactThroughout(lib, t.left, depth + 1, leaf) && StepUnobstructed(t, leaf)
      && (Second(t, leaf).Some? ==> ExactThroughout(lib, Second(t, leaf).value, depth + 1, leaf))
  {
    var s := Second(t, leaf);
    if ExactThroughout(lib, t.left, depth + 1, leaf)
       && (s.Some? ==> ExactThroughout(lib, s.value, depth + 1, leaf)) {
      OperatorExactly(lib, t, depth, leaf);
    }
  }

  /** Nothing obstructs the evaluation of t, and it does not nest too deeply. */
  predicate Clear(t: Tree, depth: nat, leaf: Valuation)
    requires IntegerTree(t)
  {
    Unobstructed(t, leaf) && depth + LazyHeight(t, leaf) <= MAX_EXPR_DEPTH
  }

  lemma ClearByParts(t: Tree, depth: nat, leaf: Valuation)
    requires IntegerTree(t) && t.node.op.Some?
    ensures Clear(t, depth, leaf) <==>
      && Clear(t.left, depth + 1, leaf) && StepUnobstructed(t, leaf)
      && (Second(t, leaf).Some? ==> Clear(Second(t, leaf).value, depth + 1, leaf))
  {
  }

  /** With promotion an evaluation is exact in every step exactly when nothing
      obstructs it and it does not nest too deeply. */
  lemma {:induction false} PromotionExactly(lib: Library, t: Tree, depth: nat, leaf: Valuation)
    requires IntegerTree(t) && AllReadable(t, leaf)
    ensures ExactThroughout(lib, t, depth, leaf) <==> Clear(t, depth, leaf)
  {
    if depth >= MAX_EXPR_DEPTH {
      assert PromotedValue(lib, t, depth, leaf) == TooNested;
    } else if t.node.op.Some? {
      PromotionExactly(lib, t.left, depth + 1, leaf);
      if Second(t, leaf).Some? {
        PromotionExactly(lib, Second(t, leaf).value, depth + 1, leaf);
      }
      ExactlyByParts(lib, t, depth, leaf);
      ClearByParts(t, depth, leaf);
    } else {
      assert LazyHeight(t, leaf) == 1;
    }
  }

  /** An exact evaluation substitutes exactly the literals it needs, from left to right. */
  lemma {:induction false} ExactInLazyOrder(lib: Library, t: Tree, depth: nat, leaf: Valuation)
    requires IntegerTree(t) && ExactThroughout(lib, t, depth, leaf)
    ensures PromotedTried(lib, t, depth, leaf) == LazyOrder(t, leaf)
  {
    if t.node.op.Some? {
      var s := Second(t, leaf);
      NextIsSecond(t, leaf);
      ExactInLazyOrder(lib, t.left, depth + 1, leaf);
      if s.Some? {
        ExactInLazyOrder(lib, s.value, depth + 1, leaf);
      }
    }
  }

  /** No division and no power in t. */
  predicate Smooth(t: Tree)
    requires IntegerTree(t)
  {
    if t.node.op.None? then true
    else
      var op := t.node.op.value;
      && op != Divide && op != Exponent && Smooth(t.left)
      && (if IsUnary(op) then true
          else if op == TernaryQ then Smooth(t.right.left) && Smooth(t.right.right)
          else Smooth(t.right))
  }

  /** An operator other than division and power is exact on exact operands, or refused. */
  lemma SmoothOperator(lib: Library, t: Tree, leaf: Valuation)
    requires IntegerTree(t) && Smooth(t) && AllReadable(t, leaf) && t.node.op.Some?
    ensures var op, l := t.node.op.value, Ideal(t.left, leaf);
            && (IsUnary(op) ==> Alone(op, l) == Exact(Ideal(t, leaf)))
            && (IsStrict(op) ==>
                 var r := Promote(lib, op, l, Ideal(t.right, leaf));
                 && (r.Exact? <==> StepUnobstructed(t, leaf)) && (r.Exact? ==> r == Exact(Ideal(t, leaf))))
  {
    var op := t.node.op.value;
    if IsUnary(op) {
      RereadExactly(Ideal(t.left, leaf));
    } else if IsStrict(op) {
      StrictExactly(lib, op, Ideal(t.left, leaf), Ideal(t.right, leaf));
    }
  }

  /** Such an operator has a value exactly when its operands have and its conditions hold. */
  lemma SmoothByParts(lib: Library, t: Tree, depth: nat, leaf: Valuation)
    requires IntegerTree(t) && Smooth(t) && AllReadable(t, leaf) && t.node.op.Some? && depth < MAX_EXPR_DEPTH
    requires var l := PromotedValue(lib, t.left, depth + 1, leaf); l.Exact? ==> l == Exact(Ideal(t.left, leaf))
    requires var s := Second(t, leaf);
             s.Some? ==>
               var r := PromotedValue(lib, s.value, depth + 1, leaf);
               r.Exact? ==> r == Exact(Ideal(s.value, leaf))
    ensures var v := PromotedValue(lib, t, depth, leaf);
            && (v.Exact? <==>
                 && PromotedValue(lib, t.left, depth + 1, leaf).Exact? && StepUnobstructed(t, leaf)
                 && (Second(t, leaf).Some? ==> PromotedValue(lib, Second(t, leaf).value, depth + 1, leaf).Exact?))
            && (v.Exact? ==> v == Exact(Ideal(t, leaf)))
  {
    NextIsSecond(t, leaf);
    SmoothOperator(lib, t, leaf);
  }

  /** With promotion a tree without divisions and powers never goes wrong silently: it
      has a value exactly when nothing obstructs it and it does not nest too deeply,
      and that is the unbounded value. */
  lemma {:induction false} PromotionIsExact(lib: Library, t: Tree, depth: nat, leaf: Valuation)
    requires IntegerTree(t) && Smooth(t) && AllReadable(t, leaf)
    ensures PromotedValue(lib, t, depth, leaf).Exact? <==> Clear(t, depth, leaf)
    ensures PromotedValue(lib, t, depth, leaf).Exact? ==> PromotedValue(lib, t, depth, leaf) == Exact(Ideal(t, leaf))
  {
    if depth >= MAX_EXPR_DEPTH {
      assert PromotedValue(lib, t, depth, leaf) == TooNested;
    } else if t.node.op.Some? {
      PromotionIsExact(lib, t.left, depth + 1, leaf);
      if Second(t, leaf).Some? {
        SmoothSecond(t, leaf);
        PromotionIsExact(lib, Second(t, leaf).value, depth + 1, leaf);
      }
      SmoothByParts(lib, t, depth, leaf);
      ClearByParts(t, depth, leaf);
    } else {
      assert LazyHeight(t, leaf) == 1;
    }
  }

  lemma SmoothSecond(t: Tree, leaf: Valuation)
    requires IntegerTree(t) && Smooth(t) && t.node.op.Some? && Second(t, leaf).Some?
    ensures Smooth(Second(t, leaf).value)
  {
  }

  // ----- Where the results are not exact

  lemma WideReadable(v: int)
    requires Abs(v) <= 0x8000_0000_0000_0000
    ensures Readable(v)
  {
    PowerOf63();
    assert Power(2, 64) == 2 * Power(2, 63);
    BitsMeans(Abs(v), 64);
    DigitsShort(Abs(v));
  }

  /** A wide division with operands of different signs and something left is one off. */
  lemma RoundedUp(lib: Library, a: int, b: int)
    requires Readable(a) && Readable(b) && b != 0 && (IsBigint(a) || IsBigint(b))
    requires (a < 0) != (b < 0) && FloorMod(a, b) != 0
    ensures Promote(lib, Divide, a, b) == Exact(FloorDiv(a, b) + 1)
  {
    ReadableReread(a);
    ReadableReread(b);
    RoundedDown(a, b);
    TruncatedNearest(a, b);
    RemainderDown(a, b);
  }

  /** The least int64 divided by 3 is rounded toward zero. */
  lemma LeastDividedBy3(lib: Library, a: int, b: int)
    requires a == INT64_MIN as int && b == 3
    ensures Promote(lib, Divide, a, b) == Exact(FloorDiv(a, b) + 1)
  {
    WideReadable(a);
    WideReadable(b);
    ReadableReread(a);
    RoundedUp(lib, a, b);
  }

  /** An exponent that the cast turns into 0 gives 1. */
  lemma WrappedExponent(lib: Library, a: int, b: nat)
    requires Readable(a) && Readable(b) && Abs(a) >= 2
    requires b > INT_MAX && InRange(b) && CastToInt(b as int64) == 0
    ensures Promote(lib, Exponent, a, b) == Exact(1)
  {
    ReadableReread(a);
    ReadableReread(b);
    LargePowerOverflows(a, b);
  }

  /** The powers of 2 with exponents 2^31 and 2^32 come out wrong: the second one is 1. */
  lemma PowersBeyondInt(lib: Library, b: int)
    requires b == 0x8000_0000 || b == 0x1_0000_0000
    ensures Promote(lib, Exponent, 2, b) != Exact(StrictValue(Exponent, 2, b))
    ensures b == 0x1_0000_0000 ==> Promote(lib, Exponent, 2, b) == Exact(1)
  {
    WideReadable(2);
    WideReadable(b);
    ExponentExactly(lib, 2, b);
    if b == 0x1_0000_0000 {
      WrappedExponent(lib, 2, b);
    }
  }

  /** A ternary whose condition is 2^63 is refused although its value is that of a
      literal. */
  lemma WideCondition(lib: Library, q: ExprNode, colon: ExprNode, cond: ExprNode, yes: ExprNode, no: ExprNode,
                      leaf: Valuation)
    requires q.op == Some(TernaryQ) && colon.op == Some(TernaryC)
    requires cond.op.None? && yes.op.None? && no.op.None?
    requires leaf(cond) == Some(0x8000_0000_0000_0000) && leaf(yes).Some?
    ensures var t := Node(q, Leaf(cond), Node(colon, Leaf(yes), Leaf(no)));
            && IntegerTree(t) && PromotedValue(lib, t, 0, leaf) == Refused && Ideal(t, leaf) == leaf(yes).value
  {
    var t := Node(q, Leaf(cond), Node(colon, Leaf(yes), Leaf(no)));
    assert IntegerTree(Leaf(cond)) && IntegerTree(Leaf(yes)) && IntegerTree(Leaf(no));
    assert PromotedValue(lib, Leaf(cond), 1, leaf) == Exact(0x8000_0000_0000_0000);
    assert Ideal(Leaf(cond), leaf) != 0 && Ideal(Leaf(yes), leaf) == leaf(yes).value;
  }
}
