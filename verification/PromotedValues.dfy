/** What evaluation with promotion comes to, operator by operator, in plain
    arithmetic on operands of any size. */
module PromotedValues {
  import opened Operators
  import opened ExprTree
  import opened ExprEval
  import opened WideInt
  import opened BigintText
  import opened RadixText
  import opened Promotion

  // ----- Operands

  /** An operand is read in full up to 511 digits; of a longer one the first 511 are. */
  lemma OperandRead(v: int, letters: string, digits: string, cut: nat)
    requires letters == LOWER_DIGITS && |letters| == 16 && digits == DigitsIn(Abs(v), 10, letters)
    requires cut == if |digits| > 511 then |digits| - 511 else 0
    ensures var m := Fronts(Abs(v), 10, cut); Reread(v) == if v < 0 then -(m as int) else m
    ensures Readable(v) <==> |digits| <= 511
  {
    var sign := if v < 0 then "-" else "";
    RenderedPlain(v, letters);
    DecimalDigits(Abs(v), letters);
    TextReads("", sign, "", Abs(v), 10, letters, digits, cut);
    assert "" + (sign + ("" + digits)) == Rendered(v);
  }

  // ----- Strict operators

  /** Sums, differences and products never overflow. */
  lemma SumPromoted(lib: Library, a: int, b: int)
    requires Readable(a) && Readable(b)
    ensures Promote(lib, Add, a, b) == Exact(a + b)
    ensures Promote(lib, Subtract, a, b) == Exact(a - b)
    ensures Promote(lib, Multiply, a, b) == Exact(a * b)
  {
    Seamless(lib, Add, a, b);
    Seamless(lib, Subtract, a, b);
    Seamless(lib, Multiply, a, b);
  }

  /** Comparisons give 1 or 0. */
  lemma ComparisonPromoted(lib: Library, op: Operator, a: int, b: int)
    requires op == Lt || op == Gt || op == Le || op == Ge || op == Eq || op == Ne
    requires Readable(a) && Readable(b)
    ensures op == Lt ==> Promote(lib, op, a, b) == Exact(if a < b then 1 else 0)
    ensures op == Gt ==> Promote(lib, op, a, b) == Exact(if a > b then 1 else 0)
    ensures op == Le ==> Promote(lib, op, a, b) == Exact(if a <= b then 1 else 0)
    ensures op == Ge ==> Promote(lib, op, a, b) == Exact(if a >= b then 1 else 0)
    ensures op == Eq ==> Promote(lib, op, a, b) == Exact(if a == b then 1 else 0)
    ensures op == Ne ==> Promote(lib, op, a, b) == Exact(if a != b then 1 else 0)
  {
    Seamless(lib, op, a, b);
  }

  /** v takes at most 63 bits beside its sign. */
  predicate Small(v: int) {
    -0x7fff_ffff_ffff_ffff <= v <= 0x7fff_ffff_ffff_ffff
  }

  lemma SmallExactly(v: int)
    requires Readable(v)
    ensures IsBigint(v) <==> !Small(v)
  {
    ReadableReread(v);
  }

  lemma RatioPlain(m: nat, n: nat)
    requires n > 0
    ensures Ratio(m, n) == m / n
  {
    FloorUnique(Ratio(m, n), m / n, m, n);
  }

  /** The remainder has the sign of the divisor; the quotient rounds down for small
      operands and toward zero when one of them is not small. */
  lemma DivisionPromoted(lib: Library, a: int, b: int)
    requires Readable(a) && Readable(b)
    ensures b == 0 ==> Promote(lib, Divide, a, b) == Promote(lib, Modulus, a, b) == DividesByZero
    ensures b > 0 ==> Promote(lib, Modulus, a, b) == Exact(a % b)
    ensures b < 0 ==> Promote(lib, Modulus, a, b) == Exact(-(-a % -b))
    ensures b != 0 && Small(a) && Small(b) ==>
      Promote(lib, Divide, a, b) == Exact(if b > 0 then a / b else -a / -b)
    ensures b != 0 && !(Small(a) && Small(b)) ==>
      Promote(lib, Divide, a, b) ==
        Exact(if (a < 0) == (b < 0) then Abs(a) / Abs(b) else -((Abs(a) / Abs(b)) as int))
  {
    Seamless(lib, Modulus, a, b);
    SmallExactly(a);
    SmallExactly(b);
    ReadableReread(a);
    ReadableReread(b);
    if b != 0 {
      DivisionPlain(a, b);
      RatioPlain(Abs(a), Abs(b));
      if Small(a) && Small(b) {
        DivideExactly(lib, a, b);
      }
    }
  }

  /** Powers.  An exponent within int gives the power, one beyond int64 is refused.  In
      between, the bases -1, 0 and 1 still give the power, and every other base is
      raised to what the low 32 bits of the exponent are as an int; if that is
      negative, the library decides.  A negative exponent gives 0 for small operands
      and is refused otherwise. */
  lemma PowerPromoted(lib: Library, a: int, b: int, low: nat)
    requires b >= 0 ==> Readable(a) && Readable(b)
    requires low == b % 0x1_0000_0000
    ensures b < 0 ==> Promote(lib, Exponent, a, b) == if IsBigint(a) || IsBigint(b) then Refused else Exact(0)
    ensures 0 <= b <= 0x7fff_ffff ==> Promote(lib, Exponent, a, b) == Exact(Power(a, b))
    ensures b > 0x7fff_ffff_ffff_ffff ==> Promote(lib, Exponent, a, b) == Refused
    ensures 0x7fff_ffff < b <= 0x7fff_ffff_ffff_ffff && -1 <= a <= 1 ==>
      Promote(lib, Exponent, a, b) == Exact(Power(a, b))
    ensures 0x7fff_ffff < b <= 0x7fff_ffff_ffff_ffff && !(-1 <= a <= 1) ==>
      Promote(lib, Exponent, a, b) ==
        if low <= 0x7fff_ffff then Exact(Power(a, low))
        else if lib(a, low - 0x1_0000_0000).Some? then Exact(lib(a, low - 0x1_0000_0000).value)
        else Refused
  {
    ExponentExactly(lib, a, b);
    if b >= 0 {
      ReadableReread(a);
      ReadableReread(b);
      if 0x7fff_ffff < b <= 0x7fff_ffff_ffff_ffff && !(-1 <= a <= 1) {
        LargePowerOverflows(a, b);
        assert CastToInt(b as int64) == if low <= 0x7fff_ffff then low else low - 0x1_0000_0000;
      }
    }
  }

  // ----- Trees

  /** The prefix operators, on an operand that is read in full. */
  lemma UnaryPromoted(lib: Library, t: Tree, depth: nat, leaf: Valuation, a: int)
    requires IntegerTree(t) && t.node.op.Some? && IsUnary(t.node.op.value) && depth < 1000
    requires PromotedValue(lib, t.left, depth + 1, leaf) == Exact(a) && Readable(a)
    ensures IsOp(t, UnaryMinus) ==> PromotedValue(lib, t, depth, leaf) == Exact(-a)
    ensures IsOp(t, UnaryPlus) ==> PromotedValue(lib, t, depth, leaf) == Exact(a)
    ensures IsOp(t, BitwiseNot) ==> PromotedValue(lib, t, depth, leaf) == Exact(-1 - a)
    ensures IsOp(t, LogicalNot) ==> PromotedValue(lib, t, depth, leaf) == Exact(if a == 0 then 1 else 0)
  {
    RereadExactly(a);
  }

  /** The outcome of a tree from those of its operands.  An evaluation 1000 calls deep
      fails, a literal has the value it stands for, of any size, and an operand that is
      needed and has no value decides.  A condition of a ternary must be a 64-bit
      integer; `&&` needs its right operand only after a left one that is not 0, `||`
      only after one that is. */
  lemma OutcomePromoted(lib: Library, t: Tree, depth: nat, leaf: Valuation)
    requires IntegerTree(t)
    ensures depth >= 1000 ==> PromotedValue(lib, t, depth, leaf) == TooNested
    ensures depth < 1000 && t.node.op.None? ==>
      PromotedValue(lib, t, depth, leaf) == if leaf(t.node).None? then Refused else Exact(leaf(t.node).value)
    ensures depth < 1000 && t.node.op.Some? ==>
      var l := PromotedValue(lib, t.left, depth + 1, leaf);
      PromotedValue(lib, t, depth, leaf) ==
        if !l.Exact? then l
        else if IsUnary(t.node.op.value) then Alone(t.node.op.value, l.v)
        else if IsOp(t, TernaryQ) then
          if !(-0x8000_0000_0000_0000 <= l.v <= 0x7fff_ffff_ffff_ffff) then Refused
          else PromotedValue(lib, if l.v == 0 then t.right.right else t.right.left, depth + 1, leaf)
        else if IsOp(t, LogicalAnd) && l.v == 0 then Exact(0)
        else if IsOp(t, LogicalOr) && l.v != 0 then Exact(1)
        else
          var r := PromotedValue(lib, t.right, depth + 1, leaf);
          if !r.Exact? then r
          else if IsOp(t, LogicalAnd) || IsOp(t, LogicalOr) then Exact(if r.v == 0 then 0 else 1)
          else Promote(lib, t.node.op.value, l.v, r.v)
  {
    if depth < 1000 && t.node.op.Some? && IsStrict(t.node.op.value) {
      BothStrict(lib, t, depth, leaf);
    }
  }

  lemma BothStrict(lib: Library, t: Tree, depth: nat, leaf: Valuation)
    requires IntegerTree(t) && t.node.op.Some? && IsStrict(t.node.op.value) && depth < 1000
    ensures var l, r := PromotedValue(lib, t.left, depth + 1, leaf), PromotedValue(lib, t.right, depth + 1, leaf);
            PromotedValue(lib, t, depth, leaf) ==
              if !l.Exact? then l else if !r.Exact? then r else Promote(lib, t.node.op.value, l.v, r.v)
  {
    var l := PromotedValue(lib, t.left, depth + 1, leaf);
    if l.Exact? {
      assert Next(t, l.v) == Some(t.right);
    }
  }
}
