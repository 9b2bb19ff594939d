/** The engine's guarded 64-bit arithmetic.  Every guard and every operation is
    computed in int64, so the verifier also checks that no guard overflows. */
module WideInt {

  newtype int64 = x: int | -0x8000_0000_0000_0000 <= x < 0x8000_0000_0000_0000

  const INT64_MIN: int64 := -0x8000_0000_0000_0000
  const INT64_MAX: int64 := 0x7fff_ffff_ffff_ffff

  predicate InRange(v: int) {
    INT64_MIN as int <= v <= INT64_MAX as int
  }

  function Abs(v: int): nat {
    if v < 0 then -v else v
  }

  // ----- Division

  /** How often n fits into m. */
  function Ratio(m: nat, n: nat): (q: nat)
    requires n > 0
    ensures q * n <= m < q * n + n
    decreases m
  {
    if m < n then 0
    else
      var q := Ratio(m - n, n);
      assert (q + 1) * n == q * n + n;
      q + 1
  }

  /** The quotient of a C division: rounded toward zero. */
  function Truncated(a: int, b: int): int
    requires b != 0
  {
    if (a < 0) == (b < 0) then Ratio(Abs(a), Abs(b)) else -(Ratio(Abs(a), Abs(b)) as int)
  }

  lemma Grows(q: nat, n: nat)
    requires n > 0
    ensures q <= q * n
    ensures n > 1 ==> 2 * q <= q * n
  {
    assert q * n == q + q * (n - 1);
    if n > 1 {
      assert q * n == 2 * q + q * (n - 2);
    }
  }

  lemma Signs(q: int, b: int)
    ensures (-q) * b == -(q * b) == q * -b
  {
  }

  /** The multiple of b that is nearest to a on the side of zero, given as q
      times the magnitude of b. */
  predicate Nearest(m: int, a: int, b: int) {
    Abs(m) <= Abs(a) < Abs(m) + Abs(b) && (m < 0 ==> a < 0) && (m > 0 ==> a > 0)
  }

  lemma NearestFrom(a: int, b: int, q: nat)
    requires q * Abs(b) <= Abs(a) < q * Abs(b) + Abs(b)
    ensures Nearest((if (a < 0) == (b < 0) then q else -(q as int)) * b, a, b)
  {
    Signs(q, b);
    Grows(q, Abs(b));
  }

  lemma TruncatedNearest(a: int, b: int)
    requires b != 0
    ensures Nearest(Truncated(a, b) * b, a, b)
  {
    NearestFrom(a, b, Ratio(Abs(a), Abs(b)));
  }

  lemma QuotientShrinks(m: nat, n: nat, q: nat)
    requires n > 0 && q * n <= m
    ensures q <= m
    ensures n > 1 ==> 2 * q <= m
  {
    Grows(q, n);
  }

  lemma SignedFits(a: int, b: int, q: nat)
    requires InRange(a) && b != 0 && !(a == INT64_MIN as int && b == -1)
    requires q <= Abs(a) && (Abs(b) > 1 ==> 2 * q <= Abs(a))
    ensures InRange(if (a < 0) == (b < 0) then q else -(q as int))
  {
  }

  lemma TruncatedFits(a: int64, b: int64)
    requires b != 0 && !(a == INT64_MIN && b == -1)
    ensures InRange(Truncated(a as int, b as int))
  {
    var m, n := Abs(a as int), Abs(b as int);
    var q := Ratio(m, n);
    QuotientShrinks(m, n, q);
    SignedFits(a as int, b as int, q);
  }

  /** The division of two int64 values in C, undefined for INT64_MIN / -1. */
  function Quotient(a: int64, b: int64): (q: int64)
    requires b != 0 && !(a == INT64_MIN && b == -1)
    ensures q as int == Truncated(a as int, b as int)
  {
    TruncatedFits(a, b);
    Truncated(a as int, b as int) as int64
  }

  /** q is a / b rounded toward negative infinity, for either sign of b. */
  predicate IsFloor(q: int, a: int, b: int) {
    if b > 0 then q * b <= a < q * b + b else q * b >= a > q * b + b
  }

  lemma Scaled(x: int, y: int, b: int)
    requires x < y
    ensures b > 0 ==> x * b + b <= y * b
    ensures b < 0 ==> x * b + b >= y * b
  {
    var d := y - x - 1;
    assert y * b == x * b + b + d * b;
    assert b > 0 ==> d * b >= 0;
    assert b < 0 ==> d * b <= 0;
  }

  lemma FloorUnique(p: int, q: int, a: int, b: int)
    requires b != 0 && IsFloor(p, a, b) && IsFloor(q, a, b)
    ensures p == q
  {
    if p < q {
      Scaled(p, q, b);
    } else if q < p {
      Scaled(q, p, b);
    }
  }

  /** Division over the unbounded integers, rounded toward negative infinity. */
  function FloorDiv(a: int, b: int): (q: int)
    requires b != 0
    ensures IsFloor(q, a, b)
  {
    var q := if b > 0 then a / b else -a / -b;
    assert b < 0 ==> q * -b == -(q * b);
    q
  }

  /** The remainder that goes with FloorDiv: it has the sign of b. */
  function FloorMod(a: int, b: int): (r: int)
    requires b != 0
    ensures if b > 0 then 0 <= r < b else b < r <= 0
  {
    a - FloorDiv(a, b) * b
  }

  /** Both in terms of a division by a positive number, which rounds down. */
  lemma DivisionPlain(a: int, b: int)
    requires b != 0
    ensures b > 0 ==> FloorDiv(a, b) == a / b && FloorMod(a, b) == a % b
    ensures b < 0 ==> FloorDiv(a, b) == -a / -b && FloorMod(a, b) == -(-a % -b)
  {
    var q := if b > 0 then a / b else -a / -b;
    assert b < 0 ==> q * -b == -(q * b);
    FloorUnique(q, FloorDiv(a, b), a, b);
  }

  // ----- Guards

  /** The test before a multiplication. */
  predicate MultiplyOverflows(a: int64, b: int64) {
    b != 0 &&
    (|| (a > 0 && b > 0 && a > Quotient(INT64_MAX, b))
     || (a < 0 && b < 0 && a < Quotient(INT64_MAX, b))
     || (a > 0 && b < 0 && b < Quotient(INT64_MIN, a))
     || (a < 0 && b > 0 && a < Quotient(INT64_MIN, b)))
  }

  /** Comparing with a quotient is comparing with a product. */
  lemma BeyondQuotient(x: int, limit: int, b: int)
    requires b != 0
    ensures Abs(x) * Abs(b) > Abs(limit) <==> Abs(x) > Ratio(Abs(limit), Abs(b))
  {
    var q := Ratio(Abs(limit), Abs(b));
    if Abs(x) > q {
      Scaled(q, Abs(x), Abs(b));
    } else if Abs(x) < q {
      Scaled(Abs(x), q, Abs(b));
    }
  }

  lemma ProductSize(a: int, b: int)
    ensures Abs(a * b) == Abs(a) * Abs(b)
    ensures a != 0 && b != 0 ==> a * b != 0
    ensures a != 0 && b != 0 ==> (a * b > 0 <==> (a > 0) == (b > 0))
  {
  }

  /** The guard holds exactly when the exact product does not fit. */
  lemma MultiplyGuard(a: int64, b: int64)
    ensures MultiplyOverflows(a, b) <==> !InRange(a as int * b as int)
  {
    if a != 0 && b != 0 {
      ProductSize(a as int, b as int);
      if (a > 0) == (b > 0) {
        BeyondQuotient(a as int, INT64_MAX as int, b as int);
      } else if a > 0 {
        BeyondQuotient(b as int, INT64_MIN as int, a as int);
      } else {
        BeyondQuotient(a as int, INT64_MIN as int, b as int);
      }
    }
  }

  predicate AddOverflows(a: int64, b: int64) {
    (b > 0 && a > INT64_MAX - b) || (b < 0 && a < INT64_MIN - b)
  }

  predicate SubtractOverflows(a: int64, b: int64) {
    (b < 0 && a > INT64_MAX + b) || (b > 0 && a < INT64_MIN + b)
  }

  predicate DivideOverflows(a: int64, b: int64) {
    a == INT64_MIN && b == -1
  }

  // ----- Operations

  lemma NearestIsFloor(q: int, a: int, b: int)
    requires b != 0 && Nearest(q * b, a, b)
    ensures IsFloor(if (a < 0) != (b < 0) && q * b != a then q - 1 else q, a, b)
  {
    assert (q - 1) * b == q * b - b;
  }

  /** How the rounded-down quotient differs from the C quotient. */
  lemma RoundedDown(a: int, b: int)
    requires b != 0
    ensures var q := Truncated(a, b);
            FloorDiv(a, b) == if (a < 0) != (b < 0) && q * b != a then q - 1 else q
  {
    var q := Truncated(a, b);
    TruncatedNearest(a, b);
    NearestIsFloor(q, a, b);
    FloorUnique(if (a < 0) != (b < 0) && q * b != a then q - 1 else q, FloorDiv(a, b), a, b);
  }

  lemma ProductInRange(a: int64, b: int64)
    requires b != 0 && !DivideOverflows(a, b)
    ensures InRange(Quotient(a, b) as int * b as int)
    ensures InRange(a as int - Quotient(a, b) as int * b as int)
    ensures (a < 0) != (b < 0) ==> Quotient(a, b) <= 0
  {
    TruncatedNearest(a as int, b as int);
  }

  /** Rounds the C quotient down when the signs differ and something is left. */
  method DivideDown(a: int64, b: int64) returns (q: int64)
    requires b != 0 && !DivideOverflows(a, b)
    ensures q as int == FloorDiv(a as int, b as int)
    ensures q as int == if b > 0 then a as int / b as int else -(a as int) / -(b as int)
  {
    DivisionPlain(a as int, b as int);
    RoundedDown(a as int, b as int);
    ProductInRange(a, b);
    q := Quotient(a, b);
    if (a < 0) != (b < 0) && q * b != a {
      q := q - 1;
    }
  }

  /** What is left beside the nearest multiple m of b has the sign of a. */
  lemma LeftOver(a: int, b: int, m: int)
    requires b != 0 && Nearest(m, a, b)
    ensures (a < 0) != (b < 0) && m != a <==> a - m != 0 && (a - m < 0) != (b < 0)
  {
  }

  lemma RemainderDown(a: int, b: int)
    requires b != 0
    ensures var r := a - Truncated(a, b) * b;
            FloorMod(a, b) == if r != 0 && (r < 0) != (b < 0) then r + b else r
  {
    var q := Truncated(a, b);
    RoundedDown(a, b);
    TruncatedNearest(a, b);
    LeftOver(a, b, q * b);
    assert (q - 1) * b == q * b - b;
  }

  /** The C remainder, moved to the sign of the divisor. */
  method ModuloDown(a: int64, b: int64) returns (r: int64)
    requires b != 0
    ensures r as int == FloorMod(a as int, b as int)
    ensures r as int == if b > 0 then a as int % b as int else -(-(a as int) % -(b as int))
  {
    DivisionPlain(a as int, b as int);
    if a == INT64_MIN && b == -1 {
      return 0;
    }
    RemainderDown(a as int, b as int);
    ProductInRange(a, b);
    r := a - Quotient(a, b) * b;
    if r != 0 && (r < 0) != (b < 0) {
      r := r + b;
    }
  }

  // ----- Exponentiation

  function Power(b: int, e: nat): int {
    if e == 0 then 1 else b * Power(b, e - 1)
  }

  lemma {:induction false} PowerSquare(b: int, k: nat)
    ensures Power(b, 2 * k) == Power(b * b, k)
  {
    if k > 0 {
      PowerSquare(b, k - 1);
      assert Power(b, 2 * k) == b * Power(b, 2 * k - 1) == b * (b * Power(b, 2 * k - 2));
      assert b * (b * Power(b, 2 * k - 2)) == (b * b) * Power(b, 2 * k - 2);
    }
  }

  lemma {:induction false} PowerPositive(b: int, e: nat)
    requires b > 0
    ensures Power(b, e) >= 1
  {
    if e > 0 {
      PowerPositive(b, e - 1);
      Grows(Power(b, e - 1), b);
    }
  }

  /** The test before the base is squared. */
  predicate SquareOverflows(base: int64) {
    base != 0 && base != 1 && base != -1 &&
    ((base > 0 && base > Quotient(INT64_MAX, base)) || (base < 0 && base < Quotient(INT64_MAX, base)))
  }

  lemma SquareGuard(base: int64)
    ensures SquareOverflows(base) <==> !InRange(base as int * base as int)
  {
    MultiplyGuard(base, base);
  }

  /** What remains of the power when the current bit of the exponent is set. */
  lemma OddStep(result: int, base: int, exp: nat)
    requires exp % 2 == 1
    ensures result * Power(base, exp) == result * base * Power(base * base, exp / 2)
  {
    PowerSquare(base, exp / 2);
    Reorder(result, base, Power(base, exp - 1));
  }

  lemma EvenStep(result: int, base: int, exp: nat)
    requires exp % 2 == 0
    ensures result * Power(base, exp) == result * Power(base * base, exp / 2)
  {
    PowerSquare(base, exp / 2);
  }

  lemma Reorder(a: int, b: int, c: int)
    ensures a * (b * c) == a * b * c
  {
  }

  /** A product out of range stays out of range when multiplied by an even power. */
  lemma StaysOut(v: int, base: int, k: nat)
    requires base != 0 && !InRange(v)
    ensures !InRange(v * Power(base * base, k))
  {
    ProductSize(base, base);
    PowerPositive(base * base, k);
    FartherOut(v, Power(base * base, k));
  }

  lemma FartherOut(v: int, n: nat)
    requires n > 0 && !InRange(v)
    ensures !InRange(v * n)
  {
    assert v * n == v + v * (n - 1);
    if v > 0 {
      assert v * (n - 1) >= 0;
    } else {
      assert v * (n - 1) <= 0;
    }
  }

  /** A square that overflows lies strictly beyond 2^63, because 2^63 is not a
      square; so even its negation is out of range. */
  lemma SquareBeyond(base: int)
    requires base * base > INT64_MAX as int
    ensures base * base > 0x8000_0000_0000_0000
  {
    var m := Abs(base);
    ProductSize(base, base);
    if m <= 3037000499 {
      SquareMonotone(m, 3037000499);
    } else {
      SquareMonotone(3037000500, m);
    }
  }

  lemma SquareMonotone(a: nat, b: nat)
    requires a <= b
    ensures a * a <= b * b
  {
    assert a * a <= a * b <= b * b;
  }

  lemma SquareLeaves(result: int, base: int, k: nat)
    requires result != 0 && base * base > INT64_MAX as int && k > 0
    ensures !InRange(result * Power(base * base, k))
  {
    SquareBeyond(base);
    var s := base * base;
    PowerPositive(s, k - 1);
    Grows(s, Power(s, k - 1));
    ProductSize(result, Power(s, k));
    Grows(Power(s, k), Abs(result));
  }

  /** Square and multiply, with a guard before each multiplication. */
  method Exponentiate(left: int64, right: int64) returns (overflow: bool, result: int64)
    requires right >= 0
    ensures overflow <==> !InRange(Power(left as int, right as nat))
    ensures !overflow ==> result as int == Power(left as int, right as nat)
  {
    var base, exp := left, right;
    ghost var goal := Power(left as int, right as nat);
    result := 1;
    while exp > 0
      invariant exp >= 0
      invariant result == 0 ==> base == 0
      invariant goal == result as int * Power(base as int, exp as nat)
    {
      ghost var k := exp as nat / 2;
      if exp % 2 == 1 {
        OddStep(result as int, base as int, exp as nat);
        MultiplyGuard(result, base);
        if MultiplyOverflows(result, base) {
          StaysOut(result as int * base as int, base as int, k);
          return true, result;
        }
        ProductSize(result as int, base as int);
        result := result * base;
      } else {
        EvenStep(result as int, base as int, exp as nat);
      }
      assert goal == result as int * Power(base as int * base as int, k);
      SquareGuard(base);
      if exp > 1 && SquareOverflows(base) {
        SquareLeaves(result as int, base as int, k);
        return true, result;
      }
      if exp > 1 {
        base := base * base;
      }
      exp := exp / 2;
    }
    return false, result;
  }
}
