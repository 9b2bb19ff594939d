/** Big integers as text: decimal rendering and the buffer it is given, and the
    parser with its digit limit.  The arbitrary-precision library is taken at its
    mathematical meaning. */
module BigintText {
  import opened Operators
  import opened WideInt

  // ----- Bits

  /** The length of n in binary. */
  function Bits(n: nat): nat {
    if n == 0 then 0 else 1 + Bits(n / 2)
  }

  lemma {:induction false} BitsMonotone(m: nat, n: nat)
    requires m <= n
    ensures Bits(m) <= Bits(n)
  {
    if m > 0 {
      BitsMonotone(m / 2, n / 2);
    }
  }

  /** n has at most k bits exactly when it is below 2^k. */
  lemma {:induction false} BitsMeans(n: nat, k: nat)
    ensures Bits(n) <= k <==> n < Power(2, k)
  {
    if k == 0 || n == 0 {
      PowerPositive(2, k);
    } else {
      BitsMeans(n / 2, k - 1);
    }
  }

  // ----- Decimal digits

  function DigitChar(d: nat): char
    requires d < 10
  {
    ['0', '1', '2', '3', '4', '5', '6', '7', '8', '9'][d]
  }

  /** The value of a digit in any radix up to 16; None for other characters. */
  function DigitValue(c: char): Option<nat> {
    if '0' <= c <= '9' then Some(c as nat - '0' as nat)
    else if 'a' <= c <= 'f' then Some(c as nat - 'a' as nat + 10)
    else if 'A' <= c <= 'F' then Some(c as nat - 'A' as nat + 10)
    else None
  }

  predicate IsDigit(c: char, radix: nat) {
    DigitValue(c).Some? && DigitValue(c).value < radix
  }

  /** The decimal digits of n, without leading zeros. */
  function DigitsOf(n: nat): (s: string)
    ensures s != ""
  {
    if n < 10 then [DigitChar(n)] else DigitsOf(n / 10) + [DigitChar(n % 10)]
  }

  /** The number a string of digits stands for; None when some character is no
      digit of the radix. */
  function ValueOf(s: string, radix: nat): Option<nat> {
    if s == "" then Some(0)
    else
      var k := |s| - 1;
      var front := ValueOf(s[..k], radix);
      if front.None? || !IsDigit(s[k], radix) then None
      else Some(front.value * radix + DigitValue(s[k]).value)
  }

  lemma DigitCharValue(d: nat)
    requires d < 10
    ensures IsDigit(DigitChar(d), 10) && DigitValue(DigitChar(d)) == Some(d)
  {
  }

  lemma {:induction false} DigitsValue(n: nat)
    ensures ValueOf(DigitsOf(n), 10) == Some(n)
    ensures IsDigit(DigitsOf(n)[0], 10)
    ensures DigitsOf(n)[0] == '0' ==> n == 0
  {
    DigitCharValue(n % 10);
    var s := DigitsOf(n);
    if n < 10 {
      assert s[..0] == "";
    } else {
      DigitsValue(n / 10);
      assert s[..|s|-1] == DigitsOf(n / 10);
    }
  }

  /** The decimal text of v. */
  function Rendered(v: int): string {
    if v < 0 then "-" + DigitsOf(-v) else DigitsOf(v)
  }

  lemma {:induction false} DigitsShort(n: nat)
    ensures |DigitsOf(n)| <= Bits(n) / 3 + 1
  {
    if n >= 10 {
      DigitsShort(n / 10);
      BitsMonotone(n / 10, n / 2 / 2 / 2);
      assert Bits(n) == 1 + Bits(n / 2);
      assert Bits(n / 2) == 1 + Bits(n / 2 / 2);
      assert Bits(n / 2 / 2) == 1 + Bits(n / 2 / 2 / 2);
    }
  }

  /** The buffer allotted to a rendering holds the sign, the digits and the
      terminator of every integer. */
  lemma RenderingFits(v: int)
    ensures |Rendered(v)| + 1 <= Bits(Abs(v)) / 3 + 3
  {
    DigitsShort(Abs(v));
  }

  // ----- The parser

  /** The digits kept: the rest of a longer text is cut off. */
  const MAX_DIGITS: nat := 511

  function SkipBlanks(z: string): string {
    if z != "" && (z[0] == ' ' || z[0] == '\t') then SkipBlanks(z[1..]) else z
  }

  /** The library's reading of a digit string in a radix, with a sign of its own. */
  function ReadRadix(s: string, radix: nat): Option<int> {
    if s != "" && s[0] == '-' then
      var v := ValueOf(s[1..], radix);
      if v.None? then None else Some(-(v.value as int))
    else
      var v := ValueOf(s, radix);
      if v.None? then None else Some(v.value)
  }

  /** The radix announced by a prefix; the prefix needs something after it. */
  function PrefixRadix(s: string): nat {
    if |s| <= 2 || s[0] != '0' then 10
    else if s[1] == 'x' || s[1] == 'X' then 16
    else if s[1] == 'o' || s[1] == 'O' then 8
    else if s[1] == 'b' || s[1] == 'B' then 2
    else 10
  }

  /** The number after the sign. */
  function Magnitude(body: string): Option<int> {
    var radix := PrefixRadix(body);
    var digits := if radix == 10 then body else body[2..];
    ReadRadix(if |digits| > MAX_DIGITS then digits[..MAX_DIGITS] else digits, radix)
  }

  /** The number a text stands for: blanks, a sign, a radix prefix, and at most
      MAX_DIGITS digits. */
  function Parsed(z: string): Option<int> {
    var s := SkipBlanks(z);
    var neg := s != "" && s[0] == '-';
    var body := if s != "" && (s[0] == '-' || s[0] == '+') then s[1..] else s;
    var v := Magnitude(body);
    if v.Some? && neg then Some(-v.value) else v
  }

  method FromStr(z: string) returns (v: Option<int>)
    ensures v == Parsed(z)
  {
    var p, len := 0, |z|;
    while len > 0 && (z[p] == ' ' || z[p] == '\t')
      invariant p + len == |z| && p >= 0 && len >= 0
      invariant SkipBlanks(z) == SkipBlanks(z[p..])
    {
      assert z[p..][1..] == z[p+1..];
      p, len := p + 1, len - 1;
    }
    assert SkipBlanks(z) == z[p..];
    var neg := false;
    if len > 0 && z[p] == '-' {
      neg, p, len := true, p + 1, len - 1;
    } else if len > 0 && z[p] == '+' {
      p, len := p + 1, len - 1;
    }
    var magnitude := ReadMagnitude(z, p, len);
    v := if magnitude.Some? && neg then Some(-magnitude.value) else magnitude;
  }

  lemma Window(z: string, p: nat, len: nat)
    requires p + len <= |z|
    ensures z[p..p+len] == z[p..][..len]
  {
  }

  lemma Dropped(z: string, start: nat, skip: nat)
    requires start + skip <= |z|
    ensures z[start..][skip..] == z[start+skip..]
  {
  }

  method ReadMagnitude(z: string, start: nat, count: nat) returns (v: Option<int>)
    requires start + count == |z|
    ensures v == Magnitude(z[start..])
  {
    var p, len, radix := start, count, 10;
    if len > 2 && z[p] == '0' {
      if z[p+1] == 'x' || z[p+1] == 'X' {
        radix, p, len := 16, p + 2, len - 2;
      } else if z[p+1] == 'o' || z[p+1] == 'O' {
        radix, p, len := 8, p + 2, len - 2;
      } else if z[p+1] == 'b' || z[p+1] == 'B' {
        radix, p, len := 2, p + 2, len - 2;
      }
    }
    assert radix == PrefixRadix(z[start..]);
    ghost var digits := z[p..];
    Dropped(z, start, p - start);
    assert |digits| == len;
    if len > MAX_DIGITS {
      len := MAX_DIGITS;
    }
    Window(z, p, len);
    assert digits[..|digits|] == digits;
    v := ReadRadix(z[p..p+len], radix);
  }

  /** How many decimal digits v has. */
  function DigitCount(v: int): nat {
    |DigitsOf(Abs(v))|
  }

  lemma PlainDigits(s: string)
    requires s != "" && IsDigit(s[0], 10) && ValueOf(s, 10).Some?
    requires s[0] == '0' ==> |s| == 1
    ensures PrefixRadix(s) == 10 && ReadRadix(s, 10) == Some(ValueOf(s, 10).value)
  {
  }

  /** Cutting digits off makes a number without leading zero smaller. */
  lemma {:induction false} CutSmaller(s: string, k: nat)
    requires k < |s| && ValueOf(s, 10).Some? && ValueOf(s, 10).value > 0
    ensures ValueOf(s[..k], 10).Some? && ValueOf(s[..k], 10).value < ValueOf(s, 10).value
  {
    var m := |s| - 1;
    if k < m {
      if ValueOf(s[..m], 10).value > 0 {
        CutSmaller(s[..m], k);
        assert s[..m][..k] == s[..k];
      } else {
        CutZero(s[..m], k);
        assert s[..m][..k] == s[..k];
      }
    }
  }

  lemma {:induction false} CutZero(s: string, k: nat)
    requires k <= |s| && ValueOf(s, 10) == Some(0)
    ensures ValueOf(s[..k], 10) == Some(0)
  {
    if k < |s| {
      CutZero(s[..|s|-1], k);
      assert s[..|s|-1][..k] == s[..k];
    } else {
      assert s[..k] == s;
    }
  }

  /** The text of an integer is read back as that integer exactly when it has no
      more digits than the parser keeps. */
  lemma ReadsBack(v: int)
    ensures Parsed(Rendered(v)) == Some(v) <==> DigitCount(v) <= MAX_DIGITS
  {
    var n := Abs(v);
    var ds := DigitsOf(n);
    var z := Rendered(v);
    DigitsValue(n);
    SingleZero(n);
    assert v < 0 ==> z[1..] == ds;
    assert SkipBlanks(z) == z;
    PlainDigits(ds);
    MagnitudeCut(n);
    assert Parsed(z) == if v < 0 then Some(-Magnitude(ds).value) else Magnitude(ds);
  }

  lemma MagnitudeCut(n: nat)
    ensures Magnitude(DigitsOf(n)).Some?
    ensures Magnitude(DigitsOf(n)).value == n <==> |DigitsOf(n)| <= MAX_DIGITS
    ensures 0 <= Magnitude(DigitsOf(n)).value
  {
    var ds := DigitsOf(n);
    DigitsValue(n);
    SingleZero(n);
    PlainDigits(ds);
    if |ds| > MAX_DIGITS {
      CutSmaller(ds, MAX_DIGITS);
      assert ds[..MAX_DIGITS][0] == ds[0];
    }
  }

  lemma SingleZero(n: nat)
    ensures DigitsOf(n)[0] == '0' ==> |DigitsOf(n)| == 1
    ensures |DigitsOf(n)| > 1 ==> n >= 10
  {
    DigitsValue(n);
  }

  function TenTo(k: nat): (n: nat)
    ensures n == Power(10, k) && n >= 1
  {
    if k == 0 then 1 else 10 * TenTo(k - 1)
  }

  /** 10^k is written as 10^m with more zeros. */
  lemma {:induction false} TenDigits(k: nat, m: nat)
    requires m <= k
    ensures |DigitsOf(TenTo(k))| == k + 1 && DigitsOf(TenTo(k))[..m+1] == DigitsOf(TenTo(m))
  {
    var ds := DigitsOf(TenTo(k));
    if k > 0 {
      TenDigits(k - 1, if m == k then k - 1 else m);
      assert ds == DigitsOf(TenTo(k - 1)) + [DigitChar(0)];
    }
    if m == k {
      assert ds[..k+1] == ds;
    } else {
      assert ds[..m+1] == DigitsOf(TenTo(k - 1))[..m+1];
    }
  }

  lemma ReadDigits(n: nat)
    requires |DigitsOf(n)| <= MAX_DIGITS
    ensures ReadRadix(DigitsOf(n), 10) == Some(n)
  {
    DigitsValue(n);
    SingleZero(n);
    PlainDigits(DigitsOf(n));
  }

  /** Of a number's digits the parser reads the first ones. */
  lemma ParsedDigits(n: nat, ds: string)
    requires ds == DigitsOf(n)
    ensures Parsed(ds) == ReadRadix(if |ds| > MAX_DIGITS then ds[..MAX_DIGITS] else ds, 10)
  {
    DigitsValue(n);
    SingleZero(n);
    assert SkipBlanks(ds) == ds;
    PlainDigits(ds);
  }

  lemma {:induction false} TenGrows(m: nat, k: nat)
    requires m < k
    ensures TenTo(m) < TenTo(k)
  {
    if m < k - 1 {
      TenGrows(m, k - 1);
    }
  }

  /** 10^511, and every larger power of ten, is read back as 10^510. */
  lemma TenIsCut(k: nat, m: nat)
    requires m + 1 == MAX_DIGITS && k > m
    ensures Parsed(Rendered(TenTo(k))) == Some(TenTo(m)) && TenTo(m) < TenTo(k)
  {
    TenDigits(k, m);
    TenDigits(m, m);
    ParsedDigits(TenTo(k), DigitsOf(TenTo(k)));
    ReadDigits(TenTo(m));
    TenGrows(m, k);
  }
}
