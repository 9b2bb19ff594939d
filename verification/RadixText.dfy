/** What the parser makes of the texts of a number: blanks, a sign, a prefix, and
    digits taken from a written-out list. */
module RadixText {
  import opened Operators
  import opened WideInt
  import opened BigintText

  const LOWER_DIGITS: string := "0123456789abcdef"
  const UPPER_DIGITS: string := "0123456789ABCDEF"

  predicate IsRadix(radix: nat) {
    radix == 2 || radix == 8 || radix == 10 || radix == 16
  }

  /** n without its last digit. */
  function Front(n: nat, radix: nat): (q: nat)
    requires IsRadix(radix)
    ensures q <= n && (n > 0 ==> q < n)
  {
    if radix == 2 then n / 2 else if radix == 8 then n / 8 else if radix == 10 then n / 10 else n / 16
  }

  function Last(n: nat, radix: nat): (d: nat)
    requires IsRadix(radix)
    ensures d < radix
  {
    if radix == 2 then n % 2 else if radix == 8 then n % 8 else if radix == 10 then n % 10 else n % 16
  }

  /** The digits of n in a radix, without leading zeros. */
  function DigitsIn(n: nat, radix: nat, letters: string): (s: string)
    requires IsRadix(radix) && |letters| == 16
    ensures s != ""
  {
    if n < radix then [letters[n]] else DigitsIn(Front(n, radix), radix, letters) + [letters[Last(n, radix)]]
  }

  // ----- Digits

  /** The k-th letter has the value k. */
  predicate Counts(letters: string) {
    |letters| == 16 && forall k | 0 <= k < 16 :: DigitValue(letters[k]).Some? && DigitValue(letters[k]).value == k
  }

  lemma LetterOf(k: nat, lower: string, upper: string)
    requires k < 16 && lower == LOWER_DIGITS && upper == UPPER_DIGITS
    ensures |lower| == |upper| == 16
    ensures lower[k] as nat == if k < 10 then '0' as nat + k else 'a' as nat + k - 10
    ensures upper[k] as nat == if k < 10 then '0' as nat + k else 'A' as nat + k - 10
  {
  }

  lemma LettersCount(letters: string)
    requires letters == LOWER_DIGITS || letters == UPPER_DIGITS
    ensures Counts(letters)
  {
    LetterOf(0, LOWER_DIGITS, UPPER_DIGITS);
    forall k | 0 <= k < 16
      ensures DigitValue(letters[k]).Some? && DigitValue(letters[k]).value == k
    {
      LetterOf(k, LOWER_DIGITS, UPPER_DIGITS);
    }
  }

  lemma FrontLast(n: nat, radix: nat)
    requires IsRadix(radix)
    ensures n == Front(n, radix) * radix + Last(n, radix)
    ensures n < radix ==> Last(n, radix) == n
    ensures n >= radix ==> Front(n, radix) > 0
  {
  }

  lemma {:induction false} DigitsInValue(n: nat, radix: nat, letters: string)
    requires IsRadix(radix) && Counts(letters)
    ensures var s := DigitsIn(n, radix, letters);
            ValueOf(s, radix) == Some(n) && IsDigit(s[0], radix) && (DigitValue(s[0]) == Some(0) ==> n == 0 && |s| == 1)
  {
    var s := DigitsIn(n, radix, letters);
    FrontLast(n, radix);
    if n < radix {
      OneDigit(n, radix, letters[n]);
    } else {
      DigitsInValue(Front(n, radix), radix, letters);
      var front, last := Front(n, radix), Last(n, radix);
      MoreDigits(DigitsIn(front, radix, letters), front, radix, letters[last], last);
    }
  }

  lemma OneDigit(d: nat, radix: nat, c: char)
    requires d < radix && DigitValue(c) == Some(d)
    ensures ValueOf([c], radix) == Some(d)
  {
    assert [c][..0] == "";
  }

  lemma MoreDigits(s: string, v: nat, radix: nat, c: char, d: nat)
    requires ValueOf(s, radix) == Some(v) && DigitValue(c) == Some(d) && d < radix
    ensures ValueOf(s + [c], radix) == Some(v * radix + d)
  {
    assert (s + [c])[..|s|] == s;
  }

  /** n without its last k digits. */
  function Fronts(n: nat, radix: nat, k: nat): nat
    requires IsRadix(radix)
  {
    if k == 0 then n else Fronts(Front(n, radix), radix, k - 1)
  }

  /** That is n divided by radix^k. */
  lemma {:induction false} FrontsDivide(n: nat, radix: nat, k: nat)
    requires IsRadix(radix)
    ensures Power(radix, k) > 0 && Fronts(n, radix, k) == n / Power(radix, k)
  {
    PowerPositive(radix, k);
    if k > 0 {
      var p := Power(radix, k - 1);
      FrontsDivide(Front(n, radix), radix, k - 1);
      FrontLast(n, radix);
      DivideTwice(n, Front(n, radix), Last(n, radix), radix, p);
    }
  }

  lemma DivideTwice(n: nat, m: nat, d: nat, r: nat, p: nat)
    requires n == m * r + d && d < r && p > 0
    ensures r * p > 0 && m / p == n / (r * p)
  {
    var q := m / p;
    var rest := m - q * p;
    assert m == q * p + rest && rest < p;
    assert m * r == q * (r * p) + rest * r by {
      Regrouped(q, p, rest, r);
    }
    assert rest * r + r <= r * p by {
      Scaled(rest, p, r);
    }
    FloorUnique(q, n / (r * p), n, r * p);
  }

  lemma Regrouped(q: int, p: int, rest: int, r: int)
    ensures (q * p + rest) * r == q * (r * p) + rest * r
  {
    assert (q * p) * r == q * (p * r);
  }

  /** Cutting off the last k digits. */
  lemma {:induction false} DigitsCut(n: nat, radix: nat, letters: string, k: nat)
    requires IsRadix(radix) && |letters| == 16 && k < |DigitsIn(n, radix, letters)|
    ensures DigitsIn(n, radix, letters)[..|DigitsIn(n, radix, letters)|-k]
         == DigitsIn(Fronts(n, radix, k), radix, letters)
  {
    var s := DigitsIn(n, radix, letters);
    if k == 0 {
      assert s[..|s|] == s;
    } else {
      var front := DigitsIn(Front(n, radix), radix, letters);
      DigitsCut(Front(n, radix), radix, letters, k - 1);
      assert s[..|s|-k] == front[..|front|-(k-1)];
    }
  }

  // ----- Texts

  predicate IsBlank(s: string) {
    forall i | 0 <= i < |s| :: s[i] == ' ' || s[i] == '\t'
  }

  predicate IsSign(s: string) {
    s == "" || s == "+" || s == "-"
  }

  /** How a number in a radix begins. */
  predicate Announces(prefix: string, radix: nat) {
    || (radix == 2 && (prefix == "0b" || prefix == "0B"))
    || (radix == 8 && (prefix == "0o" || prefix == "0O"))
    || (radix == 16 && (prefix == "0x" || prefix == "0X"))
    || (radix == 10 && prefix == "")
  }

  lemma {:induction false} BlanksSkipped(blanks: string, rest: string)
    requires IsBlank(blanks) && (rest != "" ==> rest[0] != ' ' && rest[0] != '\t')
    ensures SkipBlanks(blanks + rest) == rest
  {
    if blanks == "" {
      assert blanks + rest == rest;
    } else {
      assert (blanks + rest)[1..] == blanks[1..] + rest;
      BlanksSkipped(blanks[1..], rest);
    }
  }

  /** The number after blanks and a sign. */
  lemma SignTaken(blanks: string, sign: string, body: string)
    requires IsBlank(blanks) && IsSign(sign)
    requires body != "" && body[0] != ' ' && body[0] != '\t' && body[0] != '+' && body[0] != '-'
    ensures var m := Magnitude(body);
            Parsed(blanks + (sign + body)) == if m.Some? && sign == "-" then Some(-m.value) else m
  {
    var s := sign + body;
    BlanksSkipped(blanks, s);
    if sign == "" {
      assert s == body;
    } else {
      assert s[0] == sign[0] && s[1..] == body;
    }
  }

  lemma DigitStart(c: char, radix: nat)
    requires IsDigit(c, radix)
    ensures c != ' ' && c != '\t' && c != '+' && c != '-'
    ensures c == '0' <==> DigitValue(c) == Some(0)
  {
  }

  lemma BodyStart(prefix: string, radix: nat, digits: string)
    requires Announces(prefix, radix) && digits != "" && IsDigit(digits[0], radix)
    ensures prefix + digits != ""
    ensures var c := (prefix + digits)[0]; c != ' ' && c != '\t' && c != '+' && c != '-'
  {
    DigitStart(digits[0], radix);
    assert (prefix + digits)[0] == if prefix == "" then digits[0] else '0';
  }

  /** The digits that are read of a longer text. */
  function Kept(digits: string): string {
    if |digits| > 511 then digits[..511] else digits
  }

  lemma PrefixTaken(prefix: string, radix: nat, digits: string)
    requires Announces(prefix, radix) && digits != ""
    requires radix == 10 ==> digits[0] != '0' || |digits| == 1
    ensures Magnitude(prefix + digits) == ReadRadix(Kept(digits), radix)
  {
    if radix == 10 {
      assert prefix + digits == digits;
    } else {
      assert (prefix + digits)[2..] == digits;
    }
  }

  lemma DigitsRead(digits: string, n: nat, radix: nat)
    requires digits != "" && IsDigit(digits[0], radix) && ValueOf(digits, radix) == Some(n)
    ensures ReadRadix(digits, radix) == Some(n)
  {
  }

  /** How many digits are not read. */
  function Cut(digits: string): nat {
    if |digits| > 511 then |digits| - 511 else 0
  }

  lemma KeptIsCut(digits: string)
    requires digits != ""
    ensures Cut(digits) < |digits| && Kept(digits) == digits[..|digits|-Cut(digits)]
  {
  }

  /** The digits of n that are kept stand for n without those that are not. */
  lemma KeptValue(n: nat, radix: nat, letters: string, digits: string, cut: nat)
    requires IsRadix(radix) && Counts(letters) && digits == DigitsIn(n, radix, letters) && cut == Cut(digits)
    ensures ReadRadix(Kept(digits), radix) == Some(Fronts(n, radix, cut))
  {
    var m := Fronts(n, radix, cut);
    KeptIsCut(digits);
    DigitsCut(n, radix, letters, cut);
    DigitsInValue(m, radix, letters);
    DigitsRead(DigitsIn(m, radix, letters), m, radix);
  }

  lemma {:induction false} FrontsSmaller(n: nat, radix: nat, k: nat)
    requires IsRadix(radix)
    ensures Fronts(n, radix, k) <= n && (k > 0 && n > 0 ==> Fronts(n, radix, k) < n)
  {
    if k > 0 {
      FrontsSmaller(Front(n, radix), radix, k - 1);
    }
  }

  /** The number after blanks, a sign and a prefix. */
  lemma PrefixParsed(blanks: string, sign: string, prefix: string, radix: nat, digits: string)
    requires IsBlank(blanks) && IsSign(sign) && Announces(prefix, radix)
    requires digits != "" && IsDigit(digits[0], radix) && (DigitValue(digits[0]) == Some(0) ==> |digits| == 1)
    ensures var m := ReadRadix(Kept(digits), radix);
            Parsed(blanks + (sign + (prefix + digits))) == if m.Some? && sign == "-" then Some(-m.value) else m
  {
    BodyStart(prefix, radix, digits);
    DigitStart(digits[0], radix);
    PrefixTaken(prefix, radix, digits);
    SignTaken(blanks, sign, prefix + digits);
  }

  lemma LettersRead(blanks: string, sign: string, prefix: string, n: nat, radix: nat, letters: string,
                    digits: string, cut: nat)
    requires IsBlank(blanks) && IsSign(sign) && Announces(prefix, radix) && Counts(letters)
    requires digits == DigitsIn(n, radix, letters) && cut == Cut(digits)
    ensures var m := Fronts(n, radix, cut);
            Parsed(blanks + (sign + (prefix + digits))) == if sign == "-" then Some(-(m as int)) else Some(m)
  {
    DigitsInValue(n, radix, letters);
    PrefixParsed(blanks, sign, prefix, radix, digits);
    KeptValue(n, radix, letters, digits, cut);
  }

  /** Every number is read from its digits in the radix its prefix announces, in either
      case and with either sign or none, after any blanks.  Of more than 511 digits the
      first 511 are read, which gives another number. */
  lemma TextReads(blanks: string, sign: string, prefix: string, n: nat, radix: nat, letters: string,
                  digits: string, cut: nat)
    requires IsBlank(blanks) && IsSign(sign) && Announces(prefix, radix)
    requires |letters| == 16 && (letters == LOWER_DIGITS || letters == UPPER_DIGITS)
    requires digits == DigitsIn(n, radix, letters) && cut == if |digits| > 511 then |digits| - 511 else 0
    ensures var m := Fronts(n, radix, cut);
            && Parsed(blanks + (sign + (prefix + digits))) == (if sign == "-" then Some(-(m as int)) else Some(m))
            && (m == n <==> |digits| <= 511)
  {
    LettersCount(letters);
    LettersRead(blanks, sign, prefix, n, radix, letters, digits, cut);
    FrontsSmaller(n, radix, cut);
    if n == 0 {
      assert digits == [letters[0]];
    }
  }

  // ----- Texts that are no numbers

  lemma DigitExactly(c: char, radix: nat)
    requires radix <= 16
    ensures |LOWER_DIGITS| == |UPPER_DIGITS| == 16
    ensures IsDigit(c, radix) <==> c in LOWER_DIGITS[..radix] || c in UPPER_DIGITS[..radix]
  {
    if IsDigit(c, radix) {
      var d := DigitValue(c).value;
      LetterOf(d, LOWER_DIGITS, UPPER_DIGITS);
      assert c == LOWER_DIGITS[..radix][d] || c == UPPER_DIGITS[..radix][d];
    }
    LetterOf(0, LOWER_DIGITS, UPPER_DIGITS);
    forall d | 0 <= d < radix
      ensures IsDigit(LOWER_DIGITS[d], radix) && IsDigit(UPPER_DIGITS[d], radix)
    {
      LetterOf(d, LOWER_DIGITS, UPPER_DIGITS);
    }
  }

  lemma {:induction false} ValueExactly(s: string, radix: nat)
    ensures ValueOf(s, radix).Some? <==> forall i | 0 <= i < |s| :: IsDigit(s[i], radix)
  {
    if s != "" {
      var k := |s| - 1;
      ValueExactly(s[..k], radix);
      assert forall i | 0 <= i < k :: s[..k][i] == s[i];
    }
  }

  /** What is read of a text after its prefix: the kept characters without a sign of
      their own. */
  function Significant(body: string): string {
    if Kept(body) != "" && body[0] == '-' then Kept(body)[1..] else Kept(body)
  }

  /** Only digits of the radix are accepted among the characters that are read, in
      either case; a prefix with nothing after it is no number. */
  lemma RejectsExactly(blanks: string, sign: string, prefix: string, radix: nat, body: string)
    requires IsBlank(blanks) && IsSign(sign) && Announces(prefix, radix)
    requires radix == 10 ==> body != "" && body[0] != '0' && body[0] != ' ' && body[0] != '\t'
    requires radix == 10 ==> body[0] != '+' && body[0] != '-'
    ensures |LOWER_DIGITS| == |UPPER_DIGITS| == 16
    ensures Parsed(blanks + (sign + (prefix + body))).Some? <==>
      body != "" && forall i | 0 <= i < |Significant(body)| ::
        Significant(body)[i] in LOWER_DIGITS[..radix] || Significant(body)[i] in UPPER_DIGITS[..radix]
  {
    LetterOf(0, LOWER_DIGITS, UPPER_DIGITS);
    SignTaken(blanks, sign, prefix + body);
    if body == "" {
      NothingAfter(prefix, radix);
      assert prefix + body == prefix;
    } else {
      PrefixTaken(prefix, radix, body);
      ValueExactly(Significant(body), radix);
      forall c: char
        ensures IsDigit(c, radix) <==> c in LOWER_DIGITS[..radix] || c in UPPER_DIGITS[..radix]
      {
        DigitExactly(c, radix);
      }
    }
  }

  lemma NothingAfter(prefix: string, radix: nat)
    requires Announces(prefix, radix) && radix != 10
    ensures Magnitude(prefix).None?
  {
    assert !IsDigit(prefix[1], 10);
    assert ValueOf(prefix, 10).None?;
  }

  // ----- Rendering

  /** The decimal text of a number: a minus sign if it is negative, and its digits. */
  lemma {:induction false} DecimalDigits(n: nat, letters: string)
    requires letters == LOWER_DIGITS
    ensures |letters| == 16 && DigitsOf(n) == DigitsIn(n, 10, letters)
  {
    LetterOf(n % 10, LOWER_DIGITS, UPPER_DIGITS);
    if n >= 10 {
      DecimalDigits(n / 10, letters);
    }
  }

  lemma RenderedPlain(v: int, letters: string)
    requires letters == LOWER_DIGITS
    ensures |letters| == 16
    ensures Rendered(v) == if v < 0 then "-" + DigitsIn(-v, 10, letters) else DigitsIn(v, 10, letters)
  {
    DecimalDigits(Abs(v), letters);
  }
}
