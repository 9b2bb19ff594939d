/** Base64 with its characters written out: the alphabet, the whitespace, what four
    characters stand for, and where the line breaks are. */
module Base64Text {
  import opened Operators
  import opened ByteStrings
  import opened Sequences
  import opened Base64

  const CAPITALS: string := "ABCDEFGHIJKLMNOPQRSTUVWXYZ"
  const SMALL: string := "abcdefghijklmnopqrstuvwxyz"
  const OTHERS: string := "0123456789+/"
  const ALPHABET: string := CAPITALS + SMALL + OTHERS

  /** Tab, line feed, vertical tab, form feed, carriage return, and blank. */
  const SPACES: string := [9 as char, 10 as char, 11 as char, 12 as char, 13 as char, ' ']

  // ----- Both tables

  lemma CapitalAt(s: string, v: nat)
    requires v < 26 && s == CAPITALS
    ensures |s| == 26 && s[v] as int == 'A' as int + v
  {
  }

  lemma SmallAt(s: string, v: nat)
    requires v < 26 && s == SMALL
    ensures |s| == 26 && s[v] as int == 'a' as int + v
  {
  }

  lemma OtherAt(s: string, v: nat)
    requires v < 12 && s == OTHERS
    ensures |s| == 12
    ensures s[v] as int == if v < 10 then '0' as int + v else if v == 10 then '+' as int else '/' as int
  {
  }

  /** The encode table is the alphabet. */
  lemma EncodeTable(v: nat)
    requires v < 64
    ensures |ALPHABET| == 64 && Letter(v) == ALPHABET[v]
  {
    CapitalAt(CAPITALS, if v < 26 then v else 0);
    SmallAt(SMALL, if 26 <= v < 52 then v - 26 else 0);
    OtherAt(OTHERS, if v < 52 then 0 else v - 52);
    assert ALPHABET[v] == if v < 26 then CAPITALS[v] else if v < 52 then SMALL[v-26] else OTHERS[v-52];
  }

  /** The decode table gives every character of the alphabet its place, and knows
      padding and whitespace. */
  lemma DecodeTable(c: char)
    ensures |ALPHABET| == 64
    ensures SymbolOf(c).Digit? <==> c in ALPHABET
    ensures SymbolOf(c).Digit? ==> ALPHABET[SymbolOf(c).v] == c
    ensures SymbolOf(c) == Padding <==> c == '='
    ensures SymbolOf(c) == Whitespace <==> c in SPACES
    ensures SymbolOf(c) == Invalid <==> c !in ALPHABET && c != '=' && c !in SPACES
  {
    SpaceCharacters(c);
    EncodeTable(0);
    if SymbolOf(c).Digit? {
      EncodeTable(SymbolOf(c).v);
      assert c == Letter(SymbolOf(c).v);
    }
    if c in ALPHABET {
      var v :| 0 <= v < |ALPHABET| && ALPHABET[v] == c;
      EncodeTable(v);
      LetterDecodes(v);
    }
  }

  lemma SpaceCharacters(c: char)
    ensures c in SPACES <==> 9 <= c as int <= 13 || c == ' '
  {
    if 9 <= c as int <= 13 {
      assert c == SPACES[c as int - 9];
    } else if c == ' ' {
      assert c == SPACES[5];
    }
  }

  // ----- Decoding

  /** Whitespace is skipped wherever it is. */
  lemma SpaceSkipped(s: string, c: char, t: string)
    requires c in SPACES
    ensures Decoded(s + [c] + t) == Decoded(s + t)
  {
    DecodeTable(c);
    SymbolsJoin(s + [c], t);
    SymbolsJoin(s, [c]);
    SymbolsJoin(s, t);
    assert Symbols([c]) == Symbols([c][1..]) == [];
    assert Symbols(s) + [] == Symbols(s);
  }

  /** c is neither in the alphabet nor padding nor whitespace. */
  predicate Foreign(c: char) {
    c !in ALPHABET && c != '=' && c !in SPACES
  }

  /** Decoding fails exactly on such a character. */
  lemma RejectsExactly(text: string)
    ensures Decoded(text).None? <==>
      exists i :: 0 <= i < |text| && Foreign(text[i])
  {
    FailsExactly(text);
    forall i | 0 <= i < |text|
      ensures SymbolOf(text[i]) == Invalid <==> Foreign(text[i])
    {
      DecodeTable(text[i]);
    }
  }

  /** The place of a character in the alphabet; padding counts as 0. */
  predicate StandsFor(c: char, v: nat) {
    |ALPHABET| == 64 && v < 64 && if c == '=' then v == 0 else c == ALPHABET[v]
  }

  lemma StandsForBits(c: char, v: nat)
    requires StandsFor(c, v)
    ensures SymbolOf(c) != Whitespace && SymbolOf(c) != Invalid && Bits(SymbolOf(c)) == v
    ensures SymbolOf(c) == Padding <==> c == '='
  {
    if c != '=' {
      EncodeTable(v);
      LetterDecodes(v);
    }
  }

  /** How many of the characters are padding. */
  function PadCount(s: string): nat {
    if s == "" then 0 else PadCount(s[..|s|-1]) + (if s[|s|-1] == '=' then 1 else 0)
  }

  /** Four characters stand for three bytes, two or one, fewer by one for every padding
      but at least one, and are followed by what the rest decodes to. */
  lemma QuadDecodes(q: string, t: string, a: nat, b: nat, c: nat, d: nat)
    requires |q| == 4 && StandsFor(q[0], a) && StandsFor(q[1], b) && StandsFor(q[2], c) && StandsFor(q[3], d)
    ensures Decoded(q + t).None? <==> Decoded(t).None?
    ensures Decoded(t).Some? ==>
      Decoded(q + t).value ==
        [(a * 4 + b / 16) as byte]
        + (if PadCount(q) < 2 then [(b % 16 * 16 + c / 4) as byte] else [])
        + (if PadCount(q) < 1 then [(c % 4 * 64 + d) as byte] else [])
        + Decoded(t).value
  {
    StandsForBits(q[0], a);
    StandsForBits(q[1], b);
    StandsForBits(q[2], c);
    StandsForBits(q[3], d);
    FourSymbols(q);
    QuadAhead(q, t);
    CountedPads(q);
    QuadBytes(Symbols(q), a, b, c, d, PadCount(q));
  }

  lemma QuadAhead(q: string, t: string)
    requires |Symbols(q)| == 4 && Invalid !in Symbols(q)
    ensures Decoded(q + t).None? <==> Decoded(t).None?
    ensures Decoded(t).Some? ==>
      var ss := Symbols(q); Decoded(q + t).value == Ungroup(ss[0], ss[1], ss[2], ss[3]) + Decoded(t).value
  {
    SymbolsJoin(q, t);
    UngroupedFour(Symbols(q), Symbols(t));
  }

  lemma CountedPads(q: string)
    requires |q| == 4 && forall i | 0 <= i < 4 :: SymbolOf(q[i]) == Padding <==> q[i] == '='
    ensures PadCount(q) == Pads(SymbolOf(q[0])) + Pads(SymbolOf(q[1])) + Pads(SymbolOf(q[2])) + Pads(SymbolOf(q[3]))
  {
    assert PadCount(q[..3][..2][..1][..0]) == 0;
    assert PadCount(q[..3][..2][..1]) == Pads(SymbolOf(q[0]));
    assert PadCount(q[..3][..2]) == Pads(SymbolOf(q[0])) + Pads(SymbolOf(q[1]));
    assert PadCount(q[..3]) == Pads(SymbolOf(q[0])) + Pads(SymbolOf(q[1])) + Pads(SymbolOf(q[2]));
  }

  lemma QuadBytes(ss: seq<Symbol>, a: nat, b: nat, c: nat, d: nat, pads: nat)
    requires |ss| == 4 && Bits(ss[0]) == a && Bits(ss[1]) == b && Bits(ss[2]) == c && Bits(ss[3]) == d
    requires pads == Pads(ss[0]) + Pads(ss[1]) + Pads(ss[2]) + Pads(ss[3])
    ensures Ungroup(ss[0], ss[1], ss[2], ss[3]) ==
            [(a * 4 + b / 16) as byte]
            + (if pads < 2 then [(b % 16 * 16 + c / 4) as byte] else [])
            + (if pads < 1 then [(c % 4 * 64 + d) as byte] else [])
  {
    var t := TripleIn(ss[0], ss[1], ss[2], ss[3]);
    QuadArithmetic(a, b, c, d, t);
  }

  lemma QuadArithmetic(a: nat, b: nat, c: nat, d: nat, t: nat)
    requires a < 64 && b < 64 && c < 64 && d < 64 && t == a * 0x4_0000 + b * 0x1000 + c * 0x40 + d
    ensures t / 0x1_0000 == a * 4 + b / 16 < 256
    ensures t / 0x100 % 0x100 == b % 16 * 16 + c / 4 < 256
    ensures t % 0x100 == c % 4 * 64 + d < 256
  {
    var x, y, z := a * 4 + b / 16, b % 16 * 16 + c / 4, c % 4 * 64 + d;
    SplitSextet(b, b / 16, b % 16, 16);
    SplitSextet(c, c / 4, c % 4, 4);
    BytesOf(x, y, z, t);
  }

  lemma SplitSextet(v: nat, high: nat, low: nat, k: nat)
    requires v < 64 && (k == 4 || k == 16) && high == v / k && low == v % k
    ensures v == high * k + low && low < k && high < 64 / k
  {
  }

  lemma BytesOf(x: nat, y: nat, z: nat, t: nat)
    requires x < 256 && y < 256 && z < 256 && t == x * 0x1_0000 + y * 0x100 + z
    ensures t / 0x1_0000 == x && t / 0x100 % 0x100 == y && t % 0x100 == z
  {
    assert t == (x * 0x100 + y) * 0x100 + z;
  }

  /** Fewer than four characters decode to nothing. */
  lemma TooShort(text: string)
    requires |text| < 4 && Decoded(text).Some?
    ensures Decoded(text) == Some([])
  {
    SymbolsShort(text);
  }

  // ----- Encoding

  /** The four characters of a group of three bytes, two or one. */
  lemma GroupSpelled(x: Bytes, b: nat, c: nat)
    requires 1 <= |x| <= 3
    requires b == (if |x| >= 2 then x[1] as nat else 0) && c == if |x| >= 3 then x[2] as nat else 0
    ensures |ALPHABET| == 64
    ensures Group(x)[0] == ALPHABET[x[0] as nat / 4]
    ensures Group(x)[1] == ALPHABET[x[0] as nat % 4 * 16 + b / 16]
    ensures Group(x)[2] == if |x| >= 2 then ALPHABET[b % 16 * 4 + c / 64] else '='
    ensures Group(x)[3] == if |x| >= 3 then ALPHABET[c % 64] else '='
  {
    var a := x[0] as nat;
    GroupLetters(x, a, b, c);
    EncodeTable(a / 4);
    EncodeTable(a % 4 * 16 + b / 16);
    EncodeTable(b % 16 * 4 + c / 64);
    EncodeTable(c % 64);
  }

  lemma GroupLetters(x: Bytes, a: nat, b: nat, c: nat)
    requires 1 <= |x| <= 3 && a == x[0] as nat
    requires b == (if |x| >= 2 then x[1] as nat else 0) && c == if |x| >= 3 then x[2] as nat else 0
    ensures Group(x)[0] == Letter(a / 4) && Group(x)[1] == Letter(a % 4 * 16 + b / 16)
    ensures Group(x)[2] == if |x| >= 2 then Letter(b % 16 * 4 + c / 64) else '='
    ensures Group(x)[3] == if |x| >= 3 then Letter(c % 64) else '='
  {
    TripleSextets(a, b, c, Triple(x[0], if |x| >= 2 then x[1] else 0, if |x| >= 3 then x[2] else 0));
  }

  lemma TripleSextets(a: nat, b: nat, c: nat, t: nat)
    requires a < 256 && b < 256 && c < 256 && t == a * 0x1_0000 + b * 0x100 + c
    ensures SextetAt(t, 0) == c % 64
    ensures SextetAt(t, 1) == b % 16 * 4 + c / 64
    ensures SextetAt(t, 2) == a % 4 * 16 + b / 16
    ensures SextetAt(t, 3) == a / 4
  {
    assert Shifted(t, 0) == t;
    assert Shifted(t, 1) == a * 1024 + b * 4 + c / 64;
    assert Shifted(t, 2) == a * 16 + b / 16;
    assert Shifted(t, 3) == a / 4;
  }

  /** p in lines of 76 characters. */
  function Wrapped(p: string): string {
    if |p| <= 76 then p else p[..76] + "\r\n" + Wrapped(p[76..])
  }

  /** p in lines of 76 characters, of which the first one has linePos already. */
  function WrappedFrom(p: string, linePos: nat): string
    requires linePos < 76
  {
    if linePos + |p| <= 76 then p else p[..76-linePos] + "\r\n" + Wrapped(p[76-linePos..])
  }

  lemma {:induction false} LinesFrom(x: Bytes, linePos: nat)
    requires linePos < 76 && linePos % 4 == 0
    ensures Lines(x, linePos) == WrappedFrom(Plain(x), linePos)
  {
    if x != [] {
      var g, rest := Group(x[..Chunk(x)]), x[Chunk(x)..];
      if rest == [] {
        assert Plain(x) == g + "" == g;
        assert Lines(x, linePos) == g + "" == g;
      } else {
        PlainLong(rest);
        if linePos + 4 >= 76 {
          LinesFrom(rest, 0);
          BreakHere(g, Plain(rest), linePos);
        } else {
          LinesFrom(rest, linePos + 4);
          NoBreak(g, Plain(rest), linePos);
        }
      }
    }
  }

  lemma PlainLong(x: Bytes)
    requires x != []
    ensures |Plain(x)| >= 4
  {
  }

  lemma BreakHere(g: string, p: string, linePos: nat)
    requires |g| == 4 && linePos == 72 && |p| >= 4
    ensures WrappedFrom(g + p, linePos) == g + ("\r\n" + WrappedFrom(p, 0))
  {
    assert (g + p)[..4] == g && (g + p)[4..] == p;
    assert WrappedFrom(p, 0) == Wrapped(p);
  }

  lemma NoBreak(g: string, p: string, linePos: nat)
    requires |g| == 4 && linePos + 4 < 76
    ensures WrappedFrom(g + p, linePos) == g + WrappedFrom(p, linePos + 4)
  {
    if linePos + 4 + |p| > 76 {
      var k := 72 - linePos;
      TakeBeyond(g, p, k);
      assert WrappedFrom(g + p, linePos) == (g + p)[..k+4] + "\r\n" + Wrapped((g + p)[k+4..]);
      ConcatAssoc(g, p[..k], "\r\n");
      ConcatAssoc(g, p[..k] + "\r\n", Wrapped(p[k..]));
    }
  }

  lemma TakeBeyond(g: string, p: string, k: nat)
    requires |g| == 4 && k <= |p|
    ensures (g + p)[..k+4] == g + p[..k] && (g + p)[k+4..] == p[k..]
  {
  }

  /** The encoding is the plain one in lines of 76 characters. */
  lemma LinesWrapped(x: Bytes)
    ensures Lines(x, 0) == Wrapped(Plain(x))
  {
    LinesFrom(x, 0);
  }
}
