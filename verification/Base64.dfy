/** Base64 with line breaks: the encoder, the decoder, and what they are for one
    another (RFC 4648 section 4, RFC 2045 section 6.8). */
module Base64 {
  import opened Operators
  import opened ByteStrings
  import opened Sequences

  // ----- The alphabet

  type Sextet = v: nat | v < 64

  /** The encode table. */
  function Letter(v: Sextet): char {
    if v < 26 then ('A' as int + v) as char
    else if v < 52 then ('a' as int + v - 26) as char
    else if v < 62 then ('0' as int + v - 52) as char
    else if v == 62 then '+'
    else '/'
  }

  datatype Symbol = Digit(v: Sextet) | Padding | Whitespace | Invalid

  /** The decode table. */
  function SymbolOf(c: char): Symbol {
    if 'A' <= c <= 'Z' then Digit(c as int - 'A' as int)
    else if 'a' <= c <= 'z' then Digit(c as int - 'a' as int + 26)
    else if '0' <= c <= '9' then Digit(c as int - '0' as int + 52)
    else if c == '+' then Digit(62)
    else if c == '/' then Digit(63)
    else if c == '=' then Padding
    else if 9 <= c as int <= 13 || c == ' ' then Whitespace
    else Invalid
  }

  lemma LetterDecodes(v: Sextet)
    ensures SymbolOf(Letter(v)) == Digit(v)
  {
  }

  // ----- Groups of three bytes, four symbols

  function Triple(a: byte, b: byte, c: byte): nat {
    a as nat * 0x1_0000 + b as nat * 0x100 + c as nat
  }

  /** t shifted right by k sextets. */
  function Shifted(t: nat, k: nat): nat {
    if k == 0 then t else Shifted(t, k - 1) / 64
  }

  /** The sextet of t that k sextets follow. */
  function SextetAt(t: nat, k: nat): Sextet {
    Shifted(t, k) % 64
  }

  /** The four characters for a group of one to three bytes. */
  function Group(x: Bytes): (s: string)
    requires 1 <= |x| <= 3
    ensures |s| == 4
  {
    var t := Triple(x[0], if |x| >= 2 then x[1] else 0, if |x| >= 3 then x[2] else 0);
    [Letter(SextetAt(t, 3)), Letter(SextetAt(t, 2)),
     if |x| >= 2 then Letter(SextetAt(t, 1)) else '=',
     if |x| >= 3 then Letter(SextetAt(t, 0)) else '=']
  }

  function Chunk(x: Bytes): nat {
    if |x| >= 3 then 3 else |x|
  }

  /** The plain encoding, without line breaks. */
  function Plain(x: Bytes): string {
    if x == [] then "" else Group(x[..Chunk(x)]) + Plain(x[Chunk(x)..])
  }

  /** The encoding with a line break after every 76 characters that are not the
      last ones; the first line already has linePos characters. */
  function Lines(x: Bytes, linePos: nat): string {
    if x == [] then ""
    else
      var rest := x[Chunk(x)..];
      Group(x[..Chunk(x)]) +
      (if linePos + 4 >= 76 && rest != [] then "\r\n" + Lines(rest, 0) else Lines(rest, linePos + 4))
  }

  // ----- Size

  /** How many groups n bytes make. */
  function Groups(n: nat): nat {
    if n == 0 then 0 else if n <= 3 then 1 else 1 + Groups(n - 3)
  }

  lemma {:induction false} GroupsClosed(n: nat)
    ensures Groups(n) == (n + 2) / 3
  {
    if n > 3 {
      GroupsClosed(n - 3);
    }
  }

  /** The length of the encoding of g groups, on a line that has linePos already. */
  function Size(g: nat, linePos: nat): nat {
    if g == 0 then 0
    else if g == 1 then 4
    else if linePos + 4 >= 76 then 6 + Size(g - 1, 0)
    else 4 + Size(g - 1, linePos + 4)
  }

  /** Four characters per group and two per line break. */
  lemma {:induction false} SizeClosed(g: nat, linePos: nat)
    requires 0 < g && linePos < 76 && linePos % 4 == 0
    ensures Size(g, linePos) == 4 * g + 2 * ((linePos + 4 * g - 1) / 76)
  {
    if g > 1 {
      if linePos + 4 >= 76 {
        SizeClosed(g - 1, 0);
        assert linePos + 4 * g - 1 == 76 + (4 * (g - 1) - 1);
      } else {
        SizeClosed(g - 1, linePos + 4);
        assert linePos + 4 * g - 1 == linePos + 4 + 4 * (g - 1) - 1;
      }
    }
  }

  lemma LinesStep(x: Bytes, linePos: nat)
    requires x != []
    ensures var rest := x[Chunk(x)..];
            |Lines(x, linePos)| ==
              if rest == [] then 4
              else if linePos + 4 >= 76 then 6 + |Lines(rest, 0)|
              else 4 + |Lines(rest, linePos + 4)|
  {
  }

  lemma {:induction false} LinesSize(x: Bytes, linePos: nat)
    ensures |Lines(x, linePos)| == Size(Groups(|x|), linePos)
  {
    if x != [] {
      var rest := x[Chunk(x)..];
      var g := Groups(|x|);
      LinesStep(x, linePos);
      if rest == [] {
        assert g == 1 && Size(g, linePos) == 4;
      } else {
        assert g > 1 && Groups(|rest|) == g - 1;
        if linePos + 4 >= 76 {
          LinesSize(rest, 0);
          assert Size(g, linePos) == 6 + Size(g - 1, 0);
        } else {
          LinesSize(rest, linePos + 4);
          assert Size(g, linePos) == 4 + Size(g - 1, linePos + 4);
        }
      }
    }
  }

  // ----- Decoding

  /** The symbols of a text without its whitespace. */
  function Symbols(text: string): seq<Symbol> {
    if text == "" then []
    else if SymbolOf(text[0]) == Whitespace then Symbols(text[1..])
    else [SymbolOf(text[0])] + Symbols(text[1..])
  }

  /** The sextet a symbol contributes; padding counts as 0. */
  function Bits(s: Symbol): Sextet {
    if s.Digit? then s.v else 0
  }

  function Pads(s: Symbol): nat {
    if s.Padding? then 1 else 0
  }

  /** The bytes of a triple: one fewer for every padding. */
  function TripleOut(t: nat, pads: nat): (x: Bytes)
    requires t < 0x100_0000
    ensures 1 <= |x| <= 3
  {
    if pads < 1 then [(t / 0x1_0000) as byte, (t / 0x100 % 0x100) as byte, (t % 0x100) as byte]
    else if pads < 2 then [(t / 0x1_0000) as byte, (t / 0x100 % 0x100) as byte]
    else [(t / 0x1_0000) as byte]
  }

  /** The triple four symbols make. */
  function TripleIn(a: Symbol, b: Symbol, c: Symbol, d: Symbol): (t: nat)
    ensures t < 0x100_0000
  {
    Bits(a) * 0x4_0000 + Bits(b) * 0x1000 + Bits(c) * 0x40 + Bits(d)
  }

  /** The bytes of a full group of four symbols. */
  function Ungroup(a: Symbol, b: Symbol, c: Symbol, d: Symbol): (x: Bytes)
    ensures 1 <= |x| <= 3
  {
    TripleOut(TripleIn(a, b, c, d), Pads(a) + Pads(b) + Pads(c) + Pads(d))
  }

  /** Group by group; an incomplete last group is dropped. */
  function Ungrouped(ss: seq<Symbol>): Bytes {
    if |ss| < 4 then [] else Ungroup(ss[0], ss[1], ss[2], ss[3]) + Ungrouped(ss[4..])
  }

  function Decoded(text: string): Option<Bytes> {
    if Invalid in Symbols(text) then None else Some(Ungrouped(Symbols(text)))
  }

  lemma {:induction false} SymbolsJoin(s: string, t: string)
    ensures Symbols(s + t) == Symbols(s) + Symbols(t)
  {
    if s == "" {
      assert s + t == t;
    } else {
      assert (s + t)[1..] == s[1..] + t;
      SymbolsJoin(s[1..], t);
    }
  }

  // ----- The round trip

  lemma OneShift(t: nat, k: nat)
    ensures Shifted(t, k) == Shifted(t, k + 1) * 64 + SextetAt(t, k)
  {
  }

  lemma SextetsOf(t: nat)
    requires t < 0x100_0000
    ensures SextetAt(t, 3) * 0x4_0000 + SextetAt(t, 2) * 0x1000 + SextetAt(t, 1) * 0x40 + SextetAt(t, 0) == t
  {
    OneShift(t, 0);
    OneShift(t, 1);
    OneShift(t, 2);
    OneShift(t, 3);
  }

  /** A triple that ends in zero bytes ends in zero sextets. */
  lemma ZeroTail(a: byte, b: byte)
    ensures SextetAt(Triple(a, b, 0), 0) == 0
    ensures b == 0 ==> SextetAt(Triple(a, b, 0), 1) == 0
  {
    var t := Triple(a, b, 0);
    assert t == (a as nat * 0x400 + b as nat * 4) * 64;
    assert Shifted(t, 1) == a as nat * 0x400 + b as nat * 4;
    if b == 0 {
      assert Shifted(t, 1) == (a as nat * 0x10) * 64;
    }
  }

  lemma TripleBytes(a: byte, b: byte, c: byte)
    ensures var t := Triple(a, b, c);
            t < 0x100_0000 && t / 0x1_0000 == a as int && t / 0x100 % 0x100 == b as int && t % 0x100 == c as int
  {
    var t := Triple(a, b, c);
    var u := a as nat * 0x100 + b as nat;
    assert t == u * 0x100 + c as nat && t / 0x100 == u;
    assert u / 0x100 == a as nat && u % 0x100 == b as nat;
  }

  /** What a group of symbols decodes to, given the triple its sextets add up to. */
  lemma UngroupTriple(p: Symbol, q: Symbol, r: Symbol, s: Symbol, a: byte, b: byte, c: byte)
    requires TripleIn(p, q, r, s) == Triple(a, b, c)
    requires p.Digit? && q.Digit?
    ensures Ungroup(p, q, r, s) ==
            var pads := Pads(r) + Pads(s);
            if pads == 0 then [a, b, c] else if pads == 1 then [a, b] else [a]
  {
    TripleBytes(a, b, c);
  }

  /** A group decodes to the bytes it was made from. */
  lemma GroupDecodes(x: Bytes)
    requires 1 <= |x| <= 3
    ensures var ss := Symbols(Group(x));
            |ss| == 4 && Invalid !in ss && Ungroup(ss[0], ss[1], ss[2], ss[3]) == x
  {
    var b, c: byte := if |x| >= 2 then x[1] else 0, if |x| >= 3 then x[2] else 0;
    var t := Triple(x[0], b, c);
    TripleBytes(x[0], b, c);
    SextetsOf(t);
    GroupSymbols(x, t);
    var ss := Symbols(Group(x));
    if |x| < 3 {
      ZeroTail(x[0], b);
    }
    assert TripleIn(ss[0], ss[1], ss[2], ss[3]) == t;
    UngroupTriple(ss[0], ss[1], ss[2], ss[3], x[0], b, c);
  }

  lemma GroupSymbols(x: Bytes, t: nat)
    requires 1 <= |x| <= 3 && t == Triple(x[0], if |x| >= 2 then x[1] else 0, if |x| >= 3 then x[2] else 0)
    ensures Symbols(Group(x)) ==
            [Digit(SextetAt(t, 3)), Digit(SextetAt(t, 2)),
             if |x| >= 2 then Digit(SextetAt(t, 1)) else Padding,
             if |x| >= 3 then Digit(SextetAt(t, 0)) else Padding]
  {
    LetterDecodes(SextetAt(t, 3));
    LetterDecodes(SextetAt(t, 2));
    LetterDecodes(SextetAt(t, 1));
    LetterDecodes(SextetAt(t, 0));
    FourSymbols(Group(x));
  }

  lemma FourSymbols(g: string)
    requires |g| == 4 && forall i | 0 <= i < 4 :: SymbolOf(g[i]) != Whitespace
    ensures Symbols(g) == [SymbolOf(g[0]), SymbolOf(g[1]), SymbolOf(g[2]), SymbolOf(g[3])]
  {
    assert Symbols(g[1..][1..][1..][1..]) == [];
    assert Symbols(g[1..][1..][1..]) == [SymbolOf(g[3])];
    assert Symbols(g[1..][1..]) == [SymbolOf(g[2]), SymbolOf(g[3])];
    assert Symbols(g[1..]) == [SymbolOf(g[1]), SymbolOf(g[2]), SymbolOf(g[3])];
  }

  /** Line breaks carry no symbols: the encoding has the symbols of the plain one. */
  lemma {:induction false} LinesSymbols(x: Bytes, linePos: nat)
    ensures Symbols(Lines(x, linePos)) == Symbols(Plain(x))
  {
    if x != [] {
      var group, rest := Group(x[..Chunk(x)]), x[Chunk(x)..];
      SymbolsJoin(group, Plain(rest));
      if linePos + 4 >= 76 && rest != [] {
        LinesSymbols(rest, 0);
        BreakSymbols(Lines(rest, 0));
        SymbolsJoin(group, "\r\n" + Lines(rest, 0));
      } else {
        LinesSymbols(rest, linePos + 4);
        SymbolsJoin(group, Lines(rest, linePos + 4));
      }
    }
  }

  lemma BreakSymbols(s: string)
    ensures Symbols("\r\n" + s) == Symbols(s)
  {
    var t := "\r\n" + s;
    assert t[1..][1..] == s;
    assert Symbols(t) == Symbols(t[1..]) == Symbols(t[1..][1..]);
  }

  /** A group in front of a text that decodes. */
  lemma GroupAhead(first: Bytes, text: string)
    requires 1 <= |first| <= 3 && Invalid !in Symbols(text)
    ensures Invalid !in Symbols(Group(first) + text)
    ensures Ungrouped(Symbols(Group(first) + text)) == first + Ungrouped(Symbols(text))
  {
    GroupDecodes(first);
    SymbolsJoin(Group(first), text);
    UngroupedFour(Symbols(Group(first)), Symbols(text));
  }

  lemma {:induction false} PlainDecodes(x: Bytes)
    ensures Invalid !in Symbols(Plain(x)) && Ungrouped(Symbols(Plain(x))) == x
  {
    if x != [] {
      var k := Chunk(x);
      PlainDecodes(x[k..]);
      GroupAhead(x[..k], Plain(x[k..]));
      assert x == x[..k] + x[k..];
    }
  }

  /** Decoding an encoding gives the bytes back. */
  lemma RoundTrip(x: Bytes)
    ensures Decoded(Lines(x, 0)) == Some(x)
  {
    LinesSymbols(x, 0);
    PlainDecodes(x);
  }

  /** Two texts with the same characters other than whitespace decode alike. */
  lemma IgnoresWhitespace(s: string, t: string)
    requires Dense(s) == Dense(t)
    ensures Decoded(s) == Decoded(t)
  {
    DenseSymbols(s);
    DenseSymbols(t);
  }

  /** s without its whitespace. */
  function Dense(s: string): string {
    if s == "" then ""
    else if SymbolOf(s[0]) == Whitespace then Dense(s[1..])
    else [s[0]] + Dense(s[1..])
  }

  lemma {:induction false} DenseSymbols(s: string)
    ensures Symbols(s) == Symbols(Dense(s))
  {
    if s != "" {
      DenseSymbols(s[1..]);
      if SymbolOf(s[0]) != Whitespace {
        assert Dense(s)[1..] == Dense(s[1..]);
      }
    }
  }

  /** Decoding fails exactly on a character outside alphabet, padding and
      whitespace. */
  lemma {:induction false} FailsExactly(text: string)
    ensures Decoded(text).None? <==> exists i :: 0 <= i < |text| && SymbolOf(text[i]) == Invalid
  {
    if text != "" {
      var rest := text[1..];
      FailsExactly(rest);
      assert forall i | 0 < i < |text| :: text[i] == rest[i-1];
      if SymbolOf(text[0]) != Whitespace {
        assert Symbols(text)[0] == SymbolOf(text[0]);
      }
      if Invalid in Symbols(rest) {
        var i :| 0 <= i < |rest| && SymbolOf(rest[i]) == Invalid;
        assert SymbolOf(text[i+1]) == Invalid;
      }
    }
  }

  /** At most three bytes for every four symbols. */
  lemma {:induction false} DecodedSize(ss: seq<Symbol>)
    ensures |Ungrouped(ss)| <= 3 * (|ss| / 4)
  {
    if |ss| >= 4 {
      DecodedSize(ss[4..]);
    }
  }

  // ----- The encoder

  const SIZE_LIMIT: nat := 0x1_0000_0000_0000_0000

  /** a + b as a size, unless it wraps around. */
  function SafeAdd(a: nat, b: nat): Option<nat> {
    if a + b < SIZE_LIMIT then Some(a + b) else None
  }

  function SafeMul(a: nat, b: nat): Option<nat> {
    if a * b < SIZE_LIMIT then Some(a * b) else None
  }

  /** The size computed before encoding; None when it does not fit. */
  method EncodedSize(n: nat) returns (size: Option<nat>)
    ensures size == if Size(Groups(n), 0) < SIZE_LIMIT then Some(Size(Groups(n), 0)) else None
  {
    GroupsClosed(n);
    if n > 0 {
      SizeClosed(Groups(n), 0);
    }
    var tmp := SafeAdd(n, 2);
    if tmp.None? {
      return None;
    }
    var raw := SafeMul(tmp.value / 3, 4);
    if raw.None? {
      return None;
    }
    var lines := if raw.value > 0 then (raw.value - 1) / 76 else 0;
    var breaks := SafeMul(lines, 2);
    if breaks.None? {
      return None;
    }
    size := SafeAdd(raw.value, breaks.value);
  }

  /** Encodes group by group into a buffer of exactly the computed size. */
  method Encode(x: array<byte>) returns (text: Option<string>)
    ensures text == if |Lines(x[..], 0)| < SIZE_LIMIT then Some(Lines(x[..], 0)) else None
  {
    LinesSize(x[..], 0);
    var size := EncodedSize(x.Length);
    if size.None? {
      return None;
    }
    var out := new char[size.value + 1];
    ghost var all, goal := x[..], Lines(x[..], 0);
    var i, j, linePos := 0, 0, 0;
    assert all[i..] == all && out[..j] + goal == goal;
    while i < x.Length
      invariant 0 <= i <= x.Length && 0 <= j <= size.value && 0 <= linePos
      invariant out[..j] + Lines(all[i..], linePos) == goal
    {
      ghost var before, piece := out[..j], "";
      i, j, linePos, piece := PutGroup(x, all, i, out, j, linePos);
      ConcatAssoc(before, piece, Lines(all[i..], linePos));
    }
    out[j] := 0 as char;
    assert all[i..] == [] && out[..j] == goal;
    return Some(out[..j]);
  }

  /** A line break follows the group that ends at byte k and fills its line. */
  predicate BreakAfter(all: Bytes, k: nat, linePos: nat) {
    linePos + 4 >= 76 && k < |all|
  }

  lemma LinesAt(all: Bytes, i: nat, k: nat, linePos: nat, group: string)
    requires i < |all| && k == i + Chunk(all[i..]) && group == Group(all[i..][..Chunk(all[i..])])
    ensures k <= |all|
    ensures Lines(all[i..], linePos)
         == if BreakAfter(all, k, linePos) then (group + "\r\n") + Lines(all[k..], 0)
            else group + Lines(all[k..], linePos + 4)
  {
    assert all[i..][Chunk(all[i..])..] == all[k..];
    if BreakAfter(all, k, linePos) {
      ConcatAssoc(group, "\r\n", Lines(all[k..], 0));
    }
  }

  /** Writes the next group, and a line break if the line is full and something
      follows; piece is what it writes. */
  method PutGroup(x: array<byte>, ghost all: Bytes, i: nat, out: array<char>, j: nat, linePos: nat)
    returns (nextI: nat, nextJ: nat, nextPos: nat, ghost piece: string)
    requires all == x[..] && i < x.Length && j + |Lines(all[i..], linePos)| < out.Length
    modifies out
    ensures i < nextI <= x.Length && nextJ == j + |piece| < out.Length
    ensures Lines(all[i..], linePos) == piece + Lines(all[nextI..], nextPos)
    ensures out[..nextJ] == old(out[..j]) + piece
  {
    var group, broken;
    group, broken, nextI, nextPos, piece := LeadingGroup(x, all, i, linePos);
    if broken {
      WriteLine(out, j, group);
      nextJ := j + 6;
    } else {
      WriteGroup(out, j, group);
      nextJ := j + 4;
    }
  }

  /** What the encoding of the bytes from i on starts with: a group, and a line break
      if the line is full and something follows. */
  method LeadingGroup(x: array<byte>, ghost all: Bytes, i: nat, linePos: nat)
    returns (group: string, broken: bool, nextI: nat, nextPos: nat, ghost piece: string)
    requires all == x[..] && i < x.Length
    ensures |group| == 4 && i < nextI <= x.Length && piece == if broken then group + "\r\n" else group
    ensures Lines(all[i..], linePos) == piece + Lines(all[nextI..], nextPos)
  {
    var chunk;
    group, chunk := NextGroup(x, all, i);
    nextI, nextPos := i + chunk, linePos + 4;
    LinesAt(all, i, nextI, linePos, group);
    broken := nextPos >= 76 && nextI < x.Length;
    piece := group;
    if broken {
      nextPos, piece := 0, group + "\r\n";
    }
  }

  /** A group and a line break. */
  method WriteLine(out: array<char>, j: nat, group: string)
    requires |group| == 4 && j + 6 <= out.Length
    modifies out
    ensures out[..j+6] == old(out[..j]) + (group + "\r\n")
  {
    ghost var before := out[..j];
    WriteGroup(out, j, group);
    out[j+4], out[j+5] := '\r', '\n';
    assert out[..j+4] == before + group;
    assert out[..j+6] == out[..j+4] + "\r\n";
    ConcatAssoc(before, group, "\r\n");
  }

  /** The characters for the bytes from i on. */
  method NextGroup(x: array<byte>, ghost all: Bytes, i: nat) returns (group: string, chunk: nat)
    requires all == x[..] && i < x.Length
    ensures chunk == Chunk(all[i..]) && group == Group(all[i..][..chunk])
  {
    chunk := 1;
    var a := x[i];
    var b: byte := 0;
    var c: byte := 0;
    if i + 1 < x.Length {
      b, chunk := x[i+1], 2;
    }
    if i + 2 < x.Length {
      c, chunk := x[i+2], 3;
    }
    var t := Triple(a, b, c);
    group := [Letter(SextetAt(t, 3)), Letter(SextetAt(t, 2)),
              if chunk >= 2 then Letter(SextetAt(t, 1)) else '=',
              if chunk >= 3 then Letter(SextetAt(t, 0)) else '='];
  }

  method WriteGroup(out: array<char>, j: nat, group: string)
    requires |group| == 4 && j + 4 <= out.Length
    modifies out
    ensures out[..j+4] == old(out[..j]) + group
    ensures forall k | j + 4 <= k < out.Length :: out[k] == old(out[k])
  {
    out[j], out[j+1], out[j+2], out[j+3] := group[0], group[1], group[2], group[3];
  }

  // ----- The decoder

  /** The longest input the decoder accepts: its own limit on the input, which
      wraps around in the size type. */
  const INPUT_LIMIT: nat := (SIZE_LIMIT - 4) / 3 * 4 % SIZE_LIMIT

  /** How many of the symbols are padding. */
  function PadsOf(ss: seq<Symbol>): nat {
    if ss == [] then 0 else PadsOf(ss[..|ss|-1]) + Pads(ss[|ss|-1])
  }

  lemma PadsSnoc(ss: seq<Symbol>, s: Symbol)
    ensures PadsOf(ss + [s]) == PadsOf(ss) + Pads(s)
  {
    assert (ss + [s])[..|ss|] == ss;
  }

  lemma PadsFour(ss: seq<Symbol>)
    requires |ss| == 4
    ensures PadsOf(ss) == Pads(ss[0]) + Pads(ss[1]) + Pads(ss[2]) + Pads(ss[3])
  {
    PadsSnoc([], ss[0]);
    PadsSnoc([ss[0]], ss[1]);
    PadsSnoc([ss[0], ss[1]], ss[2]);
    PadsSnoc([ss[0], ss[1], ss[2]], ss[3]);
    assert [] + [ss[0]] == [ss[0]] && [ss[0]] + [ss[1]] == [ss[0], ss[1]];
    assert [ss[0], ss[1]] + [ss[2]] == [ss[0], ss[1], ss[2]];
    assert [ss[0], ss[1], ss[2]] + [ss[3]] == ss;
  }

  lemma SymbolsAt(text: string, i: nat)
    requires i < |text|
    ensures Symbols(text[i..]) ==
            if SymbolOf(text[i]) == Whitespace then Symbols(text[i+1..]) else [SymbolOf(text[i])] + Symbols(text[i+1..])
  {
    assert text[i..][1..] == text[i+1..];
  }

  lemma UngroupedFour(ss: seq<Symbol>, rest: seq<Symbol>)
    requires |ss| == 4
    ensures Ungrouped(ss + rest) == Ungroup(ss[0], ss[1], ss[2], ss[3]) + Ungrouped(rest)
  {
    assert (ss + rest)[4..] == rest;
  }

  lemma Slide(pending: seq<Symbol>, s: Symbol, rest: seq<Symbol>)
    ensures pending + ([s] + rest) == pending + [s] + rest
  {
  }

  /** The buffer holds the sextets of the pending symbols. */
  ghost predicate Buffered(buf: seq<nat>, pending: seq<Symbol>) {
    |buf| == 4 && |pending| <= 4 && forall k | 0 <= k < |pending| :: buf[k] == Bits(pending[k])
  }

  /** Writes the bytes of a full buffer. */
  method PutTriple(out: array<byte>, j: nat, buf: array<nat>, padCount: nat, ghost pending: seq<Symbol>)
    returns (nextJ: nat)
    requires j + 3 <= out.Length && Buffered(buf[..], pending) && |pending| == 4 && padCount == PadsOf(pending)
    modifies out
    ensures j <= nextJ <= j + 3
    ensures out[..nextJ] == old(out[..j]) + Ungroup(pending[0], pending[1], pending[2], pending[3])
  {
    PadsFour(pending);
    assert buf[..][0] == buf[0] && buf[..][1] == buf[1] && buf[..][2] == buf[2] && buf[..][3] == buf[3];
    var triple := buf[0] * 0x4_0000 + buf[1] * 0x1000 + buf[2] * 0x40 + buf[3];
    assert triple == TripleIn(pending[0], pending[1], pending[2], pending[3]);
    out[j] := (triple / 0x1_0000) as byte;
    nextJ := j + 1;
    if padCount < 2 {
      out[nextJ] := (triple / 0x100 % 0x100) as byte;
      nextJ := nextJ + 1;
    }
    if padCount < 1 {
      out[nextJ] := (triple % 0x100) as byte;
      nextJ := nextJ + 1;
    }
  }

  /** Takes one more symbol into the group buffer, and empties the buffer when it
      is full. */
  method Accept(v: Symbol, out: array<byte>, j: nat, buf: array<nat>, bufLen: nat, padCount: nat,
                ghost pending: seq<Symbol>, ghost rest: seq<Symbol>)
    returns (nextJ: nat, nextLen: nat, nextPads: nat, ghost next: seq<Symbol>)
    requires j + 3 <= out.Length && bufLen == |pending| < 4 && Buffered(buf[..], pending) && padCount == PadsOf(pending)
    modifies out, buf
    ensures nextLen == |next| < 4 && Buffered(buf[..], next) && nextPads == PadsOf(next)
    ensures j <= nextJ && if bufLen == 3 then nextLen == 0 && nextJ <= j + 3 else nextLen == bufLen + 1 && nextJ == j
    ensures out[..nextJ] + Ungrouped(next + rest) == old(out[..j]) + Ungrouped(pending + ([v] + rest))
  {
    Slide(pending, v, rest);
    PadsSnoc(pending, v);
    next := pending + [v];
    buf[bufLen] := Bits(v);
    nextJ, nextLen := j, bufLen + 1;
    nextPads := if v == Padding then padCount + 1 else padCount;
    if nextLen == 4 {
      UngroupedFour(next, rest);
      ghost var before, group := out[..j], Ungroup(next[0], next[1], next[2], next[3]);
      nextJ := PutTriple(out, j, buf, nextPads, next);
      ConcatAssoc(before, group, Ungrouped(rest));
      nextLen, nextPads, next := 0, 0, [];
      assert next + rest == rest;
    }
  }

  /** A decoding under way: done has been written, the buffer holds the pending
      symbols, rest is still to come, and goal is what the whole text decodes to. */
  ghost predicate Decoding(done: Bytes, buf: seq<nat>, pads: nat, pending: seq<Symbol>, rest: seq<Symbol>,
                           goal: Option<Bytes>)
  {
    && |pending| < 4 && Buffered(buf, pending) && pads == PadsOf(pending)
    && goal == if Invalid in rest then None else Some(done + Ungrouped(pending + rest))
  }

  /** The next character. */
  method DecodeStep(c: char, out: array<byte>, j: nat, buf: array<nat>, bufLen: nat, padCount: nat,
                    ghost pending: seq<Symbol>, ghost rest: seq<Symbol>, ghost goal: Option<Bytes>)
    returns (ok: bool, nextJ: nat, nextLen: nat, nextPads: nat, ghost next: seq<Symbol>)
    requires j + 3 <= out.Length && bufLen == |pending|
    requires Decoding(out[..j], buf[..], padCount, pending,
                      if SymbolOf(c) == Whitespace then rest else [SymbolOf(c)] + rest, goal)
    modifies out, buf
    ensures !ok ==> goal == None
    ensures ok ==>
      nextLen == |next| && nextJ <= out.Length && Decoding(out[..nextJ], buf[..], nextPads, next, rest, goal)
    ensures 4 * nextJ + 3 * nextLen <= 4 * j + 3 * bufLen + 3
  {
    var v := SymbolOf(c);
    ok, nextJ, nextLen, nextPads, next := v != Invalid, j, bufLen, padCount, pending;
    if v != Whitespace && v != Invalid {
      nextJ, nextLen, nextPads, next := Accept(v, out, j, buf, bufLen, padCount, pending, rest);
    }
  }

  lemma {:induction false} SymbolsShort(text: string)
    ensures |Symbols(text)| <= |text|
  {
    if text != "" {
      SymbolsShort(text[1..]);
    }
  }

  /** Decodes symbol by symbol through a group buffer.  It never writes beyond
      three bytes for every four input characters, and a terminator after that. */
  method Decode(text: string) returns (r: Option<Bytes>)
    ensures r == if |text| > INPUT_LIMIT then None else Decoded(text)
    ensures INPUT_LIMIT == 6148914691236517200
    ensures r.Some? ==> |r.value| <= 3 * (|text| / 4)
  {
    if |text| > INPUT_LIMIT {
      return None;
    }
    SymbolsShort(text);
    DecodedSize(Symbols(text));
    var out := new byte[|text| / 4 * 3 + 3 + 1];
    var buf := new nat[4];
    var i, j, bufLen, padCount := 0, 0, 0, 0;
    ghost var pending: seq<Symbol>, goal := [], Decoded(text);
    Start(text);
    while i < |text|
      invariant 0 <= i <= |text| && 0 <= j && bufLen == |pending| && 4 * j + 3 * bufLen <= 3 * i
      invariant Decoding(out[..j], buf[..], padCount, pending, Symbols(text[i..]), goal)
    {
      var ok;
      SymbolsAt(text, i);
      ok, j, bufLen, padCount, pending :=
        DecodeStep(text[i], out, j, buf, bufLen, padCount, pending, Symbols(text[i+1..]), goal);
      if !ok {
        return None;
      }
      i := i + 1;
    }
    Finish(out[..j], pending);
    assert text[i..] == "";
    out[j] := 0;
    return Some(out[..j]);
  }

  lemma Start(text: string)
    ensures [] + Ungrouped([] + Symbols(text[0..])) == Ungrouped(Symbols(text))
    ensures text[0..] == text
  {
    assert text[0..] == text && [] + Symbols(text) == Symbols(text);
  }

  lemma Finish(done: Bytes, pending: seq<Symbol>)
    requires |pending| < 4
    ensures done + Ungrouped(pending + Symbols("")) == done
  {
  }

  // ----- Both methods together

  /** Encoding and then decoding gives the bytes back exactly when the text is within
      the decoder's input limit. */
  method EncodeThenDecode(x: array<byte>) returns (r: Option<Bytes>)
    ensures r == if |Lines(x[..], 0)| <= INPUT_LIMIT then Some(x[..]) else None
  {
    var text := Encode(x);
    if text.None? {
      return None;
    }
    r := Decode(text.value);
    RoundTrip(x[..]);
  }
}
