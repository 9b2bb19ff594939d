/** Two's complement in whole bytes: encoding, decoding, and the smallest width. */
module TwosComplement {
  import opened Operators
  import opened ByteStrings
  import opened WideInt
  import opened BigintText

  // ----- The meaning

  /** v is representable in n bytes. */
  predicate Fits(v: int, n: nat)
    requires n > 0
  {
    -Power(2, 8 * n - 1) <= v < Power(2, 8 * n - 1)
  }

  /** The unsigned pattern that stands for v. */
  function Pattern(v: int, n: nat): int {
    if v < 0 then v + Power(2, 8 * n) else v
  }

  /** The value of a byte string, most significant byte first. */
  function Unsigned(bs: Bytes): nat {
    if bs == [] then 0 else Unsigned(bs[..|bs|-1]) * 256 + bs[|bs|-1] as nat
  }

  /** The two's complement value of a byte string, most significant byte first. */
  function Signed(bs: Bytes): int
    requires bs != []
  {
    if bs[0] >= 0x80 then Unsigned(bs) - Power(2, 8 * |bs|) else Unsigned(bs)
  }

  function Reversed(bs: Bytes): (rs: Bytes)
    ensures |rs| == |bs| && forall i | 0 <= i < |bs| :: rs[i] == bs[|bs|-1-i]
  {
    seq(|bs|, i requires 0 <= i < |bs| => bs[|bs|-1-i])
  }

  /** A byte string as the field stores it. */
  function InOrder(bs: Bytes, bigEndian: bool): Bytes {
    if bigEndian then bs else Reversed(bs)
  }

  lemma OrderTwice(bs: Bytes, bigEndian: bool)
    ensures InOrder(InOrder(bs, bigEndian), bigEndian) == bs
  {
  }

  // ----- Fixed-width patterns

  /** The n bytes of v, most significant first, the high part dropped. */
  function BigEndian(v: nat, n: nat): (bs: Bytes)
    ensures |bs| == n
  {
    if n == 0 then [] else BigEndian(v / 256, n - 1) + [(v % 256) as byte]
  }

  lemma Power256(n: nat)
    requires n > 0
    ensures Power(2, 8 * n) == 256 * Power(2, 8 * n - 8)
    ensures Power(2, 8 * n) == 2 * Power(2, 8 * n - 1)
    ensures Power(2, 8 * n - 1) == 128 * Power(2, 8 * n - 8)
  {
    var e := 8 * n - 8;
    assert Power(2, e + 1) == 2 * Power(2, e);
    assert Power(2, e + 2) == 2 * Power(2, e + 1);
    assert Power(2, e + 3) == 2 * Power(2, e + 2);
    assert Power(2, e + 4) == 2 * Power(2, e + 3);
    assert Power(2, e + 5) == 2 * Power(2, e + 4);
    assert Power(2, e + 6) == 2 * Power(2, e + 5);
    assert Power(2, e + 7) == 2 * Power(2, e + 6);
    assert Power(2, e + 8) == 2 * Power(2, e + 7);
  }

  lemma {:induction false} UnsignedBigEndian(v: nat, n: nat)
    requires v < Power(2, 8 * n)
    ensures Unsigned(BigEndian(v, n)) == v
  {
    if n > 0 {
      Power256(n);
      UnsignedBigEndian(v / 256, n - 1);
      var bs := BigEndian(v, n);
      assert bs[..|bs|-1] == BigEndian(v / 256, n - 1);
    }
  }

  lemma {:induction false} BigEndianUnsigned(bs: Bytes)
    ensures Unsigned(bs) < Power(2, 8 * |bs|)
    ensures BigEndian(Unsigned(bs), |bs|) == bs
  {
    if bs != [] {
      var k := |bs| - 1;
      BigEndianUnsigned(bs[..k]);
      Power256(|bs|);
      assert Unsigned(bs) / 256 == Unsigned(bs[..k]) && Unsigned(bs) % 256 == bs[k] as nat;
      assert bs == bs[..k] + [bs[k]];
    }
  }

  /** The first byte tells whether the pattern is in the upper half. */
  lemma {:induction false} TopBit(bs: Bytes)
    requires bs != []
    ensures bs[0] >= 0x80 <==> Unsigned(bs) >= Power(2, 8 * |bs| - 1)
  {
    var k := |bs| - 1;
    Power256(|bs|);
    if k == 0 {
      assert bs[..0] == [] && Power(2, 0) == 1;
    } else {
      TopBit(bs[..k]);
      BigEndianUnsigned(bs[..k]);
      Power256(k);
    }
  }

  // ----- Main results

  lemma DecodeEncode(v: int, n: nat)
    requires n > 0 && Fits(v, n)
    ensures 0 <= Pattern(v, n) < Power(2, 8 * n)
    ensures Signed(BigEndian(Pattern(v, n), n)) == v
  {
    Power256(n);
    UnsignedBigEndian(Pattern(v, n), n);
    TopBit(BigEndian(Pattern(v, n), n));
  }

  lemma EncodeDecode(bs: Bytes)
    requires bs != []
    ensures Fits(Signed(bs), |bs|)
    ensures Pattern(Signed(bs), |bs|) == Unsigned(bs)
    ensures BigEndian(Unsigned(bs), |bs|) == bs
  {
    Power256(|bs|);
    BigEndianUnsigned(bs);
    TopBit(bs);
  }

  // ----- Byte by byte

  /** The i-th byte of v from the low end; a negative number has bytes without end. */
  function ByteAt(v: int, i: nat): int
    decreases i
  {
    if i == 0 then v % 256 else ByteAt(v / 256, i - 1)
  }

  /** That is what is left of v / 256^i beyond the multiples of 256. */
  lemma {:induction false} ByteAtPlain(v: int, i: nat, p: int)
    requires p == Power(256, i)
    ensures p > 0 && ByteAt(v, i) == v / p % 256
    decreases i
  {
    if i == 0 {
      assert p == 1 && v / 1 == v;
    } else {
      ByteAtPlain(v / 256, i - 1, Power(256, i - 1));
      DivideBy256(v, Power(256, i - 1));
    }
  }

  lemma DivideBy256(v: int, p: int)
    requires p > 0
    ensures v / 256 / p == v / (256 * p)
  {
    var q := v / 256 / p;
    var rest := v / 256 - q * p;
    assert 0 <= rest < p;
    assert v / 256 == q * p + rest;
    assert q * (256 * p) == 256 * (q * p);
    FloorUnique(q, v / (256 * p), v, 256 * p);
  }

  lemma {:induction false} BigEndianByte(v: nat, n: nat, i: nat)
    requires i < n
    ensures BigEndian(v, n)[n-1-i] as int == ByteAt(v, i)
  {
    if i > 0 {
      BigEndianByte(v / 256, n - 1, i - 1);
    }
  }

  /** Adding 2^(8n) leaves the n low bytes alone. */
  lemma {:induction false} WrapByte(v: int, n: nat, i: nat)
    requires i < n
    ensures ByteAt(v + Power(2, 8 * n), i) == ByteAt(v, i)
    decreases i
  {
    Power256(n);
    var p := Power(2, 8 * (n - 1));
    if i == 0 {
      assert (v + 256 * p) % 256 == v % 256;
    } else {
      assert (v + 256 * p) / 256 == v / 256 + p;
      WrapByte(v / 256, n - 1, i - 1);
    }
  }

  /** The i-th byte from the low end of the pattern of v. */
  lemma PatternByte(v: int, n: nat, i: nat)
    requires i < n && 0 <= Pattern(v, n)
    ensures BigEndian(Pattern(v, n), n)[n-1-i] as int == ByteAt(v, i)
  {
    BigEndianByte(Pattern(v, n), n, i);
    if v < 0 {
      WrapByte(v, n, i);
    }
  }

  /** The field holds the low bytes of v, the lowest one last when it is big-endian
      and first when it is not. */
  predicate Stores(field: Bytes, bigEndian: bool, v: int) {
    forall i | 0 <= i < |field| :: (if bigEndian then field[|field|-1-i] else field[i]) as int == ByteAt(v, i)
  }

  lemma PatternStores(v: int, n: nat, bigEndian: bool)
    requires 0 <= Pattern(v, n)
    ensures Stores(InOrder(BigEndian(Pattern(v, n), n), bigEndian), bigEndian, v)
  {
    var bs := BigEndian(Pattern(v, n), n);
    forall i | 0 <= i < n
      ensures bs[n-1-i] as int == ByteAt(v, i)
    {
      PatternByte(v, n, i);
    }
  }

  // ----- Encoding into a field

  datatype EncodeResult = Encoded | ZeroWidth | NotAnInteger | TooLarge

  /** The shortest big-endian form of v: what the library writes. */
  function Ubin(v: nat): Bytes {
    if v == 0 then [] else Ubin(v / 256) + [(v % 256) as byte]
  }

  function Zeros(n: nat): (bs: Bytes)
    ensures |bs| == n && forall i | 0 <= i < n :: bs[i] == 0
  {
    seq(n, _ => 0)
  }

  /** The shortest form, padded with zeros on the left, is the fixed-width form. */
  lemma {:induction false} UbinPadded(v: nat, n: nat)
    requires v < Power(2, 8 * n)
    ensures |Ubin(v)| <= n && Zeros(n - |Ubin(v)|) + Ubin(v) == BigEndian(v, n)
  {
    if n == 0 {
      assert v == 0;
    } else if v == 0 {
      PowerPositive(2, 8 * (n - 1));
      UbinPadded(0, n - 1);
      assert Zeros(n) == Zeros(n - 1) + [0];
      assert Zeros(n - 1) + [] == Zeros(n - 1);
    } else {
      Power256(n);
      UbinPadded(v / 256, n - 1);
      assert Zeros(n - |Ubin(v)|) + Ubin(v) == Zeros(n - |Ubin(v)|) + Ubin(v / 256) + [(v % 256) as byte];
    }
  }

  /** Swaps the ends toward the middle. */
  method ReverseInPlace(buf: array<byte>)
    modifies buf
    ensures buf[..] == Reversed(old(buf[..]))
  {
    var n := buf.Length;
    var i := 0;
    while i < n / 2
      invariant 0 <= i <= n / 2
      invariant forall k | 0 <= k < i || n - i <= k < n :: buf[k] == old(buf[n-1-k])
      invariant forall k | i <= k < n - i :: buf[k] == old(buf[k])
    {
      var t := buf[i];
      buf[i] := buf[n-1-i];
      buf[n-1-i] := t;
      i := i + 1;
    }
  }

  /** Clears the buffer and writes the shortest form of v at its right end. */
  method WritePattern(v: nat, buf: array<byte>)
    requires |Ubin(v)| <= buf.Length
    modifies buf
    ensures buf[..] == Zeros(buf.Length - |Ubin(v)|) + Ubin(v)
  {
    var bytes := Ubin(v);
    var pad := buf.Length - |bytes|;
    forall i | 0 <= i < buf.Length {
      buf[i] := if i < pad then 0 else bytes[i-pad];
    }
  }

  /** Writes a pattern in the byte order asked for. */
  method WriteField(v: nat, buf: array<byte>, bigEndian: bool)
    requires |Ubin(v)| <= buf.Length && v < Power(2, 8 * buf.Length)
    modifies buf
    ensures buf[..] == InOrder(BigEndian(v, buf.Length), bigEndian)
  {
    UbinPadded(v, buf.Length);
    WritePattern(v, buf);
    if !bigEndian {
      ReverseInPlace(buf);
    }
  }

  /** Writes the number z stands for into the field, or says why it cannot, in
      which case the field is left alone. */
  method ToTwosComplement(z: string, buf: array<byte>, bigEndian: bool) returns (r: EncodeResult)
    modifies buf
    ensures r == if buf.Length == 0 then ZeroWidth
                 else if Parsed(z).None? then NotAnInteger
                 else if !Fits(Parsed(z).value, buf.Length) then TooLarge
                 else Encoded
    ensures r.Encoded? ==> buf[..] == InOrder(BigEndian(Pattern(Parsed(z).value, buf.Length), buf.Length), bigEndian)
    ensures r.Encoded? ==> Stores(buf[..], bigEndian, Parsed(z).value)
    ensures !r.Encoded? ==> buf[..] == old(buf[..])
  {
    var n := buf.Length;
    if n == 0 {
      return ZeroWidth;
    }
    var parsed := FromStr(z);
    if parsed.None? {
      return NotAnInteger;
    }
    var v := parsed.value;
    var mod, half := Power(2, 8 * n), Power(2, 8 * n - 1);
    Power256(n);
    if v < 0 {
      if -v > half {
        return TooLarge;
      }
      v := v + mod;
    } else if v >= half {
      return TooLarge;
    }
    assert v == Pattern(Parsed(z).value, n);
    UbinPadded(v, n);
    if |Ubin(v)| > n {
      assert false;
    }
    WriteField(v, buf, bigEndian);
    PatternStores(Parsed(z).value, n, bigEndian);
    return Encoded;
  }

  /** Encoding a number that fits and decoding the field gives the number back. */
  lemma FieldRoundTrip(v: int, n: nat, bigEndian: bool)
    requires n > 0 && Fits(v, n)
    ensures 0 <= Pattern(v, n)
    ensures Signed(InOrder(InOrder(BigEndian(Pattern(v, n), n), bigEndian), bigEndian)) == v
  {
    DecodeEncode(v, n);
    OrderTwice(BigEndian(Pattern(v, n), n), bigEndian);
  }

  /** Decoding a field and encoding the number gives the field back. */
  lemma BytesRoundTrip(field: Bytes, bigEndian: bool)
    requires field != []
    ensures var v := Signed(InOrder(field, bigEndian));
            Fits(v, |field|) && 0 <= Pattern(v, |field|)
            && InOrder(BigEndian(Pattern(v, |field|), |field|), bigEndian) == field
  {
    EncodeDecode(InOrder(field, bigEndian));
    OrderTwice(field, bigEndian);
  }

  /** What is decoded has the bytes of the field, and its sign is the top bit at the
      high end. */
  lemma DecodedBytes(field: Bytes, bigEndian: bool, v: int)
    requires field != [] && v == Signed(InOrder(field, bigEndian))
    ensures v < 0 <==> (if bigEndian then field[0] else field[|field|-1]) >= 0x80
    ensures Fits(v, |field|)
    ensures Stores(field, bigEndian, v)
  {
    BytesRoundTrip(field, bigEndian);
    PatternStores(v, |field|, bigEndian);
    SignBit(InOrder(field, bigEndian));
  }

  lemma SignBit(bs: Bytes)
    requires bs != []
    ensures Signed(bs) < 0 <==> bs[0] >= 0x80
  {
    BigEndianUnsigned(bs);
  }

  /** Reads a field back as a number; a field of no bytes reads as 0. */
  method FromTwosComplement(buf: array<byte>, bigEndian: bool) returns (v: int)
    ensures v == if buf.Length == 0 then 0 else Signed(InOrder(buf[..], bigEndian))
    ensures buf.Length > 0 ==>
      && (v < 0 <==> (if bigEndian then buf[0] else buf[buf.Length-1]) >= 0x80)
      && Fits(v, buf.Length) && Stores(buf[..], bigEndian, v)
  {
    var n := buf.Length;
    if n == 0 {
      return 0;
    }
    var src := buf;
    if !bigEndian {
      src := new byte[n](_ => 0);
      for i := 0 to n
        invariant forall k | 0 <= k < i :: src[k] == buf[n-1-k]
      {
        src[i] := buf[n-1-i];
      }
    }
    assert src[..] == InOrder(buf[..], bigEndian);
    v := Unsigned(src[..]);
    if src[0] >= 0x80 {
      v := v - Power(2, 8 * n);
    }
    DecodedBytes(buf[..], bigEndian, v);
  }

  // ----- The smallest width

  /** The position of the lowest bit that is set. */
  function LowestBit(n: nat): nat
    requires n > 0
  {
    if n % 2 == 1 then 0 else 1 + LowestBit(n / 2)
  }

  /** Only a power of two has its lowest bit at the top. */
  lemma {:induction false} LowestIsTop(n: nat)
    requires n > 0
    ensures LowestBit(n) == Bits(n) - 1 <==> n == Power(2, Bits(n) - 1)
    ensures LowestBit(n) < Bits(n)
  {
    if n % 2 == 1 {
      if n > 1 {
        BitsMeans(n / 2, 0);
        assert Power(2, Bits(n) - 1) == 2 * Power(2, Bits(n) - 2);
      }
    } else {
      LowestIsTop(n / 2);
      assert Bits(n) == 1 + Bits(n / 2);
      assert Power(2, Bits(n) - 1) == 2 * Power(2, Bits(n / 2) - 1);
    }
  }

  method MinTwosComplementBytes(z: string) returns (needed: Option<nat>)
    ensures needed.Some? <==> Parsed(z).Some?
    ensures needed.Some? ==>
      needed.value > 0 && forall n: nat | n > 0 :: Fits(Parsed(z).value, n) <==> needed.value <= n
  {
    var parsed := FromStr(z);
    if parsed.None? {
      return None;
    }
    var v := parsed.value;
    forall n: nat | n > 0
      ensures Fits(v, n) <==> MinBytes(v) <= n
    {
      MinBytesExact(v, n);
    }
    if v == 0 {
      return Some(1);
    }
    var bits := Bits(Abs(v));
    var neededBits;
    if v < 0 {
      if LowestBit(Abs(v)) == bits - 1 {
        neededBits := bits;
      } else {
        neededBits := bits + 1;
      }
    } else {
      neededBits := bits + 1;
    }
    needed := Some((neededBits + 7) / 8);
  }

  /** The width the engine computes for v. */
  function MinBytes(v: int): (n: nat)
    ensures n > 0
  {
    if v == 0 then 1
    else if v < 0 && LowestBit(Abs(v)) == Bits(Abs(v)) - 1 then (Bits(Abs(v)) + 7) / 8
    else (Bits(Abs(v)) + 8) / 8
  }

  /** A width is enough exactly when it is at least the computed one. */
  lemma MinBytesExact(v: int, n: nat)
    requires n > 0
    ensures Fits(v, n) <==> MinBytes(v) <= n
  {
    var m := Abs(v);
    BitsMeans(m, 8 * n - 1);
    if v == 0 {
      PowerPositive(2, 8 * n - 1);
    } else if v < 0 {
      LowestIsTop(m);
      if LowestBit(m) == Bits(m) - 1 {
        PowerOrder(Bits(m) - 1, 8 * n - 1);
      } else if m == Power(2, 8 * n - 1) {
        BitsOfPower(8 * n - 1);
      }
    }
  }

  lemma {:induction false} PowerOrder(i: nat, j: nat)
    ensures Power(2, i) <= Power(2, j) <==> i <= j
    decreases i + j
  {
    PowerPositive(2, i);
    PowerPositive(2, j);
    if i == 0 {
    } else if j == 0 {
      PowerPositive(2, i - 1);
    } else {
      PowerOrder(i - 1, j - 1);
    }
  }

  lemma {:induction false} BitsOfPower(i: nat)
    ensures Power(2, i) >= 1 && Bits(Power(2, i)) == i + 1
  {
    PowerPositive(2, i);
    if i > 0 {
      BitsOfPower(i - 1);
      assert Power(2, i) / 2 == Power(2, i - 1);
    } else {
      assert Bits(1) == 1 + Bits(0);
    }
  }
}
