/** The compact encoding of 256-bit targets: an exponent of base 256 and a 23-bit mantissa. */
module Compact {
  import opened ArithSpec
  import opened ArithUint
  import opened ArithUintOps
  import opened NthRoot

  const WIDTH := 8
  const SIGN := 0x0080_0000

  type Uint32 = Limb

  function Exponent(c: Uint32): nat { c / 0x0100_0000 }

  function Mantissa(c: Uint32): nat { c % SIGN }

  predicate SignSet(c: Uint32) { c / SIGN % 2 == 1 }

  /** 256 to the power `i`. */
  function Bytes(i: nat): (p: nat)
    ensures p >= 1
  {
    Pow2(8 * i)
  }

  function Times(x: nat, p: nat): nat { x * p }

  function Over(x: nat, p: nat): nat
    requires p > 0
  {
    DivLe(x, p);
    x / p
  }

  /** The mantissa that is left after an exponent below 3 has dropped its low bytes. */
  function Word(c: Uint32): nat {
    if Exponent(c) <= 3 then Over(Mantissa(c), Bytes(3 - Exponent(c))) else Mantissa(c)
  }

  /** The number encoded, before it is reduced to 256 bits. */
  function Decoded(c: Uint32): nat {
    if Exponent(c) <= 3 then Word(c) else Times(Mantissa(c), Bytes(Exponent(c) - 3))
  }

  /** The overflow test on exponent and mantissa says exactly that the number needs more than 256 bits. */
  lemma OverflowExact(e: nat, m: nat)
    requires e > 3 && m < SIGN
    ensures (m != 0 && (e > 34 || (m > 0xff && e > 33) || (m > 0xffff && e > 32))) <==> m * Bytes(e - 3) >= Weight(WIDTH)
  {
    hide Pow2, Weight;
    WeightIsPow2(WIDTH);
    if e > 34 {
      Pow2Mono(256, 8 * (e - 3));
      MulMono(if m == 0 then 0 else 1, m, Bytes(e - 3));
    } else {
      var rest := 8 * (35 - e);
      Pow2Add(rest, 8 * (e - 3));
      SmallPowers();
      var w := Pow2(8 * (e - 3));
      if e <= 32 {
        Pow2Mono(24, rest);
        MulStrict(m, Pow2(rest), w);
      } else if m < Pow2(rest) {
        MulStrict(m, Pow2(rest), w);
      } else {
        MulMono(Pow2(rest), m, w);
      }
    }
  }

  lemma SmallPowers()
    ensures Pow2(8) == 0x100 && Pow2(16) == 0x1_0000 && Pow2(24) == 0x100_0000
  {
    assert Pow2(8) == 0x100;
    Pow2Add(8, 8);
    Pow2Add(16, 8);
  }

  /** `SetCompact` into a number of 256 bits. */
  method SetCompact(pn: array<Limb>, nCompact: Uint32) returns (negative: bool, overflow: bool)
    requires pn.Length == WIDTH
    modifies pn
    ensures Val(pn[..]) == Decoded(nCompact) % Weight(WIDTH)
    ensures overflow <==> Decoded(nCompact) >= Weight(WIDTH)
    ensures negative <==> Word(nCompact) != 0 && SignSet(nCompact)
  {
    hide Val, Weight, Pow2;
    var nSize := nCompact / 0x0100_0000;
    var nWord: nat := nCompact % SIGN;
    if nSize <= 3 {
      DivLe(nWord, Bytes(3 - nSize));
      nWord := nWord / Bytes(3 - nSize);
      AssignUint64(pn, nWord);
    } else {
      AssignUint64(pn, nWord);
      ShlAssign(pn, 8 * (nSize - 3));
      OverflowExact(nSize, nWord);
    }
    WideEnough();
    if nSize <= 3 { Reduce(nWord, Weight(WIDTH), 0, nWord); }
    negative := nWord != 0 && nCompact / SIGN % 2 == 1;
    overflow := nWord != 0 && (nSize > 34 || (nWord > 0xff && nSize > 33) || (nWord > 0xffff && nSize > 32));
  }

  lemma WideEnough()
    ensures Weight(WIDTH) > SIGN
  {
    WeightAdd(1, 7);
    MulMono(1, Weight(7), Weight(1));
  }

  /** Assignment from a 64-bit number. */
  method AssignUint64(pn: array<Limb>, b: nat)
    requires b < UINT64 && pn.Length >= 2
    modifies pn
    ensures Val(pn[..]) == b
  {
    hide Val, Weight;
    Clear(pn);
    QuotientBound(b);
    pn[0] := b % BASE;
    pn[1] := b / BASE;
    FromTwo(pn[..], b);
  }

  // ----- encoding

  /** The exponent chosen for a number of `b` bits: enough bytes for it and a clear sign bit. */
  function SizeFor(b: nat): nat { if b == 0 then 0 else (b + 8) / 8 }

  function MantissaFor(x: nat, e: nat): nat {
    if e <= 3 then Times(x, Bytes(3 - e)) else Over(x, Bytes(e - 3))
  }

  ghost predicate Encodes(c: Uint32, x: nat) {
    exists b: nat :: HasBits(x, b) && EncodesAs(c, x, SizeFor(b))
  }

  predicate EncodesAs(c: Uint32, x: nat, e: nat) {
    Exponent(c) == e && !SignSet(c) && Mantissa(c) == MantissaFor(x, e)
  }

  /** What rounding to the precision of exponent `e` drops. */
  function Unit(e: nat): (u: nat)
    ensures u >= 1
  {
    if e <= 3 then 1 else Bytes(e - 3)
  }

  /** The largest multiple of `u` that is not above `x`. */
  function RoundDown(x: nat, u: nat): (r: nat)
    requires u > 0
    ensures r <= x
  {
    x - x % u
  }

  lemma Divides(x: nat, p: nat)
    requires p > 0
    ensures x * p / p == x
  {
    DivModUnique(x * p, p, x, 0);
  }

  lemma DecodedIs(c: Uint32, x: nat, e: nat)
    requires EncodesAs(c, x, e)
    ensures Decoded(c) == RoundDown(x, Unit(e))
  {
    hide Pow2;
    if e <= 3 {
      Divides(x, Bytes(3 - e));
    }
  }

  /** Decoding an encoded number rounds it down to the unit of its exponent and raises neither flag. */
  lemma CompactRoundTrip(c: Uint32, x: nat)
    requires Encodes(c, x) && x < Weight(WIDTH)
    ensures Decoded(c) == RoundDown(x, Unit(Exponent(c))) <= x
    ensures Decoded(c) < Weight(WIDTH) && !SignSet(c)
  {
    hide Pow2, Weight, Decoded;
    var b: nat :| HasBits(x, b) && EncodesAs(c, x, SizeFor(b));
    DecodedIs(c, x, SizeFor(b));
  }

  lemma RoundedBits(x: nat, b: nat)
    requires HasBits(x, b)
    ensures HasBits(RoundDown(x, Unit(SizeFor(b))), b)
  {
    hide Pow2;
    var e := SizeFor(b);
    if e > 3 {
      var u, k := Unit(e), 8 * (e - 3);
      Pow2Add(b - 1 - k, k);
      assert Pow2(b - 1) == Pow2(b - 1 - k) * u;
      DivBounds(x, u);
      var q := x / u;
      assert x == q * u + x % u;
      if q < Pow2(b - 1 - k) { MulMono(q + 1, Pow2(b - 1 - k), u); Distrib(q, 1, u); }
      MulMono(Pow2(b - 1 - k), q, u);
    }
  }

  /** Encoding what was decoded gives the same code again. */
  lemma ReencodeStable(c: Uint32, x: nat)
    requires Encodes(c, x)
    ensures Encodes(c, Decoded(c))
  {
    hide Pow2;
    var b: nat :| HasBits(x, b) && EncodesAs(c, x, SizeFor(b));
    var e := SizeFor(b);
    DecodedIs(c, x, e);
    RoundedBits(x, b);
    var y := RoundDown(x, Unit(e));
    if e > 3 {
      DivModUnique(y, Unit(e), x / Unit(e), 0);
    }
    assert EncodesAs(c, y, SizeFor(b));
  }

  lemma LeadingBits(x: nat, b: nat, n: nat)
    requires HasBits(x, b) && n == (b + 7) / 8 && x > 0
    ensures HasBits(MantissaFor(x, n), b + 24 - 8 * n)
  {
    hide Pow2;
    if n <= 3 {
      var k := 8 * (3 - n);
      Pow2Add(b - 1, k);
      Pow2Add(b, k);
      MulMono(Pow2(b - 1), x, Pow2(k));
      MulStrict(x, Pow2(b), Pow2(k));
    } else {
      var k := 8 * (n - 3);
      Pow2Add(b - 1 - k, k);
      Pow2Add(b - k, k);
      QuotientBelow(x, Pow2(k), Pow2(b - k));
      QuotientAtLeast(x, Pow2(k), Pow2(b - 1 - k));
    }
  }

  lemma QuotientAtLeast(x: nat, d: nat, m: nat)
    requires d > 0 && m * d <= x
    ensures m <= x / d
  {
    DivBounds(x, d);
    if x / d < m { MulMono(x / d + 1, m, d); }
  }

  /** Moving to the next exponent drops one byte of the mantissa. */
  lemma NextExponent(x: nat, n: nat)
    ensures MantissaFor(x, n) / 0x100 == MantissaFor(x, n + 1)
  {
    hide Pow2;
    SmallPowers();
    if n < 3 {
      Pow2Add(8 * (3 - n - 1), 8);
      Assoc(x, Bytes(3 - n - 1), 0x100);
      Divides(x * Bytes(3 - n - 1), 0x100);
    } else if n == 3 {
      ZeroBytes();
    } else {
      Pow2Add(8 * (n - 3), 8);
      DivDiv(x, Bytes(n - 3), 0x100);
    }
  }

  lemma ZeroBytes()
    ensures Bytes(0) == 1
  {
  }

  /** Bit 23 of the leading bits is set exactly when the bytes are full. */
  lemma TopBitFull(m: nat, b: nat)
    requires HasBits(m, b) && b <= 24
    ensures m < 0x100_0000 && (m / SIGN % 2 == 1 <==> b == 24) && (b < 24 ==> m < SIGN)
  {
    hide Pow2;
    SmallPowers();
    Pow2Mono(b, 24);
    Pow2Next(23);
    if b < 24 { Pow2Mono(b, 23); }
  }

  lemma SizeIs(b: nat, n: nat)
    requires b > 0 && n == (b + 7) / 8
    ensures 8 * n - 8 < b <= 8 * n && SizeFor(b) == if b == 8 * n then n + 1 else n
  {
  }

  /** The code without its sign bit. */
  function Unsigned(c: Uint32): (u: Uint32)
    ensures !SignSet(u) && Exponent(u) == Exponent(c) && Mantissa(u) == Mantissa(c)
  {
    if SignSet(c) then c - SIGN else c
  }

  /** A code is its exponent, its sign and its mantissa. */
  lemma SameCode(c: Uint32, d: Uint32)
    requires Exponent(c) == Exponent(d) && (SignSet(c) <==> SignSet(d)) && Mantissa(c) == Mantissa(d)
    ensures c == d
  {
  }

  /** A number has only one encoding. */
  lemma EncodingUnique(c: Uint32, d: Uint32, x: nat)
    requires Encodes(c, x) && Encodes(d, x)
    ensures c == d
  {
    hide HasBits;
    var b: nat :| HasBits(x, b) && EncodesAs(c, x, SizeFor(b));
    var b': nat :| HasBits(x, b') && EncodesAs(d, x, SizeFor(b'));
    HasBitsUnique(x, b, b');
    SameCode(c, d);
  }

  /** `GetCompact` of a 256-bit number, with the sign it is to carry. */
  method GetCompact(pn: array<Limb>, fNegative: bool) returns (nCompact: Uint32)
    requires pn.Length == WIDTH
    ensures Encodes(Unsigned(nCompact), Val(pn[..]))
    ensures SignSet(nCompact) <==> fNegative && Mantissa(nCompact) != 0
  {
    hide Val, Weight, Pow2, MantissaFor, HasBits, SizeFor, Unsigned, SignSet, EncodesAs;
    ghost var x := Val(pn[..]);
    var bits := Bits(pn);
    var nSize := (bits + 7) / 8;
    var word := Lead(pn, bits, nSize);
    ghost var n := nSize;
    LeadFits(x, bits, n);
    if word / SIGN % 2 == 1 {
      NextExponent(x, n);
      word := word / 0x100;
      nSize := nSize + 1;
    }
    Pack(word, nSize, x);
    nCompact := word + nSize * 0x0100_0000;
    SetSign(nCompact);
    if fNegative && nCompact % SIGN != 0 {
      nCompact := nCompact + SIGN;
    }
  }

  lemma Pack(word: nat, e: nat, x: nat)
    requires word < SIGN && e < 0x100 && word == MantissaFor(x, e)
    ensures word + e * 0x0100_0000 < BASE && EncodesAs(word + e * 0x0100_0000, x, e) && !SignSet(word + e * 0x0100_0000)
  {
    hide MantissaFor;
  }

  lemma SetSign(c: Uint32)
    requires !SignSet(c)
    ensures c + SIGN < BASE && SignSet(c + SIGN) && Unsigned(c + SIGN) == c == Unsigned(c) && Mantissa(c + SIGN) == Mantissa(c)
  {
  }

  lemma SignIrrelevant(c: Uint32)
    ensures Decoded(Unsigned(c)) == Decoded(c) && Word(Unsigned(c)) == Word(c)
  {
    hide Unsigned, SignSet, Exponent, Mantissa, Over, Times, Bytes;
  }

  lemma MantissaKept(c: Uint32, x: nat)
    requires Encodes(c, x)
    ensures Mantissa(c) != 0 <==> Word(c) != 0
  {
    hide Pow2, HasBits;
    var b: nat :| HasBits(x, b) && EncodesAs(c, x, SizeFor(b));
    var e := SizeFor(b);
    if e <= 3 {
      Divides(x, Bytes(3 - e));
      MulMono(if x > 0 then 1 else 0, x, Bytes(3 - e));
    }
  }

  /** Encoding, decoding and encoding again: the same code, the number rounded down, and exact flags. */
  method Recode(pn: array<Limb>, fNegative: bool) returns (c: Uint32, x: array<Limb>, negative: bool, overflow: bool, d: Uint32)
    requires pn.Length == WIDTH
    ensures fresh(x) && x.Length == WIDTH && Val(x[..]) == RoundDown(Val(pn[..]), Unit(Exponent(c)))
    ensures !overflow && (negative <==> fNegative && Mantissa(c) != 0)
    ensures d == c
  {
    hide Val, Weight, Pow2, HasBits, Encodes, Decoded, Word, Unsigned;
    ValBound(pn[..]);
    c := GetCompact(pn, fNegative);
    CompactRoundTrip(Unsigned(c), Val(pn[..]));
    ReencodeStable(Unsigned(c), Val(pn[..]));
    MantissaKept(Unsigned(c), Val(pn[..]));
    SignIrrelevant(c);
    x := new Limb[WIDTH](_ => 0);
    negative, overflow := SetCompact(x, c);
    Reduce(Decoded(c), Weight(WIDTH), 0, Decoded(c));
    d := GetCompact(x, negative);
    EncodingUnique(Unsigned(d), Unsigned(c), Val(x[..]));
    SameCode(d, c);
  }

  /** The mantissa before the sign bit is looked at. */
  method Lead(pn: array<Limb>, bits: nat, nSize: nat) returns (word: nat)
    requires pn.Length == WIDTH && HasBits(Val(pn[..]), bits) && nSize == (bits + 7) / 8
    ensures word == MantissaFor(Val(pn[..]), nSize)
  {
    hide Val, Weight, Pow2;
    ghost var x := Val(pn[..]);
    LeadFits(x, bits, nSize);
    if nSize <= 3 {
      WordFits(x, Bytes(3 - nSize));
      var low := GetLow64(pn);
      word := low * Bytes(3 - nSize);
    } else {
      var bn := Copy(pn);
      ShrAssign(bn, 8 * (nSize - 3));
      word := GetLow64(bn);
    }
  }

  lemma WordFits(x: nat, p: nat)
    requires p > 0 && x * p < 0x100_0000
    ensures x < UINT64
  {
    MulMono(1, p, x);
  }

  lemma LeadFits(x: nat, b: nat, n: nat)
    requires HasBits(x, b) && n == (b + 7) / 8
    ensures MantissaFor(x, n) < 0x100_0000
    ensures SizeFor(b) == if MantissaFor(x, n) / SIGN % 2 == 1 then n + 1 else n
    ensures MantissaFor(x, n) / SIGN % 2 != 1 ==> MantissaFor(x, n) < SIGN
  {
    if x == 0 {
      assert b == 0 && n == 0 && MantissaFor(0, 0) == 0;
    } else {
      hide Pow2, MantissaFor;
      LeadingBits(x, b, n);
      SizeIs(b, n);
      TopBitFull(MantissaFor(x, n), b + 24 - 8 * n);
    }
  }
}
