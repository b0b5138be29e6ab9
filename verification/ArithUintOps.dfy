/** Multiplication, division and bit length on limb arrays. */
module ArithUintOps {
  import opened ArithSpec
  import opened ArithUint

  // ----- bit length

  /** `v` has exactly `r` significant bits. */
  predicate HasBits(v: nat, r: nat) {
    if v == 0 then r == 0 else r > 0 && Pow2(r - 1) <= v < Pow2(r)
  }

  lemma HasBitsUnique(v: nat, r: nat, s: nat)
    requires HasBits(v, r) && HasBits(v, s)
    ensures r == s
  {
    if r < s { Pow2Mono(r, s - 1); } else if s < r { Pow2Mono(s, r - 1); }
  }

  /** `bits()`: the position of the highest set bit, plus one. */
  method Bits(pn: array<Limb>) returns (r: nat)
    ensures HasBits(Val(pn[..]), r) && r <= 32 * pn.Length
  {
    hide Val, Weight, Pow2;
    var pos := pn.Length;
    while pos > 0
      invariant 0 <= pos <= pn.Length
      invariant forall i | pos <= i < pn.Length :: pn[i] == 0
    {
      pos := pos - 1;
      if pn[pos] != 0 {
        Pow2Of32();
        var bits := 31;
        while bits > 0
          invariant 0 <= bits < 32 && pn[pos] < Pow2(bits + 1)
        {
          TopBit(pn[pos], bits);
          if pn[pos] / Pow2(bits) % 2 == 1 {
            TopLimb(pn[..], pos, bits);
            return 32 * pos + bits + 1;
          }
          bits := bits - 1;
        }
        OneBit();
        TopLimb(pn[..], pos, 0);
        return 32 * pos + 1;
      }
    }
    ValZero(pn[..]);
    return 0;
  }

  lemma OneBit()
    ensures Pow2(0) == 1 && Pow2(1) == 2
  {
  }

  lemma TopBit(x: nat, b: nat)
    requires x < Pow2(b + 1)
    ensures if x / Pow2(b) % 2 == 1 then Pow2(b) <= x else x < Pow2(b)
  {
    var p := Pow2(b);
    if x < p { DivModUnique(x, p, 0, x); } else { DivModUnique(x, p, 1, x - p); }
  }

  lemma TopLimb(a: seq<Limb>, pos: nat, b: nat)
    requires pos < |a| && b < 32 && Pow2(b) <= a[pos] < Pow2(b + 1)
    requires forall i | pos < i < |a| :: a[i] == 0
    ensures HasBits(Val(a), 32 * pos + b + 1)
  {
    hide Val, Weight, Pow2;
    ValSplit(a, pos + 1);
    ValZero(a[pos + 1..]);
    ValTake(a, pos);
    ValBound(a[..pos]);
    WeightIsPow2(pos);
    Pow2Add(b, 32 * pos);
    Pow2Add(b + 1, 32 * pos);
    var x: nat, w := a[pos], Weight(pos);
    MulMono(Pow2(b), x, w);
    MulMono(x + 1, Pow2(b + 1), w);
    Distrib(x, 1, w);
    assert 0 < w;
    MulMono(1, Pow2(b), w);
  }

  // ----- multiplication

  /** Adds `x` times `b`, `j` limbs up; what falls off the top is a multiple of the width. */
  method MulRow(pn: array<Limb>, x: Limb, b: array<Limb>, j: nat) returns (ghost dropped: int)
    requires pn.Length == b.Length && j <= pn.Length
    requires pn == b ==> forall k | 0 <= k < pn.Length :: pn[k] == 0
    modifies pn
    ensures b[..] == old(b[..])
    ensures Val(pn[..]) + dropped * Weight(pn.Length) == old(Val(pn[..])) + x * Weight(j) * Val(b[..])
  {
    hide Val, Weight;
    ghost var p, c := pn[..], b[..];
    ValEmpty();
    assert c[..0] == [];
    var carry := 0;
    for i := 0 to pn.Length - j
      invariant 0 <= carry < BASE && b[..] == c && (pn == b ==> carry == 0)
      invariant forall m | i + j <= m < pn.Length :: pn[m] == p[m]
      invariant Val(pn[..i + j]) + carry * Weight(i + j) == Val(p[..i + j]) + x * Weight(j) * Val(c[..i])
    {
      MulFits(carry, pn[i + j], x, b[i]);
      var n := carry + pn[i + j] + x * b[i];
      assert b[i] == c[i];
      assert pn == b ==> n == 0;
      ghost var lo := pn[..i + j];
      pn[i + j] := n % BASE;
      assert pn[..i + j] == lo;
      ValTake(pn[..], i + j);
      ValTake(p, i + j);
      ValTake(c, i);
      WeightAdd(i, j);
      WeightNext(i + j);
      MulColumn(Val(lo), carry, p[i + j], x, c[i], Weight(i), Weight(j), Weight(i + j), Val(p[..i + j]), Val(c[..i]), n);
      carry := n / BASE;
    }
    assert pn[..pn.Length] == pn[..];
    dropped := MulRowTop(p, pn[..], c, x, j, carry);
  }

  /** A column never exceeds 64 bits. */
  lemma MulFits(carry: Limb, p: Limb, x: Limb, y: Limb)
    ensures 0 <= carry + p + x * y < BASE * BASE && 0 <= (carry + p + x * y) / BASE < BASE
  {
    ProductBound(x, y);
    var n: nat := carry + p + x * y;
    QuotientBound(n);
  }

  lemma ProductBound(x: nat, y: nat)
    requires x < BASE && y < BASE
    ensures 0 <= x * y <= 0xffff_fffe_0000_0001
  {
    MulMono(x, 0xffff_ffff, y);
  }

  lemma QuotientBound(n: nat)
    requires n < 0x1_0000_0000_0000_0000
    ensures 0 <= n / BASE < BASE
  {
  }

  lemma MulRowTop(p: seq<Limb>, r: seq<Limb>, b: seq<Limb>, x: Limb, j: nat, carry: nat) returns (dropped: int)
    requires |p| == |r| == |b| && j <= |b|
    requires Val(r) + carry * Weight(|b|) == Val(p[..|b|]) + x * Weight(j) * Val(b[..|b| - j])
    ensures Val(r) + dropped * Weight(|b|) == Val(p) + x * Weight(j) * Val(b)
  {
    hide Val, Weight;
    var n := |b|;
    assert p[..n] == p;
    ValSplit(b, n - j);
    WeightAdd(n - j, j);
    dropped := carry + x * Val(b[n - j..]);
    MulTop(carry, x, Val(b[..n - j]), Val(b[n - j..]), Weight(n - j), Weight(j));
  }

  lemma MulColumn(lo: int, carry: int, p: int, x: int, y: int, wi: nat, wj: nat, w: nat, vp: int, vb: int, n: nat)
    requires w == wi * wj && n == carry + p + x * y && lo + carry * w == vp + x * wj * vb
    ensures lo + (n % BASE) * w + (n / BASE) * (BASE * w) == vp + p * w + x * wj * (vb + y * wi)
  {
    Column(lo, n, w);
    Distrib(carry + p, x * y, w);
    Distrib(carry, p, w);
    assert x * wj * (y * wi) == x * y * w by {
      Assoc(x, wj, y * wi);
      Assoc(x, y, wi * wj);
      assert wj * (y * wi) == y * (wi * wj);
    }
  }

  lemma MulTop(carry: int, x: int, low: int, high: int, w: int, wj: int)
    ensures x * wj * (low + high * w) == x * wj * low + (x * high) * (w * wj)
    ensures (carry + x * high) * (w * wj) == carry * (w * wj) + (x * high) * (w * wj)
  {
    Distrib(carry, x * high, w * wj);
    assert x * wj * (high * w) == (x * high) * (w * wj) by {
      Assoc(x, wj, high * w);
      Assoc(x, high, w * wj);
      assert wj * (high * w) == high * (w * wj);
    }
  }

  /** `operator*=`: the product, reduced to the width. An operand that is the number itself is cleared first. */
  method MulAssign(pn: array<Limb>, b: array<Limb>)
    requires pn.Length == b.Length
    modifies pn
    ensures Val(pn[..]) == if pn == b then 0 else (old(Val(pn[..])) * Val(b[..])) % Weight(pn.Length)
  {
    hide Val, Weight;
    ghost var a0, n := pn[..], pn.Length;
    var a := Copy(pn);
    Clear(pn);
    ghost var c := b[..];
    ghost var vb := Val(c);
    ValEmpty();
    assert a0[..0] == [];
    ghost var dropped := 0;
    for j := 0 to pn.Length
      invariant a[..] == a0 && b[..] == c
      invariant Val(pn[..]) + dropped * Weight(n) == Val(a0[..j]) * vb
    {
      ValTake(a0, j);
      assert a[j] == a0[j];
      Distrib(Val(a0[..j]), a0[j] * Weight(j), vb);
      assert forall k | 0 <= k < n :: b[k] == c[k];
      ghost var d := MulRow(pn, a[j], b, j);
      Distrib(dropped, d, Weight(n));
      dropped := dropped + d;
    }
    assert a0[..n] == a0;
    ValBound(pn[..]);
    Reduce(Val(a0) * vb, Weight(n), dropped, Val(pn[..]));
  }

  // ----- division

  /** Divisibility of a number by a power of two, limb by limb. */
  lemma LimbDivisible(a: seq<Limb>, m: nat, r: nat)
    requires m < |a| && r <= 32 && Val(a) % Pow2(32 * m + r) == 0
    ensures a[m] % Pow2(r) == 0
  {
    hide Val, Weight, Pow2;
    ValSplit(a, m + 1);
    ValTake(a, m);
    ValBound(a[..m]);
    WeightNext(m);
    WeightIsPow2(m);
    Pow2Add(32 * m, r);
    Pow2Add(r, 32 - r);
    Pow2Of32();
    Divisible(Val(a), Val(a[..m]), a[m], Val(a[m + 1..]), Weight(m), Pow2(r), Pow2(32 - r));
  }

  lemma Divisible(v: nat, lo: nat, x: nat, hi: nat, w: nat, p: nat, q: nat)
    requires w > 0 && p > 0 && p * q == BASE && lo < w && v == lo + x * w + hi * (BASE * w)
    requires w * p > 0 && v % (w * p) == 0
    ensures x % p == 0
  {
    var k := v / (w * p);
    assert v == k * (w * p);
    Exchange(k, w, p);
    assert v == w * (k * p) == (k * p) * w;
    Exchange(hi, BASE, w);
    assert hi * (BASE * w) == BASE * hi * w;
    Distrib(x, BASE * hi, w);
    var t := x + BASE * hi;
    assert v == t * w + lo;
    DivModUnique(v, w, t, lo);
    DivModUnique(v, w, k * p, 0);
    assert t == k * p;
    assert BASE * hi == (q * hi) * p by { Assoc(q, hi, p); Exchange(q, hi, p); }
    Distrib(k, -(q * hi), p);
    ModDrop(x, p, k - q * hi, 0);
  }

  /** Sets a bit of a number that is a multiple of twice that bit. */
  method SetBit(pn: array<Limb>, shift: nat)
    requires shift < 32 * pn.Length && Val(pn[..]) % Pow2(shift + 1) == 0
    modifies pn
    ensures Val(pn[..]) == old(Val(pn[..])) + Pow2(shift)
  {
    hide Val, Weight, Pow2, BitOr;
    ghost var a := pn[..];
    var m, r := shift / 32, shift % 32;
    LimbDivisible(a, m, r + 1);
    Pow2Next(r);
    OrDisjoint(Pow2(r), a[m], r + 1);
    BitFits(a[m], r);
    pn[m] := BitOr(pn[m], Pow2(r));
    BitAdded(a, pn[..], m, r);
  }

  lemma Pow2Next(r: nat)
    ensures Pow2(r + 1) == 2 * Pow2(r)
  {
  }

  lemma BitFits(x: Limb, r: nat)
    requires r < 32 && x % Pow2(r + 1) == 0
    ensures x + Pow2(r) < BASE
  {
    Pow2Of32();
    Pow2Add(r + 1, 31 - r);
    MultipleFits(x, Pow2(r + 1), Pow2(31 - r));
  }

  lemma MultipleFits(x: nat, p: nat, q: nat)
    requires p > 0 && x % p == 0 && x < p * q
    ensures x + p <= p * q
  {
    var k := x / p;
    assert x == k * p;
    if k >= q { MulMono(q, k, p); }
    MulMono(k + 1, q, p);
    Distrib(k, 1, p);
  }

  lemma BitAdded(a: seq<Limb>, b: seq<Limb>, m: nat, r: nat)
    requires |a| == |b| && m < |a| && b == a[m := b[m]] && b[m] as int == a[m] as int + Pow2(r)
    ensures Val(b) == Val(a) + Pow2(32 * m + r)
  {
    hide Val, Weight, Pow2;
    ValSplit(a, m + 1);
    ValSplit(b, m + 1);
    ValTake(a, m);
    ValTake(b, m);
    assert a[..m] == b[..m] && a[m + 1..] == b[m + 1..];
    Distrib(a[m], Pow2(r), Weight(m));
    WeightIsPow2(m);
    Pow2Add(r, 32 * m);
  }

  /** Halving an even shift. */
  lemma HalfShift(b: nat, t: nat)
    requires t > 0
    ensures b * Pow2(t) / Pow2(1) == b * Pow2(t - 1) && b * Pow2(t) == 2 * (b * Pow2(t - 1))
  {
    assert Pow2(1) == 2;
    Exchange(b, 2, Pow2(t - 1));
  }

  lemma Aligned(num: nat, div: nat, nb: nat, db: nat, width: nat)
    requires HasBits(num, nb) && HasBits(div, db) && 0 < db <= nb <= 32 * width
    ensures num < div * Pow2(nb - db + 1) && div * Pow2(nb - db) < Weight(width)
  {
    var shift := nb - db;
    WeightIsPow2(width);
    Pow2Mono(nb, 32 * width);
    Pow2Add(db, shift);
    Pow2Add(db - 1, shift + 1);
    hide Pow2;
    assert db + shift == nb;
    MulMono(Pow2(db - 1), div, Pow2(shift + 1));
    MulStrict(div, Pow2(db), Pow2(shift));
  }

  /** `operator/=` by shifting and subtracting. Division by zero is refused, with the number already cleared. */
  method DivAssign(pn: array<Limb>, b: array<Limb>) returns (ok: bool, num: array<Limb>)
    requires pn.Length == b.Length > 0
    modifies pn
    ensures fresh(num) && num.Length == pn.Length
    ensures ok <==> old(Val(b[..])) != 0
    ensures ok ==> Val(pn[..]) == old(Val(pn[..]) / Val(b[..])) && Val(num[..]) == old(Val(pn[..]) % Val(b[..]))
    ensures !ok ==> Val(pn[..]) == 0
  {
    hide Val, Weight, Pow2, Dividing;
    ghost var a, d := Val(pn[..]), Val(b[..]);
    var div := Copy(b);
    num := Copy(pn);
    Clear(pn);
    var numBits := Bits(num);
    var divBits := Bits(div);
    if divBits == 0 {
      return false, num;
    }
    ok := true;
    if divBits > numBits {
      FewerBits(a, d, numBits, divBits);
      DivModUnique(a, d, 0, a);
      return;
    }
    var shift := numBits - divBits;
    Aligned(a, d, numBits, divBits, pn.Length);
    ShlAssign(div, shift);
    Reduce(d * Pow2(shift), Weight(pn.Length), 0, d * Pow2(shift));
    StartDividing(a, d, shift + 1);
    while shift >= 0
      invariant -1 <= shift < 32 * pn.Length
      invariant shift >= 0 ==> Val(div[..]) == d * Pow2(shift)
      invariant Dividing(a, d, Val(pn[..]), Val(num[..]), shift + 1)
    {
      ghost var q, n := Val(pn[..]), Val(num[..]);
      MultipleOf(a, d, q, n, shift + 1);
      var c := CompareTo(num, div);
      if c >= 0 {
        SubAssign(num, div);
        SetBit(pn, shift);
        TakeBit(a, d, q, n, shift);
      } else {
        SkipBit(a, d, q, n, shift);
      }
      ShrAssign(div, 1);
      if shift > 0 { HalfShift(d, shift); }
      shift := shift - 1;
    }
    Divided(a, d, Val(pn[..]), Val(num[..]));
  }

  /** Partial division: `q` has only bits from `t` up, and `n` is what they leave of `a`. */
  ghost predicate Dividing(a: nat, d: nat, q: nat, n: nat, t: nat) {
    n < d * Pow2(t) && a == q * d + n && q % Pow2(t) == 0
  }

  lemma StartDividing(a: nat, d: nat, t: nat)
    requires a < d * Pow2(t)
    ensures Dividing(a, d, 0, a, t)
  {
  }

  lemma MultipleOf(a: nat, d: nat, q: nat, n: nat, t: nat)
    requires Dividing(a, d, q, n, t)
    ensures q % Pow2(t) == 0
  {
  }

  lemma TakeBit(a: nat, d: nat, q: nat, n: nat, t: nat)
    requires Dividing(a, d, q, n, t + 1) && n >= d * Pow2(t)
    ensures Dividing(a, d, q + Pow2(t), n - d * Pow2(t), t)
  {
    HalfShift(d, t + 1);
    NextBit(q, t);
    Distrib(q, Pow2(t), d);
  }

  lemma SkipBit(a: nat, d: nat, q: nat, n: nat, t: nat)
    requires Dividing(a, d, q, n, t + 1) && n < d * Pow2(t)
    ensures Dividing(a, d, q, n, t)
  {
    NextBit(q, t);
  }

  lemma Divided(a: nat, d: nat, q: nat, n: nat)
    requires Dividing(a, d, q, n, 0) && d > 0
    ensures q == a / d && n == a % d
  {
    OneBit();
    DivModUnique(a, d, q, n);
  }

  lemma FewerBits(a: nat, d: nat, nb: nat, db: nat)
    requires HasBits(a, nb) && HasBits(d, db) && nb < db
    ensures a < d
  {
    if a > 0 { Pow2Mono(nb, db - 1); }
  }

  lemma NextBit(q: nat, shift: nat)
    requires q % Pow2(shift + 1) == 0
    ensures q % Pow2(shift) == 0 && (q + Pow2(shift)) % Pow2(shift) == 0
  {
    var p, k := Pow2(shift), q / Pow2(shift + 1);
    assert q == k * (2 * p);
    Exchange(k, 2, p);
    ModDrop(q, p, 2 * k, 0);
    Distrib(2 * k, 1, p);
    ModDrop(q + p, p, 2 * k + 1, 0);
  }
}
