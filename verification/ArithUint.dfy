/** The multi-word operators, working in place on limb arrays of any width. */
module ArithUint {
  import opened ArithSpec

  /** One column of a carry loop: `n` is written as a limb and a carry. */
  lemma Column(before: int, n: nat, w: nat)
    ensures before + n * w == before + (n % BASE) * w + (n / BASE) * (BASE * w)
  {
    var q, r := n / BASE, n % BASE;
    assert n == q * BASE + r;
    Distrib(q * BASE, r, w);
    Assoc(q, BASE, w);
  }

  method Copy(a: array<Limb>) returns (r: array<Limb>)
    ensures fresh(r) && r[..] == a[..]
  {
    r := new Limb[a.Length](i requires 0 <= i < a.Length reads a => a[i]);
  }

  method Clear(pn: array<Limb>)
    modifies pn
    ensures forall i | 0 <= i < pn.Length :: pn[i] == 0
    ensures Val(pn[..]) == 0
  {
    for i := 0 to pn.Length
      invariant forall j | 0 <= j < i :: pn[j] == 0
    {
      pn[i] := 0;
    }
    ValZero(pn[..]);
  }

  /** `operator+=`: the sum, reduced to the width; the operand may be the number itself. */
  method AddAssign(pn: array<Limb>, b: array<Limb>)
    requires pn.Length == b.Length
    modifies pn
    ensures Val(pn[..]) == (old(Val(pn[..])) + old(Val(b[..]))) % Weight(pn.Length)
  {
    hide Val, Weight;
    ghost var a, c := pn[..], b[..];
    ValEmpty();
    var carry := 0;
    for i := 0 to pn.Length
      invariant 0 <= carry <= 1
      invariant forall j | i <= j < pn.Length :: pn[j] == a[j] && b[j] == c[j]
      invariant Val(pn[..i]) + carry * Weight(i) == Val(a[..i]) + Val(c[..i])
    {
      var n := carry + pn[i] + b[i];
      ghost var lo := pn[..i];
      pn[i] := n % BASE;
      assert pn[..i] == lo;
      ValTake(a, i);
      ValTake(c, i);
      ValTake(pn[..], i);
      ghost var w, x, y := Weight(i), a[i], c[i];
      Distrib(carry + x, y, w);
      Distrib(carry, x, w);
      Column(Val(lo), n, w);
      WeightNext(i);
      carry := n / BASE;
    }
    assert a[..pn.Length] == a && c[..b.Length] == c && pn[..pn.Length] == pn[..];
    ValBound(pn[..]);
    DivModUnique(Val(a) + Val(c), Weight(pn.Length), carry, Val(pn[..]));
  }

  lemma ComplementColumn(x: int, w: nat)
    ensures (BASE - 1 - x) * w == BASE * w - w - x * w
  {
    Distrib(BASE - 1, -x, w);
    Distrib(BASE, -1, w);
  }

  /** `operator~` into a new array. */
  method Complement(a: array<Limb>) returns (r: array<Limb>)
    ensures fresh(r) && r.Length == a.Length
    ensures Val(r[..]) == Weight(a.Length) - 1 - Val(a[..])
  {
    r := new Limb[a.Length](_ => 0);
    for i := 0 to a.Length
      invariant Val(r[..i]) == Weight(i) - 1 - Val(a[..i])
    {
      ghost var lo := r[..i];
      r[i] := BASE - 1 - a[i];
      assert r[..i] == lo;
      ValTake(a[..], i);
      ValTake(r[..], i);
      ComplementColumn(a[i], Weight(i));
    }
    assert a[..a.Length] == a[..] && r[..a.Length] == r[..];
  }

  /** Prefix `operator++`: limbs wrap until one does not. */
  method Increment(pn: array<Limb>)
    requires pn.Length > 0
    modifies pn
    ensures Val(pn[..]) == (old(Val(pn[..])) + 1) % Weight(pn.Length)
  {
    hide Val, Weight;
    ghost var a := pn[..];
    ValEmpty();
    var i := 0;
    pn[0] := (pn[0] + 1) % BASE;
    assert pn[..0] == [] && a[..0] == [];
    while pn[i] == 0 && i < pn.Length - 1
      invariant 0 <= i < pn.Length
      invariant Val(pn[..i]) + Weight(i) == Val(a[..i]) + 1
      invariant pn[i] == (a[i] + 1) % BASE
      invariant forall j | i < j < pn.Length :: pn[j] == a[j]
      decreases pn.Length - i
    {
      assert a[i] == BASE - 1;
      ValTake(a, i);
      ValTake(pn[..], i);
      WeightNext(i);
      assert Val(a[..i + 1]) == Val(a[..i]) + (BASE - 1) * Weight(i);
      i := i + 1;
      ghost var lo := pn[..i];
      pn[i] := (pn[i] + 1) % BASE;
      assert pn[..i] == lo;
    }
    Incremented(a, pn[..], i);
  }

  lemma IncrementedInside(a: seq<Limb>, p: seq<Limb>, i: nat)
    requires |p| == |a| && i < |a| && Val(p[..i]) + Weight(i) == Val(a[..i]) + 1
    requires p[i] as int == a[i] as int + 1 && p[i + 1..] == a[i + 1..]
    ensures Val(p) == Val(a) + 1
  {
    hide Val, Weight;
    ValTake(a, i);
    ValTake(p, i);
    Distrib(a[i], 1, Weight(i));
    ValSplit(p, i + 1);
    ValSplit(a, i + 1);
  }

  lemma IncrementedAll(a: seq<Limb>, p: seq<Limb>, i: nat)
    requires |p| == |a| == i + 1 && Val(p[..i]) + Weight(i) == Val(a[..i]) + 1
    requires p[i] == 0 && a[i] == BASE - 1
    ensures Val(p) + Weight(|a|) == Val(a) + 1
  {
    hide Val, Weight;
    ValTake(a, i);
    ValTake(p, i);
    WeightNext(i);
    assert p[..i + 1] == p && a[..i + 1] == a;
  }

  /** All limbs below `i` wrapped to zero, limb `i` went up by one and the rest are as before. */
  lemma Incremented(a: seq<Limb>, p: seq<Limb>, i: nat)
    requires |p| == |a| && i < |a| && Val(p[..i]) + Weight(i) == Val(a[..i]) + 1
    requires p[i] == (a[i] + 1) % BASE && p[i + 1..] == a[i + 1..]
    requires p[i] == 0 ==> i == |a| - 1
    ensures Val(p) == (Val(a) + 1) % Weight(|a|)
  {
    hide Val, Weight;
    ValBound(p);
    if p[i] != 0 {
      IncrementedInside(a, p, i);
      DivModUnique(Val(a) + 1, Weight(|a|), 0, Val(p));
    } else {
      IncrementedAll(a, p, i);
      DivModUnique(Val(a) + 1, Weight(|a|), 1, Val(p));
    }
  }

  /** Unary `operator-`: complement and add one. */
  method Negate(b: array<Limb>) returns (r: array<Limb>)
    requires b.Length > 0
    ensures fresh(r) && r.Length == b.Length
    ensures Val(r[..]) == (Weight(b.Length) - Val(b[..])) % Weight(b.Length)
  {
    ValBound(b[..]);
    r := Complement(b);
    Increment(r);
  }

  /** `operator-=` adds the two's complement, which subtracts modulo the width. */
  method SubAssign(pn: array<Limb>, b: array<Limb>)
    requires pn.Length == b.Length > 0
    modifies pn
    ensures old(Val(pn[..]) >= Val(b[..])) ==> Val(pn[..]) == old(Val(pn[..]) - Val(b[..]))
    ensures old(Val(pn[..]) < Val(b[..])) ==> Val(pn[..]) == Weight(pn.Length) + old(Val(pn[..]) - Val(b[..]))
  {
    hide Val, Weight;
    ghost var x, y, m := Val(pn[..]), Val(b[..]), Weight(pn.Length);
    ValBound(pn[..]);
    ValBound(b[..]);
    var minus := Negate(b);
    if y == 0 {
      DivModUnique(m, m, 1, 0);
      DivModUnique(x, m, 0, x);
    } else {
      DivModUnique(m - y, m, 0, m - y);
      DivModUnique(x + (m - y), m, if x >= y then 1 else 0, if x >= y then x - y else x + m - y);
    }
    AddAssign(pn, minus);
  }

  /** `CompareTo`, from the top limb down. */
  method CompareTo(a: array<Limb>, b: array<Limb>) returns (c: int)
    requires a.Length == b.Length
    ensures c == if Val(a[..]) < Val(b[..]) then -1 else if Val(a[..]) > Val(b[..]) then 1 else 0
  {
    var i := a.Length;
    while i > 0
      invariant 0 <= i <= a.Length && a[i..] == b[i..]
    {
      i := i - 1;
      if a[i] < b[i] {
        TopDiffers(a[..], b[..], i);
        return -1;
      }
      if a[i] > b[i] {
        TopDiffers(b[..], a[..], i);
        return 1;
      }
    }
    assert a[..] == a[0..] && b[..] == b[0..];
    return 0;
  }

  lemma TopDiffers(a: seq<Limb>, b: seq<Limb>, i: nat)
    requires |a| == |b| && i < |a| && a[i] < b[i] && a[i + 1..] == b[i + 1..]
    ensures Val(a) < Val(b)
  {
    hide Val, Weight;
    ValSplit(a, i + 1);
    ValSplit(b, i + 1);
    ValTake(a, i);
    ValTake(b, i);
    ValBound(a[..i]);
    MulStrict(a[i], b[i], Weight(i));
    Distrib(a[i], 1, Weight(i));
  }

  // ----- shifts

  /** The two parts that a limb falls into when shifted left by `s` bits. */
  function Low(x: Limb, s: nat): (r: Limb)
    requires s < 32
  {
    (x * Pow2(s)) % BASE
  }

  function High(x: Limb, s: nat): (r: Limb)
    requires s < 32
    ensures s == 0 ==> r == 0
  {
    DivLe(x, Pow2(32 - s));
    if s == 0 then 0 else x / Pow2(32 - s)
  }

  lemma SplitParts(x: nat, h: nat, l: nat, p: nat, q: nat)
    requires p > 0 && q > 0 && p * q == BASE && x < BASE && x == h * q + l && l < q
    ensures x * p == h * BASE + l * p && l * p + p <= BASE && h < p
  {
    Distrib(h * q, l, p);
    Assoc(h, q, p);
    assert q * p == BASE;
    MulStrict(l, q, p);
    Distrib(l, 1, p);
    if h >= p { MulMono(p, h, q); }
  }

  /** Splitting at the bit where `q` ends: `p` and `q` are complementary powers of two. */
  lemma SplitAt(x: nat, p: nat, q: nat)
    requires p > 0 && q > 0 && p * q == BASE && x < BASE
    ensures x * p == (x * p) % BASE + BASE * (x / q)
    ensures x / q < p && ((x * p) % BASE) % p == 0 && (x * p) % BASE + p <= BASE
    ensures (x * p) % BASE == (x % q) * p
  {
    var h, l := x / q, x % q;
    SplitParts(x, h, l, p, q);
    DivModUnique(x * p, BASE, h, l * p);
    ModDrop(l * p, p, l, 0);
  }

  lemma Parts(x: Limb, s: nat)
    requires s < 32
    ensures x * Pow2(s) == Low(x, s) + BASE * High(x, s)
    ensures High(x, s) < Pow2(s) && Low(x, s) % Pow2(s) == 0 && Low(x, s) + Pow2(s) <= BASE
  {
    Pow2Of32();
    Pow2Add(s, 32 - s);
    SplitAt(x, Pow2(s), Pow2(32 - s));
  }

  /** Limb `j` of the left shift by `k` limbs and `s` bits. */
  function ShlLimb(a: seq<Limb>, k: nat, s: nat, j: nat): int
    requires s < 32 && j < |a|
  {
    (if j >= k then Low(a[j - k], s) else 0) + (if j >= k + 1 then High(a[j - k - 1], s) else 0)
  }

  /** `operator<<=`: the product with a power of two, reduced to the width. */
  method ShlAssign(pn: array<Limb>, shift: nat)
    modifies pn
    ensures Val(pn[..]) == (old(Val(pn[..])) * Pow2(shift)) % Weight(pn.Length)
  {
    hide Val, Weight, Pow2, Low, High, BitOr;
    ghost var a0 := pn[..];
    var a := Copy(pn);
    Clear(pn);
    var k, s := shift / 32, shift % 32;
    for i := 0 to pn.Length
      invariant a[..] == a0
      invariant forall j | 0 <= j < pn.Length && j < i + k :: pn[j] == ShlLimb(a0, k, s, j)
      invariant i + k < pn.Length ==> pn[i + k] == if i > 0 then High(a0[i - 1], s) else 0
      invariant forall j | i + k < j < pn.Length :: pn[j] == 0
    {
      assert a[i] == a0[i];
      Parts(a0[i], s);
      if i + k + 1 < pn.Length && s != 0 {
        OrZero(High(a[i], s));
        pn[i + k + 1] := BitOr(pn[i + k + 1], High(a[i], s));
      }
      if i + k < pn.Length {
        if i > 0 { Parts(a0[i - 1], s); }
        ZeroBelow(s);
        OrDisjoint(pn[i + k], Low(a0[i], s), s);
        ShlFits(a0, k, s, i + k);
        pn[i + k] := BitOr(pn[i + k], Low(a[i], s));
      }
    }
    ShlValue(a0, pn[..], k, s);
    Pow2Add(s, 32 * k);
    WeightIsPow2(k);
  }

  lemma OrZero(x: nat)
    ensures BitOr(0, x) == x
  {
  }

  lemma ZeroBelow(s: nat)
    ensures 0 < Pow2(s)
  {
  }

  lemma ShlFits(a: seq<Limb>, k: nat, s: nat, j: nat)
    requires s < 32 && j < |a|
    ensures 0 <= ShlLimb(a, k, s, j) < BASE
  {
    if j >= k { Parts(a[j - k], s); }
    if j >= k + 1 { Parts(a[j - k - 1], s); }
  }

  /** The bits that the shift carries from limb `j - 1` into limb `j`. */
  function Spill(a: seq<Limb>, k: nat, s: nat, j: nat): nat
    requires s < 32 && k <= j <= |a|
  {
    if j > k then High(a[j - k - 1], s) else 0
  }

  lemma {:induction false} ShlPrefix(a: seq<Limb>, p: seq<Limb>, k: nat, s: nat, j: nat)
    requires |p| == |a| && s < 32 && k <= j <= |a|
    requires forall i | 0 <= i < |p| :: p[i] == ShlLimb(a, k, s, i)
    ensures Val(p[..j]) + Spill(a, k, s, j) * Weight(j) == Val(a[..j - k]) * (Pow2(s) * Weight(k))
    decreases j
  {
    hide Val, Weight, Pow2;
    if j == k {
      ValZero(p[..k]);
      ValEmpty();
      assert a[..0] == [];
    } else {
      var i, x := j - 1, a[j - 1 - k];
      ShlPrefix(a, p, k, s, i);
      ValTake(p, i);
      ValTake(a, i - k);
      WeightNext(i);
      WeightAdd(i - k, k);
      Parts(x, s);
      ShlColumn(x, Low(x, s), High(x, s), Spill(a, k, s, i), Pow2(s), Weight(i), Weight(i - k), Weight(k));
      Distrib(Val(a[..i - k]), x * Weight(i - k), Pow2(s) * Weight(k));
    }
  }

  lemma ShlColumn(x: int, lo: int, hi: int, spill: int, p: int, wj: int, wi: int, wk: int)
    requires x * p == lo + BASE * hi && wj == wi * wk
    ensures (lo + spill) * wj + hi * (BASE * wj) == spill * wj + x * wi * (p * wk)
  {
    Distrib(lo, spill, wj);
    Distrib(lo, BASE * hi, wj);
    assert (BASE * hi) * wj == hi * (BASE * wj);
    assert x * p * wj == x * wi * (p * wk) by {
      Assoc(x, p, wj);
      Assoc(x, wi, p * wk);
      assert p * (wi * wk) == wi * (p * wk);
    }
  }

  lemma ShlOut(a: seq<Limb>, k: nat, s: nat)
    requires k >= |a|
    ensures (Val(a) * (Pow2(s) * Weight(k))) % Weight(|a|) == 0
  {
    hide Val, Weight, Pow2;
    var n := |a|;
    WeightAdd(k - n, n);
    var va, p, w, wn := Val(a), Pow2(s), Weight(k - n), Weight(n);
    assert va * (p * (w * wn)) == va * (p * w) * wn by {
      Assoc(p, w, wn);
      Assoc(va, p * w, wn);
    }
    ModDrop(va * (p * (w * wn)), wn, va * (p * w), 0);
  }

  lemma ShlIn(a: seq<Limb>, p: seq<Limb>, k: nat, s: nat) returns (q: int)
    requires |p| == |a| && s < 32 && k < |a|
    requires forall j | 0 <= j < |p| :: p[j] == ShlLimb(a, k, s, j)
    ensures Val(a) * (Pow2(s) * Weight(k)) == q * Weight(|a|) + Val(p)
  {
    hide Val, Weight, Pow2, High, Low, ShlLimb, Spill;
    var n := |a|;
    ShlPrefix(a, p, k, s, n);
    assert p[..n] == p;
    ValSplit(a, n - k);
    WeightAdd(n - k, k);
    Exchange(Weight(n - k), Pow2(s), Weight(k));
    q := Spill(a, k, s, n) + Val(a[n - k..]) * Pow2(s);
    ShlTop(Val(a), Val(a[..n - k]), Val(a[n - k..]), Weight(n - k), Pow2(s), Pow2(s) * Weight(k), Weight(n),
           Spill(a, k, s, n), Val(p));
  }

  lemma ShlGone(a: seq<Limb>, p: seq<Limb>, k: nat, s: nat)
    requires |p| == |a| <= k && s < 32
    requires forall j | 0 <= j < |p| :: p[j] == ShlLimb(a, k, s, j)
    ensures Val(p) == 0
  {
    ValZero(p);
  }

  lemma ShlValue(a: seq<Limb>, p: seq<Limb>, k: nat, s: nat)
    requires |p| == |a| && s < 32
    requires forall j | 0 <= j < |p| :: p[j] == ShlLimb(a, k, s, j)
    ensures Val(p) == (Val(a) * (Pow2(s) * Weight(k))) % Weight(|a|)
  {
    hide Val, Weight, Pow2, High, Low, ShlLimb;
    if k >= |a| {
      ShlGone(a, p, k, s);
      ShlOut(a, k, s);
    } else {
      var q := ShlIn(a, p, k, s);
      ValBound(p);
      Reduce(Val(a) * (Pow2(s) * Weight(k)), Weight(|a|), q, Val(p));
    }
  }

  lemma Reduce(n: nat, d: nat, q: int, r: nat)
    requires r < d && n == q * d + r
    ensures n % d == r
  {
    ModDrop(n, d, q, r);
    DivModUnique(r, d, 0, r);
  }

  lemma ShlTop(va: int, low: int, high: int, w: int, p: int, f: int, wn: int, spill: int, vp: int)
    requires va == low + high * w && w * f == p * wn && vp + spill * wn == low * f
    ensures va * f == (spill + high * p) * wn + vp
  {
    Distrib(low, high * w, f);
    Distrib(spill, high * p, wn);
    Assoc(high, w, f);
    Assoc(high, p, wn);
  }

  /** The bits of a limb that a right shift by `s` keeps, and those it moves to the limb below. */
  function Kept(x: Limb, s: nat): (r: Limb)
    requires s < 32
  {
    DivLe(x, Pow2(s));
    x / Pow2(s)
  }

  function Moved(x: Limb, s: nat): (r: Limb)
    requires s < 32
  {
    if s == 0 then 0 else Low(x, 32 - s)
  }

  lemma KeptMovedAt(x: nat, y: nat, p: nat, q: nat)
    requires p > 0 && q > 0 && q * p == BASE && x < BASE && y < BASE
    ensures x == x / p * p + x % p && x / p < q
    ensures (y * q) % BASE * p == BASE * (y % p) && (y * q) % BASE % q == 0
    ensures x / p + (y * q) % BASE < BASE
  {
    SplitAt(y, q, p);
    SplitAt(x, q, p);
    Assoc(y % p, q, p);
  }

  lemma KeptMoved(x: Limb, y: Limb, s: nat)
    requires s < 32
    ensures x == Kept(x, s) * Pow2(s) + x % Pow2(s)
    ensures Moved(y, s) * Pow2(s) == BASE * (y % Pow2(s))
    ensures s != 0 ==> Kept(x, s) < Pow2(32 - s) && Moved(y, s) % Pow2(32 - s) == 0
    ensures Kept(x, s) + Moved(y, s) < BASE
  {
    if s == 0 {
      KeptMovedNone(x, y);
    } else {
      Pow2Of32();
      Pow2Add(32 - s, s);
      hide Pow2;
      KeptMovedAt(x, y, Pow2(s), Pow2(32 - s));
    }
  }

  lemma KeptMovedNone(x: Limb, y: Limb)
    ensures Pow2(0) == 1 && Kept(x, 0) == x && Moved(y, 0) == 0 && x % Pow2(0) == 0 && y % Pow2(0) == 0
  {
  }

  /** Limb `j` of the right shift by `k` limbs and `s` bits. */
  function ShrLimb(a: seq<Limb>, k: nat, s: nat, j: nat): int
    requires s < 32
  {
    (if j + k < |a| then Kept(a[j + k], s) else 0) + (if j + k + 1 < |a| then Moved(a[j + k + 1], s) else 0)
  }

  /** `operator>>=`: the quotient by a power of two. */
  method ShrAssign(pn: array<Limb>, shift: nat)
    modifies pn
    ensures Val(pn[..]) == old(Val(pn[..])) / Pow2(shift)
  {
    hide Val, Weight, Pow2, Low, Kept, Moved, BitOr;
    ghost var a0 := pn[..];
    var a := Copy(pn);
    Clear(pn);
    var k, s := shift / 32, shift % 32;
    for i := 0 to pn.Length
      invariant a[..] == a0
      invariant forall j | 0 <= j < i - k - 1 :: pn[j] == ShrLimb(a0, k, s, j)
      invariant i - k - 1 >= 0 ==> pn[i - k - 1] == Kept(a0[i - 1], s)
      invariant forall j | 0 <= j < pn.Length && i - k <= j :: pn[j] == 0
    {
      assert a[i] == a0[i];
      if i - k - 1 >= 0 {
        KeptMoved(a0[i - 1], a0[i], s);
        if s != 0 {
          OrDisjoint(pn[i - k - 1], Moved(a0[i], s), 32 - s);
          pn[i - k - 1] := BitOr(pn[i - k - 1], Moved(a[i], s));
        } else {
          MovedNone(a0[i]);
        }
      }
      if i - k >= 0 {
        OrZero(Kept(a[i], s));
        pn[i - k] := BitOr(pn[i - k], Kept(a[i], s));
      }
    }
    ShrValue(a0, pn[..], k, s);
    WeightIsPow2(k);
    Pow2Add(32 * k, s);
    DivDiv(Val(a0), Weight(k), Pow2(s));
  }

  lemma MovedNone(x: Limb)
    ensures Moved(x, 0) == 0
  {
  }

  /** The bits of limb `j` that the shift drops or moves down. */
  function Loose(a: seq<Limb>, s: nat, j: nat): nat {
    if j < |a| then a[j] % Pow2(s) else 0
  }

  lemma {:induction false} ShrPrefix(a: seq<Limb>, p: seq<Limb>, k: nat, s: nat, j: nat)
    requires |p| == |a| && s < 32 && k + j <= |a|
    requires forall i | 0 <= i < |p| :: p[i] == ShrLimb(a, k, s, i)
    ensures Val(p[..j]) * Pow2(s) + Loose(a[k..], s, 0) == Val(a[k..][..j]) + Loose(a[k..], s, j) * Weight(j)
    decreases j
  {
    hide Val, Weight, Pow2, Kept, Moved;
    var b := a[k..];
    if j == 0 {
      ValEmpty();
      assert p[..0] == [] && b[..0] == [];
    } else {
      var i := j - 1;
      ShrPrefix(a, p, k, s, i);
      ValTake(p, i);
      ValTake(b, i);
      WeightNext(i);
      KeptMoved(b[i], if j < |b| then b[j] else 0, s);
      MovedZero(s);
      var up := if j < |b| then Moved(b[j], s) else 0;
      ShrColumn(b[i], Kept(b[i], s), up, Loose(b, s, i), Loose(b, s, j), Pow2(s), Weight(i), Val(p[..i]));
    }
  }

  lemma MovedZero(s: nat)
    requires s < 32
    ensures Moved(0, s) == 0 && 0 % Pow2(s) == 0
  {
  }

  lemma ShrColumn(x: int, kept: int, up: int, loose: int, next: int, p: int, w: int, vp: int)
    requires x == kept * p + loose && up * p == BASE * next
    ensures (vp + (kept + up) * w) * p == vp * p + x * w - loose * w + next * (BASE * w)
  {
    Distrib(vp, (kept + up) * w, p);
    Exchange(kept + up, w, p);
    Distrib(kept, up, p);
    Distrib(kept * p, up * p, w);
    Distrib(x, -loose, w);
    assert (BASE * next) * w == next * (BASE * w);
    assert (kept + up) * w * p == ((kept + up) * p) * w;
  }

  lemma ShrValue(a: seq<Limb>, p: seq<Limb>, k: nat, s: nat)
    requires |p| == |a| && s < 32
    requires forall i | 0 <= i < |p| :: p[i] == ShrLimb(a, k, s, i)
    ensures Val(p) == Val(a) / Weight(k) / Pow2(s)
  {
    hide Val, Weight, Pow2, Kept, Moved;
    ValBound(a);
    if k >= |a| {
      ValZero(p);
      WeightAdd(|a|, k - |a|);
      MulMono(1, Weight(k - |a|), Weight(|a|));
      DivModUnique(Val(a), Weight(k), 0, Val(a));
      DivModUnique(0, Pow2(s), 0, 0);
    } else {
      var m := |a| - k;
      ShrPrefix(a, p, k, s, m);
      assert a[k..][..m] == a[k..];
      DivModUnique(Val(a[k..]), Pow2(s), Val(p[..m]), Loose(a[k..], s, 0));
      ValSplit(a, k);
      ValBound(a[..k]);
      DivModUnique(Val(a), Weight(k), Val(a[k..]), Val(a[..k]));
      ValSplit(p, m);
      ValZero(p[m..]);
    }
  }
}
