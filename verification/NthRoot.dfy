/** The approximate n-th root: a binary search on the leading bits. */
module NthRoot {
  import opened ArithSpec
  import opened ArithUint
  import opened ArithUintOps

  lemma {:induction false} PowAtLeast(b: nat, n: nat)
    requires n > 0
    ensures b <= Pow(b, n)
  {
    if b > 0 {
      PowPositive(b, n - 1);
      MulMono(1, Pow(b, n - 1), b);
    }
  }

  /** The number of low bits of the root that are not computed. */
  function Shifts(bits: nat, n: nat): nat
    requires n > 0
  {
    var top := if bits == 0 then 0 else (bits - 1) / n;
    var s := top + 1 - 64 / n;
    if s < 0 then 0 else s
  }

  /** `s` is the least shift, in places of the root, that leaves few enough of `b` bits for a root of `64 / n` bits. */
  ghost predicate LeastShift(b: nat, n: nat, s: nat)
    requires n > 0
  {
    b <= n * s + n * (64 / n) && (s > 0 ==> n * (s - 1) + n * (64 / n) < b)
  }

  lemma LeastShiftUnique(b: nat, n: nat, s: nat, s': nat)
    requires n > 0 && LeastShift(b, n, s) && LeastShift(b, n, s')
    ensures s == s'
  {
    if s < s' { MulMono(s, s' - 1, n); } else if s' < s { MulMono(s', s - 1, n); }
  }

  /** The shift computed is the least that suffices. */
  lemma ShiftsLeast(b: nat, n: nat)
    requires 1 < n < 64
    ensures LeastShift(b, n, Shifts(b, n))
  {
    hide Shifts;
    ShiftsEnough(b, n);
    if Shifts(b, n) > 0 { ShiftsNeeded(b, n); }
  }

  lemma ShiftsNeeded(b: nat, n: nat)
    requires 1 < n < 64 && Shifts(b, n) > 0
    ensures n * (Shifts(b, n) - 1) + n * (64 / n) < b
  {
    PositiveHead(n);
    var t := (b - 1) / n;
    DivBounds(b - 1, n);
    Distrib(Shifts(b, n) - 1, 64 / n, n);
    assert t == Shifts(b, n) - 1 + 64 / n;
  }

  /** `r` is the largest multiple of 2^s whose n-th power does not exceed `x`. */
  ghost predicate IsRoot(r: nat, x: nat, n: nat, s: nat) {
    r % Pow2(s) == 0 && Pow(r, n) <= x < Pow(r + Pow2(s), n)
  }

  /** `r` is what the algorithm must return for `x`: the root with as many low bits left out as must be. */
  ghost predicate IsApproxRoot(r: nat, x: nat, n: nat)
    requires n > 0
  {
    exists bits: nat, s: nat :: HasBits(x, bits) && LeastShift(bits, n, s) && IsRoot(r, x, n, s)
  }

  lemma MultipleGap(a: nat, b: nat, p: nat)
    requires p > 0 && a % p == 0 && b % p == 0 && a < b
    ensures a + p <= b
  {
    var i, j := a / p, b / p;
    assert a == i * p && b == j * p;
    if j <= i { MulMono(j, i, p); }
    MulMono(i + 1, j, p);
    Distrib(i, 1, p);
  }

  lemma RootUnique(r: nat, r': nat, x: nat, n: nat)
    requires n > 0 && IsApproxRoot(r, x, n) && IsApproxRoot(r', x, n)
    ensures r == r'
  {
    hide HasBits, LeastShift;
    var b: nat, s: nat :| HasBits(x, b) && LeastShift(b, n, s) && IsRoot(r, x, n, s);
    var b': nat, s': nat :| HasBits(x, b') && LeastShift(b', n, s') && IsRoot(r', x, n, s');
    HasBitsUnique(x, b, b');
    LeastShiftUnique(b, n, s, s');
    var p := Pow2(s);
    PowLess(r, r' + p, n);
    PowLess(r', r + p, n);
    if r < r' { MultipleGap(r, r', p); } else if r' < r { MultipleGap(r', r, p); }
  }

  lemma RootMonoSame(r: nat, r': nat, x: nat, x': nat, n: nat, s: nat)
    requires n > 0 && x <= x' && IsRoot(r, x, n, s) && IsRoot(r', x', n, s)
    ensures r <= r'
  {
    PowLess(r, r' + Pow2(s), n);
    if r' < r { MultipleGap(r', r, Pow2(s)); }
  }

  /** 2^q is a multiple of the unit and its power fits, so the root is at least 2^q. */
  lemma RootAtLeast(r: nat, x: nat, n: nat, s: nat, q: nat)
    requires n > 0 && IsRoot(r, x, n, s) && s <= q && Pow2(q * n) <= x
    ensures Pow2(q) <= r
  {
    PowOfPow2(q, n);
    PowLess(Pow2(q), r + Pow2(s), n);
    Pow2Add(q - s, s);
    ModDrop(Pow2(q), Pow2(s), Pow2(q - s), 0);
    if r < Pow2(q) { MultipleGap(r, Pow2(q), Pow2(s)); }
  }

  lemma RootBelow(r: nat, x: nat, n: nat, s: nat, q: nat)
    requires n > 0 && IsRoot(r, x, n, s) && x < Pow2(q * n)
    ensures r < Pow2(q)
  {
    PowOfPow2(q, n);
    PowLess(r, Pow2(q), n);
  }

  lemma DivBounds(a: nat, n: nat)
    requires n > 0
    ensures a / n * n <= a < (a / n + 1) * n
  {
    Distrib(a / n, 1, n);
  }

  lemma DivMono(a: nat, b: nat, n: nat)
    requires n > 0 && a <= b
    ensures a / n <= b / n
  {
    DivBounds(a, n);
    DivBounds(b, n);
    if b / n < a / n { MulMono(b / n + 1, a / n, n); }
  }

  lemma PositiveHead(n: nat)
    requires 1 < n < 64
    ensures 64 / n >= 1 && n * (64 / n) <= 64
  {
    DivBounds(64, n);
    var h := 64 / n;
    assert h == 0 ==> (h + 1) * n == n;
    assert n * h == h * n;
  }

  lemma BitsMono(x: nat, x': nat, b: nat, b': nat)
    requires x <= x' && HasBits(x, b) && HasBits(x', b')
    ensures b <= b'
  {
    if b' < b { Pow2Mono(b', b - 1); }
  }

  lemma ShiftsGrow(b: nat, b': nat, n: nat)
    requires 1 < n < 64 && b <= b' && Shifts(b, n) != Shifts(b', n)
    ensures b' > 0 && b <= (b' - 1) / n * n
  {
    PositiveHead(n);
    if b > 0 {
      DivMono(b - 1, b' - 1, n);
      DivBounds(b - 1, n);
      var t, t' := (b - 1) / n, (b' - 1) / n;
      assert t < t';
      MulMono(t + 1, t', n);
    }
  }

  /** The power of 2^q, for the top place `q` of the root, fits below the number. */
  lemma TopPlace(x: nat, b: nat, n: nat)
    requires 1 < n < 64 && x > 0 && HasBits(x, b)
    ensures Pow2((b - 1) / n * n) <= x && Shifts(b, n) <= (b - 1) / n
  {
    PositiveHead(n);
    DivBounds(b - 1, n);
    Pow2Mono((b - 1) / n * n, b - 1);
  }

  lemma BelowPlace(x: nat, b: nat, m: nat)
    requires HasBits(x, b) && b <= m
    ensures x < Pow2(m)
  {
    Pow2Mono(b, m);
  }

  lemma RootAtShift(r: nat, x: nat, n: nat) returns (b: nat)
    requires 1 < n < 64 && IsApproxRoot(r, x, n)
    ensures HasBits(x, b) && IsRoot(r, x, n, Shifts(b, n))
  {
    hide Pow2, Pow, IsRoot, Shifts, LeastShift, HasBits;
    var bits: nat, s: nat :| HasBits(x, bits) && LeastShift(bits, n, s) && IsRoot(r, x, n, s);
    b := bits;
    ShiftsLeast(b, n);
    LeastShiftUnique(b, n, s, Shifts(b, n));
  }

  /** More bits never make the root smaller, although fewer of its bits are computed. */
  lemma RootMono(r: nat, r': nat, x: nat, x': nat, n: nat)
    requires 1 < n < 64 && x <= x' && IsApproxRoot(r, x, n) && IsApproxRoot(r', x', n)
    ensures r <= r'
  {
    hide Pow2, Pow, IsRoot, Shifts, IsApproxRoot;
    var b := RootAtShift(r, x, n);
    var b' := RootAtShift(r', x', n);
    BitsMono(x, x', b, b');
    if Shifts(b, n) == Shifts(b', n) {
      RootMonoSame(r, r', x, x', n, Shifts(b, n));
    } else {
      ShiftsGrow(b, b', n);
      var q := (b' - 1) / n;
      TopPlace(x', b', n);
      RootAtLeast(r', x', n, Shifts(b', n), q);
      BelowPlace(x, b, q * n);
      RootBelow(r, x, n, Shifts(b, n), q);
    }
  }

  /** A nonzero number has a nonzero root. */
  lemma RootPositive(r: nat, x: nat, n: nat)
    requires 1 < n < 64 && x > 0 && IsApproxRoot(r, x, n)
    ensures r > 0
  {
    hide Pow2, Pow, IsRoot, Shifts, IsApproxRoot;
    var b := RootAtShift(r, x, n);
    TopPlace(x, b, n);
    RootAtLeast(r, x, n, Shifts(b, n), (b - 1) / n);
  }

  // ----- the algorithm

  const UINT64 := 0x1_0000_0000_0000_0000

  lemma Uint64Is()
    ensures Pow2(64) == UINT64 == Weight(2)
  {
    Pow2Of32();
    Pow2Add(32, 32);
  }

  /** The shift leaves few enough bits for a root of `64 / n` bits. */
  lemma HeadFits(x: nat, b: nat, n: nat)
    requires 1 < n < 64 && HasBits(x, b)
    ensures x / Pow2(n * Shifts(b, n)) < Pow2(n * (64 / n)) <= UINT64
  {
    hide Pow2;
    PositiveHead(n);
    Uint64Is();
    Pow2Mono(n * (64 / n), 64);
    ShiftsEnough(b, n);
    var k, m := n * Shifts(b, n), n * (64 / n);
    BelowPlace(x, b, k + m);
    Pow2Add(m, k);
    QuotientBelow(x, Pow2(k), Pow2(m));
  }

  lemma QuotientBelow(x: nat, d: nat, m: nat)
    requires d > 0 && x < m * d
    ensures x / d < m
  {
    DivBounds(x, d);
    if m <= x / d { MulMono(m, x / d, d); }
  }

  lemma ShiftsEnough(b: nat, n: nat)
    requires 1 < n < 64
    ensures b <= n * Shifts(b, n) + n * (64 / n)
  {
    PositiveHead(n);
    if b > 0 {
      DivBounds(b - 1, n);
      PlacesCover(b, n, (b - 1) / n, Shifts(b, n), 64 / n);
    }
  }

  lemma PlacesCover(b: nat, n: nat, t: nat, s: nat, h: nat)
    requires b - 1 < (t + 1) * n && t + 1 <= s + h
    ensures b <= n * s + n * h
  {
    MulMono(t + 1, s + h, n);
    Distrib(s, h, n);
  }

  /** The low two limbs. */
  method GetLow64(pn: array<Limb>) returns (r: nat)
    requires pn.Length >= 2
    ensures r == Val(pn[..]) % UINT64 < UINT64
    ensures Val(pn[..]) < UINT64 ==> r == Val(pn[..])
  {
    hide Val, Weight;
    r := pn[0] + BASE * pn[1];
    LowTwo(pn[..]);
  }

  lemma LowTwo(a: seq<Limb>)
    requires |a| >= 2
    ensures Val(a) % UINT64 == a[0] + BASE * a[1] < UINT64
  {
    hide Val, Weight;
    Uint64Is();
    ValSplit(a, 2);
    TwoLimbs(a[..2]);
    ValBound(a[..2]);
    Reduce(Val(a), UINT64, Val(a[2..]), Val(a[..2]));
  }

  lemma TwoLimbs(a: seq<Limb>)
    requires |a| == 2
    ensures Val(a) == a[0] + BASE * a[1]
  {
    ValTake(a, 1);
    ValTake(a, 0);
    ValEmpty();
    assert a[..2] == a && a[..0] == [] && Weight(1) == BASE;
  }

  /** `nNext` to the n-th power in 64-bit arithmetic, which never wraps. */
  method Power64(nNext: nat, n: nat) returns (nPower: nat)
    requires 1 < n < 64 && nNext < Pow2(64 / n)
    ensures nPower == Pow(nNext, n) < UINT64
  {
    hide Pow2, Pow;
    PowOne(nNext);
    nPower := nNext;
    for j := 1 to n
      invariant nPower == Pow(nNext, j)
    {
      PowStep(nNext, j);
      PowFits(nNext, j + 1, n);
      nPower := (nPower * nNext) % UINT64;
    }
    PowFits(nNext, n, n);
  }

  lemma PowFits(b: nat, j: nat, n: nat)
    requires 1 < n < 64 && b < Pow2(64 / n) && 1 <= j <= n
    ensures Pow(b, j) < UINT64
  {
    hide Pow2, Pow;
    PositiveHead(n);
    Uint64Is();
    PowOfPow2(64 / n, n);
    Pow2Mono(64 / n * n, 64);
    assert 64 / n * n == n * (64 / n);
    PowStrict(b, Pow2(64 / n), n);
    if b > 0 { PowExpMono(b, j, n); } else { PowZero(j); }
  }

  lemma PowZero(j: nat)
    requires j > 0
    ensures Pow(0, j) == 0
  {
  }

  /** The root bits from place `t` up are decided. */
  ghost predicate Searching(nRoot: nat, nHead: nat, n: nat, t: nat, top: nat) {
    nRoot % Pow2(t) == 0 && Pow(nRoot, n) <= nHead < Pow(nRoot + Pow2(t), n) && nRoot + Pow2(t) <= Pow2(top)
  }

  /** The integer n-th root of a 64-bit number below 2^(n * (64 / n)), bit by bit. */
  method SearchRoot(nHead: nat, n: nat) returns (nRoot: nat)
    requires 1 < n < 64 && nHead < Pow2(n * (64 / n))
    ensures Pow(nRoot, n) <= nHead < Pow(nRoot + 1, n) && nRoot < Pow2(64 / n)
  {
    hide Pow2, Pow, BitOr, Searching;
    nRoot := 0;
    PositiveHead(n);
    var i := 64 / n - 1;
    StartSearch(nHead, n);
    while i >= 0
      invariant -1 <= i < 64 / n
      invariant Searching(nRoot, nHead, n, i + 1, 64 / n)
    {
      NextPlace(nRoot, nHead, n, i, 64 / n);
      var nNext := BitOr(nRoot, Pow2(i));
      var nPower := Power64(nNext, n);
      if nPower <= nHead {
        nRoot := nNext;
      }
      i := i - 1;
    }
    FoundRoot(nRoot, nHead, n, 64 / n);
  }

  lemma StartSearch(nHead: nat, n: nat)
    requires 1 < n < 64 && nHead < Pow2(n * (64 / n))
    ensures Searching(0, nHead, n, 64 / n, 64 / n)
  {
    hide Pow2, Pow;
    PowOfPow2(64 / n, n);
    assert 64 / n * n == n * (64 / n);
    PowZero(n);
  }

  lemma NextPlace(nRoot: nat, nHead: nat, n: nat, i: nat, top: nat)
    requires Searching(nRoot, nHead, n, i + 1, top)
    ensures BitOr(nRoot, Pow2(i)) == nRoot + Pow2(i) < Pow2(top)
    ensures Searching(if Pow(nRoot + Pow2(i), n) <= nHead then nRoot + Pow2(i) else nRoot, nHead, n, i, top)
  {
    hide Pow, BitOr;
    OrDisjoint(Pow2(i), nRoot, i + 1);
    NextBit(nRoot, i);
  }

  lemma FoundRoot(nRoot: nat, nHead: nat, n: nat, top: nat)
    requires Searching(nRoot, nHead, n, 0, top)
    ensures Pow(nRoot, n) <= nHead < Pow(nRoot + 1, n) && nRoot < Pow2(top)
  {
    OneBit();
  }

  /** Undoing the shift turns the root of the head into the approximate root of the whole. */
  lemma RootOfWhole(x: nat, k: nat, s: nat, n: nat)
    requires n > 0 && Pow(k, n) <= x / Pow2(n * s) < Pow(k + 1, n)
    ensures IsRoot(k * Pow2(s), x, n, s) && k * Pow2(s) <= x
  {
    hide Pow2, Pow;
    var d, p := Pow2(n * s), Pow2(s);
    PowOfPow2(s, n);
    assert s * n == n * s;
    PowProduct(k, p, n);
    PowProduct(k + 1, p, n);
    Distrib(k, 1, p);
    DivBounds(x, d);
    MulMono(Pow(k, n), x / d, d);
    MulMono(x / d + 1, Pow(k + 1, n), d);
    ModDrop(k * p, p, k, 0);
    PowAtLeast(k * p, n);
  }

  /** `ApproxNthRoot`, for numbers of at least two limbs. */
  method ApproxNthRoot(pn: array<Limb>, n: nat) returns (res: array<Limb>)
    requires 1 < n < 64 && pn.Length >= 2
    ensures fresh(res) && res.Length == pn.Length
    ensures IsApproxRoot(Val(res[..]), Val(pn[..]), n)
  {
    hide Val, Weight, Pow2, Pow, IsRoot, Shifts, LeastShift;
    ghost var x := Val(pn[..]);
    var nLength := Bits(pn);
    var nShifts := Shifts(nLength, n);
    ShiftsLeast(nLength, n);
    HeadFits(x, nLength, n);
    var shifted := Copy(pn);
    ShrAssign(shifted, n * nShifts);
    var nHead := GetLow64(shifted);
    assert nHead == x / Pow2(n * nShifts);
    var nRoot := SearchRoot(nHead, n);
    RootOfWhole(x, nRoot, nShifts, n);
    RootIs64(nRoot, n);
    res := FromUint64(nRoot, pn.Length);
    ShlAssign(res, nShifts);
    ValBound(pn[..]);
    Reduce(nRoot * Pow2(nShifts), Weight(pn.Length), 0, nRoot * Pow2(nShifts));
  }

  lemma RootIs64(nRoot: nat, n: nat)
    requires 1 < n < 64 && nRoot < Pow2(64 / n)
    ensures nRoot < UINT64
  {
    PowFits(nRoot, 1, n);
    PowOne(nRoot);
  }

  /** The constructor from a 64-bit number. */
  method FromUint64(b: nat, width: nat) returns (pn: array<Limb>)
    requires b < UINT64 && width >= 2
    ensures fresh(pn) && pn.Length == width && Val(pn[..]) == b
  {
    hide Val, Weight;
    pn := new Limb[width](_ => 0);
    QuotientBound(b);
    pn[0] := b % BASE;
    pn[1] := b / BASE;
    FromTwo(pn[..], b);
  }

  lemma FromTwo(a: seq<Limb>, b: nat)
    requires |a| >= 2 && b == a[0] + BASE * a[1] && forall i | 2 <= i < |a| :: a[i] == 0
    ensures Val(a) == b
  {
    hide Val, Weight;
    ValSplit(a, 2);
    ValZero(a[2..]);
    TwoLimbs(a[..2]);
  }
}
