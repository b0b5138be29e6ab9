/** Numbers as little-endian sequences of 32-bit limbs. */
module ArithSpec {

  const BASE := 0x1_0000_0000

  type Limb = x: int | 0 <= x < BASE

  function Pow2(n: nat): (p: nat)
    ensures p >= 1
  {
    if n == 0 then 1 else 2 * Pow2(n - 1)
  }

  /** The weight of limb `i`. */
  function Weight(i: nat): (w: nat)
    ensures w >= 1
  {
    if i == 0 then 1 else BASE * Weight(i - 1)
  }

  /** The number that limbs denote. */
  function Val(s: seq<Limb>): nat {
    if s == [] then 0 else Val(s[..|s| - 1]) + s[|s| - 1] * Weight(|s| - 1)
  }

  // ----- powers of two

  lemma {:induction false} Pow2Add(a: nat, b: nat)
    ensures Pow2(a + b) == Pow2(a) * Pow2(b)
  {
    if b > 0 {
      Pow2Add(a, b - 1);
      assert Pow2(a) * (2 * Pow2(b - 1)) == 2 * (Pow2(a) * Pow2(b - 1));
    }
  }

  lemma {:induction false} Pow2Mono(a: nat, b: nat)
    requires a <= b
    ensures Pow2(a) <= Pow2(b)
    ensures a < b ==> 2 * Pow2(a) <= Pow2(b)
  {
    if a < b { Pow2Mono(a, b - 1); }
  }

  lemma Pow2Of32()
    ensures Pow2(32) == BASE
  {
    assert Pow2(8) == 256;
    Pow2Add(8, 8);
    Pow2Add(16, 16);
  }

  lemma {:induction false} WeightIsPow2(i: nat)
    ensures Weight(i) == Pow2(32 * i)
  {
    if i > 0 {
      WeightIsPow2(i - 1);
      Pow2Of32();
      Pow2Add(32, 32 * (i - 1));
    }
  }

  lemma WeightAdd(i: nat, j: nat)
    ensures Weight(i + j) == Weight(i) * Weight(j)
  {
    WeightIsPow2(i);
    WeightIsPow2(j);
    WeightIsPow2(i + j);
    Pow2Add(32 * i, 32 * j);
  }

  // ----- products and quotients

  lemma MulMono(a: nat, b: nat, c: nat)
    requires a <= b
    ensures a * c <= b * c && c * a <= c * b
  {
  }

  lemma MulStrict(a: nat, b: nat, c: nat)
    requires a < b && c > 0
    ensures a * c < b * c
    ensures (a + 1) * c <= b * c
  {
  }

  /** A number is its quotient and remainder, whichever way they were found. */
  lemma DivModUnique(n: nat, d: nat, q: nat, r: nat)
    requires d > 0 && r < d && n == q * d + r
    ensures n / d == q && n % d == r
  {
    var q', r' := n / d, n % d;
    assert n == q' * d + r';
    if q' < q { MulStrict(q', q, d); } else if q < q' { MulStrict(q, q', d); }
  }

  lemma DivLe(n: nat, d: nat)
    requires d > 0
    ensures 0 <= n / d <= n
  {
    var q := n / d;
    assert n == q * d + n % d;
    MulMono(1, d, q);
  }

  lemma Distrib(a: int, b: int, c: int)
    ensures (a + b) * c == a * c + b * c
  {
  }

  lemma Assoc(a: int, b: int, c: int)
    ensures a * b * c == a * (b * c)
  {
  }

  lemma NegMul(a: int, d: int)
    requires a < 0 <= d
    ensures a * d <= -d
  {
  }

  lemma ModDrop(n: nat, d: nat, q: int, r: nat)
    requires d > 0 && n == q * d + r
    ensures n % d == r % d
  {
    var q1, r1 := r / d, r % d;
    assert r == q1 * d + r1;
    Distrib(q, q1, d);
    var q2 := q + q1;
    assert n == q2 * d + r1;
    if q2 < 0 { NegMul(q2, d); }
    DivModUnique(n, d, q2, r1);
  }

  lemma TwoSteps(n: nat, a: nat, b: nat, q: nat, r: nat, q2: nat, r2: nat)
    requires n == q * a + r && q == q2 * b + r2 && r < a && r2 < b
    ensures n == q2 * (a * b) + (r2 * a + r) && r2 * a + r < a * b
  {
    Distrib(q2 * b, r2, a);
    Assoc(q2, b, a);
    MulStrict(r2, b, a);
    Distrib(r2, 1, a);
    assert b * a == a * b;
  }

  lemma MulPositive(a: nat, b: nat)
    requires a > 0 && b > 0
    ensures a * b > 0
  {
  }

  lemma DivDiv(n: nat, a: nat, b: nat)
    requires a > 0 && b > 0
    ensures a * b > 0 && n / a / b == n / (a * b)
  {
    MulPositive(a, b);
    var q, r := n / a, n % a;
    var q2, r2 := q / b, q % b;
    TwoSteps(n, a, b, q, r, q2, r2);
    DivModUnique(n, a * b, q2, r2 * a + r);
  }

  lemma Exchange(w: int, p: int, wk: int)
    ensures w * (p * wk) == p * (w * wk)
  {
  }

  // ----- powers

  function Pow(b: nat, n: nat): nat {
    if n == 0 then 1 else b * Pow(b, n - 1)
  }

  lemma {:induction false} PowMono(a: nat, b: nat, n: nat)
    requires a <= b
    ensures Pow(a, n) <= Pow(b, n)
  {
    if n > 0 {
      PowMono(a, b, n - 1);
      MulMono(a, b, Pow(a, n - 1));
      MulMono(Pow(a, n - 1), Pow(b, n - 1), b);
    }
  }

  lemma {:induction false} PowStrict(a: nat, b: nat, n: nat)
    requires a < b && n > 0
    ensures Pow(a, n) < Pow(b, n)
  {
    PowMono(a, b, n - 1);
    PowPositive(b, n - 1);
    MulMono(Pow(a, n - 1), Pow(b, n - 1), a);
    MulStrict(a, b, Pow(b, n - 1));
  }

  /** A power comparison decides the comparison of the bases. */
  lemma PowLess(a: nat, b: nat, n: nat)
    requires Pow(a, n) < Pow(b, n)
    ensures a < b
  {
    if b <= a { PowMono(b, a, n); }
  }

  lemma {:induction false} PowPositive(b: nat, n: nat)
    requires b > 0
    ensures Pow(b, n) > 0
  {
    if n > 0 {
      PowPositive(b, n - 1);
      MulPositive(b, Pow(b, n - 1));
    }
  }

  lemma {:induction false} PowProduct(a: nat, b: nat, n: nat)
    ensures Pow(a * b, n) == Pow(a, n) * Pow(b, n)
  {
    if n > 0 {
      PowProduct(a, b, n - 1);
      var x, y := Pow(a, n - 1), Pow(b, n - 1);
      assert a * b * (x * y) == (a * x) * (b * y) by {
        Assoc(a, b, x * y);
        Exchange(b, x, y);
        Assoc(a, x, b * y);
      }
    }
  }

  lemma {:induction false} PowOfPow2(k: nat, n: nat)
    ensures Pow(Pow2(k), n) == Pow2(k * n)
  {
    if n > 0 {
      PowOfPow2(k, n - 1);
      Pow2Add(k, k * (n - 1));
      assert k + k * (n - 1) == k * n;
    }
  }

  lemma PowOne(b: nat)
    ensures Pow(b, 0) == 1 && Pow(b, 1) == b
  {
    assert Pow(b, 0) == 1;
  }

  lemma PowStep(b: nat, j: nat)
    ensures Pow(b, j + 1) == Pow(b, j) * b
  {
  }

  lemma {:induction false} PowExpMono(b: nat, i: nat, j: nat)
    requires b > 0 && i <= j
    ensures Pow(b, i) <= Pow(b, j)
  {
    if i < j {
      PowExpMono(b, i, j - 1);
      MulMono(1, b, Pow(b, j - 1));
    }
  }

  // ----- limbs

  lemma ValEmpty()
    ensures Val([]) == 0 && Weight(0) == 1
  {
  }

  lemma WeightNext(i: nat)
    ensures Weight(i + 1) == BASE * Weight(i)
  {
  }

  lemma ValTake(s: seq<Limb>, i: nat)
    requires i < |s|
    ensures Val(s[..i + 1]) == Val(s[..i]) + s[i] * Weight(i)
  {
    assert s[..i + 1][..i] == s[..i];
  }

  lemma {:induction false} ValBound(s: seq<Limb>)
    ensures Val(s) < Weight(|s|)
  {
    if s != [] {
      ValBound(s[..|s| - 1]);
      MulMono(s[|s| - 1], BASE - 1, Weight(|s| - 1));
      assert (BASE - 1) * Weight(|s| - 1) + Weight(|s| - 1) == Weight(|s|);
    }
  }

  lemma {:induction false} ValSplit(s: seq<Limb>, i: nat)
    requires i <= |s|
    ensures Val(s) == Val(s[..i]) + Val(s[i..]) * Weight(i)
  {
    if i == |s| {
      assert s[..i] == s && s[i..] == [];
    } else {
      var n := |s| - 1;
      var t, u := s[..n], s[i..];
      ValSplit(t, i);
      assert t[..i] == s[..i] && t[i..] == u[..n - i];
      WeightAdd(n - i, i);
      var lo, x, w, wi := Val(t[i..]), s[n], Weight(n - i), Weight(i);
      assert Val(u) == lo + x * w;
      Distrib(lo, x * w, wi);
      Assoc(x, w, wi);
    }
  }

  lemma {:induction false} ValZero(s: seq<Limb>)
    requires forall i | 0 <= i < |s| :: s[i] == 0
    ensures Val(s) == 0
  {
    if s != [] { ValZero(s[..|s| - 1]); }
  }

  // ----- bitwise or

  function BitOr(x: nat, y: nat): nat
    decreases x + y
  {
    if x == 0 then y else if y == 0 then x
    else (if x % 2 == 1 || y % 2 == 1 then 1 else 0) + 2 * BitOr(x / 2, y / 2)
  }

  /** Or of numbers with no bit in common is their sum. */
  lemma {:induction false} OrDisjoint(x: nat, y: nat, s: nat)
    requires x < Pow2(s) && y % Pow2(s) == 0
    ensures BitOr(x, y) == x + y && BitOr(y, x) == x + y
    decreases s
  {
    if s > 0 && x > 0 && y > 0 {
      var p := Pow2(s - 1);
      var q := y / Pow2(s);
      assert y == q * (2 * p) == 2 * (q * p);
      assert (y / 2) == q * p;
      ModDrop(y / 2, p, q, 0);
      OrDisjoint(x / 2, y / 2, s - 1);
    }
  }
}
