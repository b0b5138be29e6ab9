/**
 * The heights that skip pointers lead to, and how many steps they need (src/chain.cpp).
 *
 * A walk back over 2^b blocks takes at most about b^2 / 4 + 5 b / 2 steps, and some walks take as many:
 * the search is not logarithmic. For the heights up to 2^18 the bound is 110.
 */
module SkipList {
  import opened Wrappers
  import opened ArithSpec

  // ----- heights to skip to

  function BitAnd(x: nat, y: nat): nat {
    if x == 0 || y == 0 then 0
    else (if x % 2 == 1 && y % 2 == 1 then 1 else 0) + 2 * BitAnd(x / 2, y / 2)
  }

  /** `n & (n - 1)`. */
  function InvertLowestOne(n: nat): nat { if n == 0 then 0 else BitAnd(n, n - 1) }

  /** Clearing the lowest one bit subtracts that bit. */
  lemma {:induction false} LowestOne(n: nat)
    requires n > 0
    ensures InvertLowestOne(n) < n && (n % 2 == 0 ==> InvertLowestOne(n) <= n - 2)
    ensures exists k: nat :: n == InvertLowestOne(n) + Pow2(k) && InvertLowestOne(n) % Pow2(k + 1) == 0
  {
    if n % 2 == 1 {
      AndSelf(n / 2);
      assert n == InvertLowestOne(n) + Pow2(0) && InvertLowestOne(n) % Pow2(1) == 0;
    } else {
      var m := n / 2;
      LowestOne(m);
      var k: nat :| m == InvertLowestOne(m) + Pow2(k) && InvertLowestOne(m) % Pow2(k + 1) == 0;
      assert (n - 1) / 2 == m - 1 && InvertLowestOne(n) == 2 * InvertLowestOne(m);
      Doubled(InvertLowestOne(m), Pow2(k + 1));
      assert n == InvertLowestOne(n) + Pow2(k + 1) && InvertLowestOne(n) % Pow2(k + 2) == 0;
    }
  }

  lemma Doubled(x: nat, p: nat)
    requires p > 0 && x % p == 0
    ensures (2 * x) % (2 * p) == 0
  {
    var k := x / p;
    assert x == k * p;
    Assoc(2, k, p);
    ModDrop(2 * x, 2 * p, k, 0);
  }

  lemma {:induction false} AndSelf(n: nat)
    ensures BitAnd(n, n) == n
  {
    if n > 0 { AndSelf(n / 2); }
  }

  function GetSkipHeight(height: int): int {
    if height < 2 then 0
    else if height % 2 == 1 then InvertLowestOne(InvertLowestOne(height - 1)) + 1
    else InvertLowestOne(height)
  }

  lemma SkipHeightBelow(height: int)
    requires height > 0
    ensures 0 <= GetSkipHeight(height) < height
  {
    if height >= 2 {
      LowestOne(if height % 2 == 1 then height - 1 else height);
      if height % 2 == 1 && InvertLowestOne(height - 1) > 0 { LowestOne(InvertLowestOne(height - 1)); }
    }
  }

  // ----- the walk

  /** The height after one step of the search for height `t`. */
  function NextHeight(h: int, t: int): (n: int)
    requires 0 <= t < h
    ensures t <= n < h
  {
    SkipHeightBelow(h);
    var skip, skipPrev := GetSkipHeight(h), GetSkipHeight(h - 1);
    if skip == t || (skip > t && !(skipPrev < skip - 2 && skipPrev >= t)) then skip else h - 1
  }

  lemma NextIs(h: int, t: int)
    requires 0 <= t < h
    ensures var skip, skipPrev := GetSkipHeight(h), GetSkipHeight(h - 1);
            NextHeight(h, t) == if skip == t || (skip > t && !(skipPrev < skip - 2 && skipPrev >= t)) then skip else h - 1
  {
  }

  /** The number of steps from height `h` to height `t`. */
  function Steps(h: int, t: int): nat
    requires 0 <= t <= h
    decreases h
  {
    if h == t then 0 else 1 + Steps(NextHeight(h, t), t)
  }

  lemma StepTo(h: int, t: int, n: int)
    requires 0 <= t < h && n == NextHeight(h, t)
    ensures Steps(h, t) == 1 + Steps(n, t)
  {
  }

  /** The skip is taken, as the predecessor's does not get much further. */
  lemma NextSkips(h: int, g: int, t: int)
    requires 0 <= t < h && g == h - 1 && GetSkipHeight(h) > t && GetSkipHeight(g) >= GetSkipHeight(h) - 2
    ensures NextHeight(h, t) == GetSkipHeight(h)
  {
    hide GetSkipHeight;
  }

  /** The skip is taken, as the predecessor's goes too far. */
  lemma NextSkipsFar(h: int, g: int, t: int)
    requires 0 <= t < h && g == h - 1 && GetSkipHeight(h) > t && GetSkipHeight(g) < t
    ensures NextHeight(h, t) == GetSkipHeight(h)
  {
    hide GetSkipHeight;
  }

  /** The predecessor's skip is better. */
  lemma NextWaits(h: int, g: int, t: int)
    requires 0 <= t < h && g == h - 1 && GetSkipHeight(h) > t && t <= GetSkipHeight(g) < GetSkipHeight(h) - 2
    ensures NextHeight(h, t) == g
  {
    hide GetSkipHeight;
  }

  /** The skip goes too far. */
  lemma NextSteps(h: int, g: int, t: int)
    requires 0 <= t < h && g == h - 1 && GetSkipHeight(h) < t
    ensures NextHeight(h, t) == g
  {
    hide GetSkipHeight;
  }

  lemma StepsSame(t: int)
    requires 0 <= t
    ensures Steps(t, t) == 0
  {
  }

  lemma StepsOne(t: int)
    requires 0 <= t
    ensures Steps(t + 1, t) == 1
  {
    StepsSame(t);
  }

  // ----- clearing the lowest one

  lemma InvertOdd(n: nat)
    ensures InvertLowestOne(2 * n + 1) == 2 * n
  {
    AndSelf(n);
  }

  lemma InvertEven(n: nat)
    ensures InvertLowestOne(2 * n) == 2 * InvertLowestOne(n)
  {
    if n > 0 { assert (2 * n - 1) / 2 == n - 1 && (2 * n) / 2 == n; }
  }

  lemma InvertLess(n: nat)
    requires n > 0
    ensures InvertLowestOne(n) < n
  {
    LowestOne(n);
  }

  /** The number of one bits. */
  function Ones(n: nat): nat { if n == 0 then 0 else n % 2 + Ones(n / 2) }

  lemma NoOnes()
    ensures Ones(0) == 0
  {
  }

  lemma OnesOdd(n: nat)
    ensures Ones(2 * n + 1) == Ones(n) + 1
  {
    assert (2 * n + 1) / 2 == n;
  }

  lemma OnesEven(n: nat)
    ensures Ones(2 * n) == Ones(n)
  {
    assert (2 * n) / 2 == n;
  }

  lemma {:induction false} InvertOnes(n: nat)
    requires n > 0
    ensures Ones(InvertLowestOne(n)) == Ones(n) - 1
  {
    hide Ones, InvertLowestOne;
    var m := n / 2;
    if n % 2 == 1 {
      InvertOdd(m);
      OnesOdd(m);
      OnesEven(m);
    } else {
      InvertEven(m);
      InvertOnes(m);
      OnesEven(m);
      OnesEven(InvertLowestOne(m));
    }
  }

  lemma {:induction false} OnesZero(n: nat)
    requires Ones(n) == 0
    ensures n == 0
  {
    if n > 0 { OnesZero(n / 2); }
  }

  lemma {:induction false} OnesBound(n: nat, b: nat)
    requires n < Pow2(b)
    ensures Ones(n) <= b
  {
    if n > 0 { OnesBound(n / 2, b - 1); }
  }

  lemma {:induction false} OnesFull(b: nat)
    ensures Ones(Pow2(b) - 1) == b
  {
    if b > 0 {
      OnesFull(b - 1);
      OnesOdd(Pow2(b - 1) - 1);
    }
  }

  /** A multiple of 2^b. */
  predicate Multiple(b: nat, n: nat) { b == 0 || (n % 2 == 0 && Multiple(b - 1, n / 2)) }

  /** An odd multiple of 2^b. */
  predicate Peak(b: nat, n: nat) { if b == 0 then n % 2 == 1 else n % 2 == 0 && Peak(b - 1, n / 2) }

  lemma {:induction false} PeakMultiple(b: nat, n: nat)
    requires Peak(b, n)
    ensures Multiple(b, n) && n >= Pow2(b)
  {
    if b > 0 { PeakMultiple(b - 1, n / 2); }
  }

  lemma {:induction false} MultipleLess(b: nat, n: nat)
    requires Multiple(b + 1, n)
    ensures Multiple(b, n)
  {
    if b > 0 { MultipleLess(b - 1, n / 2); }
  }

  lemma {:induction false} PeakAbove(b: nat, n: nat)
    requires Multiple(b + 1, n)
    ensures Peak(b, n + Pow2(b))
  {
    if b > 0 {
      PeakAbove(b - 1, n / 2);
      assert (n + Pow2(b)) / 2 == n / 2 + Pow2(b - 1);
    }
  }

  lemma {:induction false} PeakBelow(b: nat, n: nat)
    requires Multiple(b + 1, n) && n >= Pow2(b)
    ensures Peak(b, n - Pow2(b))
  {
    if b > 0 {
      PeakBelow(b - 1, n / 2);
      assert (n - Pow2(b)) / 2 == n / 2 - Pow2(b - 1);
    } else {
      assert Pow2(0) == 1;
    }
  }

  lemma {:induction false} MultipleAbove(b: nat, n: nat)
    requires Multiple(b, n)
    ensures Multiple(b, n + Pow2(b))
  {
    if b > 0 {
      MultipleAbove(b - 1, n / 2);
      assert (n + Pow2(b)) / 2 == n / 2 + Pow2(b - 1);
    }
  }

  lemma {:induction false} MultipleZero(b: nat)
    ensures Multiple(b, 0)
  {
    if b > 0 { MultipleZero(b - 1); }
  }

  /** Below a multiple of 2^b the low bits are cleared first. */
  lemma {:induction false} InvertBlock(b: nat, n: nat, r: nat)
    requires Multiple(b, n) && 0 < r < Pow2(b)
    ensures InvertLowestOne(n + r) == n + InvertLowestOne(r)
  {
    hide InvertLowestOne;
    var n', r' := n / 2, r / 2;
    if r % 2 == 1 {
      InvertOdd(n' + r');
      InvertOdd(r');
      assert n + r == 2 * (n' + r') + 1;
    } else {
      InvertBlock(b - 1, n', r');
      InvertEven(n' + r');
      InvertEven(r');
      assert n + r == 2 * (n' + r');
    }
  }

  lemma {:induction false} InvertPeak(b: nat, n: nat)
    requires Peak(b, n)
    ensures n >= Pow2(b) && InvertLowestOne(n) == n - Pow2(b)
  {
    hide InvertLowestOne;
    var m := n / 2;
    if b == 0 {
      InvertOdd(m);
    } else {
      InvertPeak(b - 1, m);
      InvertEven(m);
    }
  }

  // ----- skips from odd and even heights

  lemma SkipOfEven(n: nat, h: nat)
    requires n > 0 && h == 2 * n
    ensures GetSkipHeight(h) == 2 * InvertLowestOne(n)
  {
    hide InvertLowestOne;
    InvertEven(n);
  }

  lemma SkipOfOdd(n: nat, h: nat)
    requires n > 0 && h == 2 * n + 1
    ensures GetSkipHeight(h) == 2 * InvertLowestOne(InvertLowestOne(n)) + 1
  {
    hide InvertLowestOne;
    InvertEven(n);
    InvertEven(InvertLowestOne(n));
  }

  // ----- within eight heights

  lemma OctetInverts(y: nat)
    ensures InvertLowestOne(4 * y + 1) == 4 * y && InvertLowestOne(4 * y + 2) == 4 * y && InvertLowestOne(4 * y + 3) == 4 * y + 2
    ensures InvertLowestOne(4 * y) == 4 * InvertLowestOne(y)
  {
    hide InvertLowestOne;
    InvertOdd(2 * y);
    InvertEven(2 * y + 1);
    InvertOdd(y);
    InvertOdd(2 * y + 1);
    InvertEven(2 * y);
    InvertEven(y);
  }

  /** Where the skips from the heights just above a multiple of eight lead. */
  lemma OctetSkips(y: nat)
    ensures GetSkipHeight(8 * y + 2) == 8 * y && GetSkipHeight(8 * y + 4) == 8 * y
    ensures GetSkipHeight(8 * y + 6) == 8 * y + 4 && GetSkipHeight(8 * y + 7) == 8 * y + 1
    ensures if y == 0 then GetSkipHeight(8 * y + 3) == 1 else GetSkipHeight(8 * y + 3) < 8 * y
    ensures if y == 0 then GetSkipHeight(8 * y + 5) == 1 else GetSkipHeight(8 * y + 5) < 8 * y
  {
    hide InvertLowestOne, GetSkipHeight;
    OctetInverts(y);
    SkipOfEven(4 * y + 1, 8 * y + 2);
    SkipOfOdd(4 * y + 1, 8 * y + 3);
    SkipOfEven(4 * y + 2, 8 * y + 4);
    SkipOfOdd(4 * y + 2, 8 * y + 5);
    SkipOfEven(4 * y + 3, 8 * y + 6);
    SkipOfOdd(4 * y + 3, 8 * y + 7);
    InvertNone();
    if y > 0 { InvertLess(y); }
  }

  lemma InvertNone()
    ensures InvertLowestOne(0) == 0
  {
  }

  lemma LowOctet(y: nat, t: nat)
    requires 8 * y <= t <= 8 * y + 4
    ensures t <= 8 * y + 2 ==> Steps(8 * y + 2, t) <= 1
    ensures t <= 8 * y + 3 ==> Steps(8 * y + 3, t) <= if t >= 8 * y + 2 then 1 else 2
    ensures Steps(8 * y + 4, t) <= if t == 8 * y || t == 8 * y + 3 then 1 else if t == 8 * y + 1 then 3 else 2
  {
    hide GetSkipHeight, Steps;
    var z := 8 * y;
    OctetSkips(y);
    StepsOne(z);
    StepsOne(z + 1);
    StepsOne(z + 2);
    StepsOne(z + 3);
    StepsSame(t);
    if t < z + 2 { StepTo(z + 2, t, NextHeight(z + 2, t)); }
    if t < z + 3 { StepTo(z + 3, t, NextHeight(z + 3, t)); }
    if t < z + 4 { StepTo(z + 4, t, NextHeight(z + 4, t)); }
  }

  lemma MidOctet(y: nat, t: nat)
    requires 8 * y <= t <= 8 * y + 6
    ensures t <= 8 * y + 5 ==> Steps(8 * y + 5, t) <= 4
    ensures Steps(8 * y + 6, t) <= if t >= 8 * y + 4 then 1 else if t == 8 * y + 3 then 2 else if t == 8 * y + 2 then 3 else 4
  {
    hide GetSkipHeight, Steps;
    var z := 8 * y;
    OctetSkips(y);
    StepsOne(z + 4);
    StepsOne(z + 5);
    StepsOne(z);
    StepsSame(t);
    if t <= z + 4 { LowOctet(y, t); }
    if t < z + 5 { StepTo(z + 5, t, NextHeight(z + 5, t)); }
    if t < z + 6 { StepTo(z + 6, t, NextHeight(z + 6, t)); }
  }

  /** Between heights that differ in the last three bits only there are at most four steps. */
  lemma OctetBound(y: nat, h: nat, t: nat)
    requires 8 * y <= t <= h < 8 * y + 8
    ensures Steps(h, t) <= 4
  {
    hide GetSkipHeight, Steps;
    var z := 8 * y;
    StepsSame(t);
    if h == z + 7 && t < h {
      OctetSkips(y);
      StepTo(h, t, NextHeight(h, t));
      StepsOne(z);
      MidOctet(y, t);
    } else if h >= z + 5 {
      MidOctet(y, if t <= z + 6 then t else z);
    } else if h >= z + 2 {
      LowOctet(y, t);
    } else {
      StepsOne(z);
    }
  }

  // ----- above an odd multiple of 2^b

  /** `t` is one of the 2^b heights below the odd multiple `p` of 2^b. */
  ghost predicate Below(b: nat, p: nat, t: nat) { b >= 3 && Peak(b, p) && p - Pow2(b) <= t < p }

  lemma Pow2Half(b: nat)
    requires b > 0
    ensures Pow2(b) == 2 * Pow2(b - 1)
  {
  }

  lemma PeakHalf(b: nat, p: nat) returns (q: nat)
    requires Peak(b, p) && b > 0
    ensures p == 2 * q && Peak(b - 1, q) && Multiple(b - 1, q)
  {
    q := p / 2;
    PeakMultiple(b - 1, q);
  }

  lemma BelowFacts(b: nat, p: nat, t: nat)
    requires Below(b, p, t)
    ensures b >= 3 && Peak(b, p) && 8 <= Pow2(b) <= p && p - Pow2(b) <= t < p
  {
    Pow2Mono(3, b);
    assert Pow2(3) == 8;
    PeakMultiple(b, p);
  }

  /** Skips from even heights clear the lowest bit. */
  lemma SkipEven(b: nat, p: nat, n: nat, h: nat)
    requires b >= 3 && Peak(b, p) && 2 * n < Pow2(b) && h == p + 2 * n
    ensures p >= Pow2(b) && GetSkipHeight(h) == if n == 0 then p - Pow2(b) else p + 2 * InvertLowestOne(n)
  {
    hide InvertLowestOne, GetSkipHeight, Pow2, Peak, Multiple;
    Pow2Half(b);
    var q := PeakHalf(b, p);
    InvertPeak(b - 1, q);
    SkipOfEven(q + n, h);
    if n > 0 { InvertBlock(b - 1, q, n); }
  }

  /** Skips from odd heights clear two, and end one above. */
  lemma SkipOddFar(b: nat, p: nat, n: nat, h: nat)
    requires b >= 3 && Peak(b, p) && 2 * n < Pow2(b) && Ones(n) >= 2 && h == p + 2 * n + 1
    ensures 0 < InvertLowestOne(n) < n
    ensures var c := InvertLowestOne(InvertLowestOne(n));
            c < InvertLowestOne(n) && Ones(c) == Ones(n) - 2 && GetSkipHeight(h) == p + 2 * c + 1
  {
    hide InvertLowestOne, GetSkipHeight, Pow2, Peak, Multiple, Ones;
    Pow2Half(b);
    NoOnes();
    var q := PeakHalf(b, p);
    InvertPeak(b - 1, q);
    SkipOfOdd(q + n, h);
    InvertLess(n);
    InvertOnes(n);
    InvertBlock(b - 1, q, n);
    var c := InvertLowestOne(n);
    InvertLess(c);
    InvertOnes(c);
    InvertBlock(b - 1, q, c);
  }

  lemma SingleCleared(n: nat)
    requires Ones(n) == 1
    ensures n > 0 && InvertLowestOne(n) == 0
  {
    InvertOnes(n);
    OnesZero(InvertLowestOne(n));
  }

  lemma SkipOddNear(b: nat, p: nat, n: nat, h: nat)
    requires b >= 3 && Peak(b, p) && 2 * n < Pow2(b) && Ones(n) == 1 && h == p + 2 * n + 1
    ensures p >= Pow2(b) && GetSkipHeight(h) == p - Pow2(b) + 1
  {
    hide InvertLowestOne, GetSkipHeight, Pow2, Peak, Multiple, Ones;
    Pow2Half(b);
    var q := PeakHalf(b, p);
    InvertPeak(b - 1, q);
    SkipOfOdd(q + n, h);
    SingleCleared(n);
    InvertBlock(b - 1, q, n);
  }

  lemma SkipOddOut(b: nat, p: nat)
    requires b >= 3 && Peak(b, p)
    ensures p >= Pow2(b) && (if p == Pow2(b) then GetSkipHeight(p + 1) == 1 else GetSkipHeight(p + 1) < p - Pow2(b))
  {
    hide InvertLowestOne, GetSkipHeight, Pow2, Peak, Multiple;
    Pow2Half(b);
    var q := PeakHalf(b, p);
    InvertPeak(b - 1, q);
    SkipOfOdd(q, p + 1);
    var n := q - Pow2(b - 1);
    if n == 0 { InvertNone(); } else { InvertLess(n); }
  }

  /** The steps from an odd height `p + 2 n + 1` to just below `p`, where `k` is the number of ones of `n`. */
  function OddCost(k: nat): nat { (k + 1) / 2 + 2 }

  lemma FromPeak(b: nat, p: nat, t: nat)
    requires Below(b, p, t)
    ensures Steps(p, t) <= 1 + Steps(p - 1, t) && (p - Pow2(b) < t ==> Steps(p, t) == 1 + Steps(p - 1, t))
  {
    hide GetSkipHeight, Steps, Pow2, Peak, Below;
    BelowFacts(b, p, t);
    SkipEven(b, p, 0, p);
    StepTo(p, t, NextHeight(p, t));
    StepsSame(t);
  }

  /** One below a power of two. */
  lemma SinglePrev(n: nat)
    requires n > 2 && Ones(n) == 1
    ensures Ones(n - 1) >= 2
  {
    hide Ones;
    var m := n / 2;
    if n == 2 * m {
      OnesEven(m);
      OnesOdd(m - 1);
      if Ones(m - 1) == 0 { OnesZero(m - 1); }
    } else {
      OnesOdd(m);
      OnesZero(m);
    }
  }

  /** One bit above: the next stop is `p`, unless `t` is too near the bottom. */
  lemma FromSingle(b: nat, p: nat, n: nat, t: nat)
    requires Below(b, p, t) && 2 * n < Pow2(b) && Ones(n) == 1 && p - Pow2(b) + 1 < t
    ensures n > 0 && NextHeight(p + 2 * n, t) == p
  {
    hide GetSkipHeight, InvertLowestOne, NextHeight, Peak, Pow2, Ones, Below;
    BelowFacts(b, p, t);
    SingleCleared(n);
    var h := p + 2 * n;
    SkipEven(b, p, n, h);
    if n == 1 {
      SkipOddOut(b, p);
      NextSkipsFar(h, p + 1, t);
    } else if n == 2 {
      OneIsSingle();
      SkipOddNear(b, p, 1, h - 1);
      NextSkipsFar(h, h - 1, t);
    } else {
      SinglePrev(n);
      SkipOddFar(b, p, n - 1, h - 1);
      NextSkips(h, h - 1, t);
    }
  }

  lemma OneIsSingle()
    ensures Ones(1) == 1
  {
  }

  lemma OddJump(b: nat, p: nat, n: nat, t: nat)
    requires Below(b, p, t) && 2 * n < Pow2(b) && Ones(n) >= 2
    ensures NextHeight(p + 2 * n + 1, t) == p + 2 * InvertLowestOne(InvertLowestOne(n)) + 1
  {
    hide GetSkipHeight, InvertLowestOne, NextHeight, Peak, Pow2, Ones, Below;
    BelowFacts(b, p, t);
    var h := p + 2 * n + 1;
    SkipOddFar(b, p, n, h);
    SkipEven(b, p, n, h - 1);
    NextSkips(h, h - 1, t);
  }

  /** From an odd height the walk clears two bits at a time and ends just below `p`; the cost is exact away from the bottom. */
  lemma {:induction false} OddWalk(b: nat, p: nat, n: nat, t: nat)
    requires Below(b, p, t) && 2 * n < Pow2(b)
    ensures Steps(p + 2 * n + 1, t) <= OddCost(Ones(n)) + Steps(p - 1, t)
    ensures p - Pow2(b) + 1 < t ==> Steps(p + 2 * n + 1, t) == OddCost(Ones(n)) + Steps(p - 1, t)
    decreases n
  {
    hide GetSkipHeight, InvertLowestOne, NextHeight, Steps, Peak, Pow2, Ones, Below;
    BelowFacts(b, p, t);
    if Ones(n) >= 2 {
      OddJump(b, p, n, t);
      SkipOddFar(b, p, n, p + 2 * n + 1);
      var c := InvertLowestOne(InvertLowestOne(n));
      StepTo(p + 2 * n + 1, t, p + 2 * c + 1);
      OddWalk(b, p, c, t);
    } else if Ones(n) == 1 {
      OddSingle(b, p, n, t);
    } else {
      OnesZero(n);
      OddOut(b, p, t);
    }
  }

  lemma OddSingle(b: nat, p: nat, n: nat, t: nat)
    requires Below(b, p, t) && 2 * n < Pow2(b) && Ones(n) == 1
    ensures Steps(p + 2 * n + 1, t) <= 3 + Steps(p - 1, t)
    ensures p - Pow2(b) + 1 < t ==> Steps(p + 2 * n + 1, t) == 3 + Steps(p - 1, t)
  {
    hide GetSkipHeight, InvertLowestOne, Steps, Peak, Pow2, Ones, Below;
    BelowFacts(b, p, t);
    var h, g := p + 2 * n + 1, p + 2 * n;
    SkipOddNear(b, p, n, h);
    SingleCleared(n);
    if p - Pow2(b) + 1 < t {
      NextSteps(h, g, t);
      StepTo(h, t, g);
      FromSingle(b, p, n, t);
      StepTo(g, t, p);
      FromPeak(b, p, t);
    } else {
      SkipEven(b, p, n, g);
      NearBottom(h, g, p - Pow2(b), t);
    }
  }

  /** A skip to one above the lowest height that `t` can have. */
  lemma NearBottom(h: int, g: int, low: int, t: int)
    requires 0 <= low <= t <= low + 1 < h && g == h - 1 && GetSkipHeight(h) == low + 1 && GetSkipHeight(g) >= low - 1
    ensures Steps(h, t) <= 2
  {
    hide GetSkipHeight, Steps;
    StepTo(h, t, NextHeight(h, t));
    StepsOne(low);
    StepsSame(t);
  }

  lemma OddOut(b: nat, p: nat, t: nat)
    requires Below(b, p, t)
    ensures Steps(p + 1, t) <= 2 + Steps(p - 1, t)
    ensures p - Pow2(b) + 1 < t ==> Steps(p + 1, t) == 2 + Steps(p - 1, t)
  {
    hide GetSkipHeight, Steps, Peak, Pow2, Below;
    BelowFacts(b, p, t);
    SkipOddOut(b, p);
    FromPeak(b, p, t);
    StepTo(p + 1, t, NextHeight(p + 1, t));
    StepsSame(1);
    StepsSame(0);
    StepsOne(0);
  }

  // ----- starts at even heights

  lemma {:induction false} Eights(b: nat, p: nat, y: nat, t: nat)
    requires Below(b, p, t) && 8 * y < Pow2(b)
    ensures Steps(p + 8 * y, t) <= 1 + Ones(y) + Steps(p - 1, t)
    decreases y
  {
    hide GetSkipHeight, InvertLowestOne, NextHeight, Steps, Peak, Pow2, Ones, Below;
    BelowFacts(b, p, t);
    FromPeak(b, p, t);
    if y > 0 {
      EightsNext(b, p, y, t);
      InvertLess(y);
      StepTo(p + 8 * y, t, p + 8 * InvertLowestOne(y));
      InvertOnes(y);
      Eights(b, p, InvertLowestOne(y), t);
    }
  }

  lemma EightsNext(b: nat, p: nat, y: nat, t: nat)
    requires Below(b, p, t) && 8 * y < Pow2(b) && y > 0
    ensures NextHeight(p + 8 * y, t) == p + 8 * InvertLowestOne(y)
  {
    hide GetSkipHeight, InvertLowestOne, NextHeight, Peak, Pow2, Ones, Below;
    BelowFacts(b, p, t);
    OctetInverts(y);
    InvertLess(y);
    var h := p + 8 * y;
    SkipEven(b, p, 4 * y, h);
    BeforeEight(y);
    SkipOddFar(b, p, 4 * y - 1, h - 1);
    NextSkips(h, h - 1, t);
  }

  /** The number before a multiple of four ends in 11. */
  lemma BeforeEight(y: nat)
    requires y > 0
    ensures Ones(4 * y - 1) >= 2 && InvertLowestOne(InvertLowestOne(4 * y - 1)) == 4 * y - 4
  {
    hide InvertLowestOne, Ones;
    OctetInverts(y - 1);
    OnesOdd(2 * y - 1);
    OnesOdd(y - 1);
  }

  lemma Fours(b: nat, p: nat, y: nat, t: nat)
    requires Below(b, p, t) && 8 * y + 4 < Pow2(b)
    ensures Steps(p + 8 * y + 4, t) <= 1 + OddCost(Ones(y) + 1) + Steps(p - 1, t)
  {
    hide GetSkipHeight, InvertLowestOne, Steps, Peak, Pow2, Ones, Below, NextHeight, OddCost;
    BelowFacts(b, p, t);
    var h := p + 8 * y + 4;
    OnesOdd(2 * y);
    OnesEven(y);
    OddWalk(b, p, 4 * y + 1, t);
    assert p + 2 * (4 * y + 1) + 1 == h - 1;
    if y > 0 {
      FoursNext(b, p, y, t);
      StepTo(h, t, h - 1);
    } else {
      FromFour(b, p, t);
      StepTo(h, t, NextHeight(h, t));
    }
  }

  lemma FromFour(b: nat, p: nat, t: nat)
    requires Below(b, p, t)
    ensures NextHeight(p + 4, t) == p + 3 || (NextHeight(p + 4, t) == p && Steps(p, t) <= OddCost(Ones(0) + 1) + Steps(p - 1, t))
  {
    hide GetSkipHeight, Steps, Peak, Pow2, Below, InvertLowestOne;
    BelowFacts(b, p, t);
    OctetInverts(0);
    SkipEven(b, p, 2, p + 4);
    FromPeak(b, p, t);
  }

  lemma FoursNext(b: nat, p: nat, y: nat, t: nat)
    requires Below(b, p, t) && 8 * y + 4 < Pow2(b) && y > 0
    ensures NextHeight(p + 8 * y + 4, t) == p + 8 * y + 3
  {
    hide GetSkipHeight, InvertLowestOne, NextHeight, Peak, Pow2, Ones, Below;
    BelowFacts(b, p, t);
    OctetInverts(y);
    InvertLess(y);
    OnesOdd(2 * y);
    OnesEven(y);
    if Ones(y) == 0 { OnesZero(y); }
    var h := p + 8 * y + 4;
    SkipEven(b, p, 4 * y + 2, h);
    SkipOddFar(b, p, 4 * y + 1, h - 1);
    NextWaits(h, h - 1, t);
  }

  lemma Twos(b: nat, p: nat, y: nat, t: nat)
    requires Below(b, p, t) && 4 * y + 2 < Pow2(b)
    ensures Steps(p + 4 * y + 2, t) <= 2 + OddCost(Ones(y)) + Steps(p - 1, t)
  {
    hide GetSkipHeight, InvertLowestOne, Steps, Peak, Pow2, Ones, Below, NextHeight, OddCost;
    BelowFacts(b, p, t);
    var h := p + 4 * y + 2;
    OnesEven(y);
    OddWalk(b, p, 2 * y, t);
    StepTo(h, t, NextHeight(h, t));
    if Ones(y) >= 2 {
      TwosNext(b, p, y, t);
    } else {
      TwosJump(b, p, y, t);
      TwosEither(b, p, y, t);
    }
  }

  lemma TwosEither(b: nat, p: nat, y: nat, t: nat)
    requires Below(b, p, t) && 4 * y + 2 < Pow2(b)
    ensures NextHeight(p + 4 * y + 2, t) == p + 4 * y + 1 || NextHeight(p + 4 * y + 2, t) == p + 4 * y
  {
    hide GetSkipHeight, InvertLowestOne, Peak, Pow2, Below;
    BelowFacts(b, p, t);
    InvertOdd(y);
    SkipEven(b, p, 2 * y + 1, p + 4 * y + 2);
  }

  lemma TwosJump(b: nat, p: nat, y: nat, t: nat)
    requires Below(b, p, t) && 4 * y + 2 < Pow2(b) && Ones(y) <= 1
    ensures Steps(p + 4 * y, t) <= 1 + OddCost(Ones(y)) + Steps(p - 1, t)
  {
    hide GetSkipHeight, InvertLowestOne, Steps, Peak, Ones, Below, Pow2;
    var x := y / 2;
    if y == 2 * x {
      OnesEven(x);
      Eights(b, p, x, t);
    } else {
      OnesOdd(x);
      OnesZero(x);
      Fours(b, p, 0, t);
    }
  }

  lemma TwosNext(b: nat, p: nat, y: nat, t: nat)
    requires Below(b, p, t) && 4 * y + 2 < Pow2(b) && Ones(y) >= 2
    ensures NextHeight(p + 4 * y + 2, t) == p + 4 * y + 1
  {
    hide GetSkipHeight, InvertLowestOne, NextHeight, Peak, Pow2, Ones, Below;
    BelowFacts(b, p, t);
    NoOnes();
    InvertOdd(y);
    var h := p + 4 * y + 2;
    SkipEven(b, p, 2 * y + 1, h);
    OnesEven(y);
    SkipOddFar(b, p, 2 * y, h - 1);
    InvertEven(y);
    var c := InvertLowestOne(y);
    InvertEven(c);
    InvertLess(y);
    InvertOnes(y);
    InvertLess(c);
    NextWaits(h, h - 1, t);
  }

  // ----- whole walks

  /** The steps to get down from just below a multiple of 2^(b + 1), at worst. */
  function Descent(b: nat): nat { if b <= 2 then 4 else b / 2 + 2 + Descent(b - 1) }

  lemma {:induction false} DescentIs(b: nat)
    requires b >= 2
    ensures Descent(b) == b * b / 4 + 2 * b - 1
  {
    if b > 2 {
      DescentIs(b - 1);
      SquareStep(b);
    }
  }

  lemma SquareStep(b: nat)
    requires b > 0
    ensures b * b / 4 == (b - 1) * (b - 1) / 4 + b / 2
  {
    var h := b / 2;
    var s := h * h;
    if b == 2 * h {
      EvenSquare(h);
      OddSquare(h - 1);
    } else {
      EvenSquare(h);
      OddSquare(h);
    }
  }

  lemma EvenSquare(h: nat)
    ensures (2 * h) * (2 * h) / 4 == h * h
  {
    assert (2 * h) * (2 * h) == 4 * (h * h);
  }

  lemma OddSquare(h: nat)
    ensures (2 * h + 1) * (2 * h + 1) / 4 == h * h + h
  {
    assert (2 * h + 1) * (2 * h + 1) == 4 * (h * h + h) + 1;
  }

  /** The steps above the first peak, at worst. */
  function Start(b: nat): int { Max(b - 2, (b - 1) / 2 + 4) }

  lemma {:induction false} Grow(m: nat, n: nat)
    requires m <= n
    ensures Descent(m) <= Descent(n) && Start(m) <= Start(n)
  {
    if m < n { Grow(m, n - 1); }
  }

  /** From just below a multiple of 2^n, down over at most 2^n heights. */
  lemma {:induction false} FromBelow(n: nat, p: nat, t: nat)
    requires n >= 3 && Multiple(n, p) && p >= Pow2(n) && p - Pow2(n) <= t < p
    ensures Steps(p - 1, t) <= Descent(n - 1)
    decreases n
  {
    hide Steps, Ones;
    if n == 3 {
      assert Pow2(3) == 8;
      var y := EightFromMultiple(p);
      OctetBound(y - 1, p - 1, t);
    } else {
      var b := n - 1;
      MultipleLess(b, p);
      if t >= p - Pow2(b) {
        FromBelow(b, p, t);
        Grow(b - 1, n - 1);
      } else {
        PeakBelow(b, p);
        var q := p - Pow2(b);
        PeakMultiple(b, q);
        assert Pow2(n) == 2 * Pow2(b) && Pow2(b) == 2 * Pow2(b - 1);
        OnesFull(b - 1);
        OddWalk(b, q, Pow2(b - 1) - 1, t);
        FullCost(b);
        FromBelow(b, q, t);
      }
    }
  }

  lemma HalfMultiple(b: nat, n: nat) returns (m: nat)
    requires Multiple(b + 1, n)
    ensures n == 2 * m && Multiple(b, m)
  {
    m := n / 2;
  }

  lemma EightFromMultiple(p: nat) returns (y: nat)
    requires Multiple(3, p)
    ensures p == 8 * y
  {
    var q := HalfMultiple(2, p);
    var r := HalfMultiple(1, q);
    y := HalfMultiple(0, r);
  }

  /** Above a peak: whatever the low bits, the walk soon gets below it. */
  lemma AbovePeak(b: nat, p: nat, r: nat, t: nat)
    requires Below(b, p, t) && r < Pow2(b)
    ensures Steps(p + r, t) <= Start(b) + Steps(p - 1, t)
  {
    hide Steps, Ones, Peak, Pow2, OddCost, Start, Below;
    BelowFacts(b, p, t);
    var y, x, w := r / 2, r / 4, r / 8;
    if r == 2 * y + 1 {
      OddWalk(b, p, y, t);
      FewOnes(b, y, 1);
      CostOf(b, Ones(y), 1);
    } else if r == 4 * x + 2 {
      Twos(b, p, x, t);
      FewOnes(b, x, 2);
      CostOf(b, Ones(x), 2);
    } else if r == 8 * w + 4 {
      Fours(b, p, w, t);
      FewOnes(b, w, 3);
      CostOf(b, Ones(w) + 1, 2);
    } else {
      assert r == 8 * w;
      AboveEights(b, p, w, t);
    }
  }

  lemma CostOf(b: nat, k: nat, lost: nat)
    requires b >= 3 && 1 <= lost <= 2 && k <= b - lost
    ensures (lost - 1) * 2 + OddCost(k) <= Start(b)
  {
  }

  lemma AboveEights(b: nat, p: nat, y: nat, t: nat)
    requires Below(b, p, t) && 8 * y < Pow2(b)
    ensures Steps(p + 8 * y, t) <= Start(b) + Steps(p - 1, t)
  {
    hide Steps, Ones, Peak, Pow2;
    Eights(b, p, y, t);
    FewOnes(b, y, 3);
  }

  /** What is left of a number below 2^b without its last `k` bits. */
  lemma FewOnes(b: nat, y: nat, k: nat)
    requires k <= b && k <= 3 && y * (if k == 1 then 2 else if k == 2 then 4 else 8) < Pow2(b) && k > 0
    ensures Ones(y) <= b - k
  {
    Pow2Add(b - k, k);
    assert Pow2(3) == 8 && Pow2(2) == 4 && Pow2(1) == 2;
    hide Pow2;
    OnesBound(y, b - k);
  }

  /** From above a peak to below it, within the same block. */
  lemma AcrossPeak(b: nat, q: nat, h: nat, t: nat)
    requires b >= 3 && Multiple(b + 1, q) && q <= t < q + Pow2(b) <= h < q + Pow2(b + 1)
    ensures Steps(h, t) <= Start(b) + Descent(b - 1)
  {
    hide Steps, Multiple, Peak, Pow2, Start, Descent;
    var p := q + Pow2(b);
    Pow2Half(b + 1);
    PeakAbove(b, q);
    PeakMultiple(b, p);
    AbovePeak(b, p, h - p, t);
    FromBelow(b, p, t);
  }

  /** Walks within eight heights are within the bound. */
  lemma OctetWithin(q: nat, h: nat, t: nat)
    requires Multiple(3, q) && q <= t <= h < q + 8
    ensures Steps(h, t) <= Start(3) + Descent(2)
  {
    hide Steps, Multiple;
    var y := EightFromMultiple(q);
    OctetBound(y, h, t);
  }

  /** Two heights that agree above bit `n`. */
  lemma {:induction false} WithinBlock(n: nat, q: nat, h: nat, t: nat)
    requires n >= 4 && Multiple(n, q) && q <= t <= h < q + Pow2(n)
    ensures Steps(h, t) <= Start(n - 1) + Descent(n - 2)
    decreases n
  {
    assert Pow2(3) == 8;
    hide Steps, Multiple, Pow2, Start, Descent;
    var b := n - 1;
    Pow2Half(n);
    MultipleLess(b, q);
    var p := q + Pow2(b);
    if t < p <= h {
      AcrossPeak(b, q, h, t);
    } else {
      var q' := if h < p then q else p;
      MultipleAbove(b, q);
      if b == 3 {
        OctetWithin(q', h, t);
      } else {
        WithinBlock(b, q', h, t);
        Grow(b - 1, n - 1);
        Grow(b - 2, n - 2);
      }
    }
  }

  /** Every walk from a height below 2^n takes at most about n^2 / 4 + 5 n / 2 steps. */
  lemma StepsBound(n: nat, h: nat, t: nat)
    requires n >= 4 && t <= h < Pow2(n)
    ensures Steps(h, t) <= Max(n - 3, (n - 2) / 2 + 4) + (n - 2) * (n - 2) / 4 + 2 * n - 5
  {
    hide Steps;
    MultipleZero(n);
    WithinBlock(n, 0, h, t);
    DescentIs(n - 2);
  }

  lemma {:induction false} StepsDescend(n: nat)
    requires n >= 3
    ensures Pow2(n) >= 8 && Steps(Pow2(n) - 1, 2) == Descent(n - 1)
  {
    hide Ones, Steps, Peak, Multiple, OddCost;
    Pow2Mono(3, n);
    FromSeven();
    if n > 3 {
      var b := n - 1;
      Pow2Mono(3, b);
      MultipleZero(n);
      PeakAbove(b, 0);
      OnesFull(b - 1);
      assert Pow2(n) == 2 * Pow2(b) && Pow2(b) == 2 * Pow2(b - 1);
      hide Pow2;
      OddWalk(b, Pow2(b), Pow2(b - 1) - 1, 2);
      FullCost(b);
      StepsDescend(b);
    }
  }

  /** The walk from 2^n - 1 to 2 takes exactly this many steps. */
  lemma StepsExact(n: nat)
    requires n >= 3
    ensures Pow2(n) >= 8 && Steps(Pow2(n) - 1, 2) == (n - 1) * (n - 1) / 4 + 2 * n - 3
  {
    hide Steps, Pow2, Descent;
    StepsDescend(n);
    DescentIs(n - 1);
  }

  /** So no bound is linear in the logarithm of the height: for every factor some walk exceeds it. */
  lemma NotLogarithmic(c: nat)
    ensures var n := 4 * c + 8; Pow2(n) >= 8 && Steps(Pow2(n) - 1, 2) > c * n
  {
    hide Steps, Pow2;
    var n := 4 * c + 8;
    StepsExact(n);
    OddSquare(2 * c + 3);
    var s := c * c;
    assert c * n == 4 * s + 8 * c;
    assert (2 * c + 3) * (2 * c + 3) == 4 * s + 12 * c + 9;
    assert n - 1 == 2 * (2 * c + 3) + 1;
  }

  lemma FullCost(b: nat)
    requires b > 0
    ensures OddCost(b - 1) == b / 2 + 2
  {
  }

  lemma FromSeven()
    ensures Pow2(3) == 8 && Steps(7, 2) == 4
  {
    hide GetSkipHeight;
    OctetSkips(0);
    StepTo(7, 2, 6);
    StepTo(6, 2, 4);
    StepTo(4, 2, 3);
    StepsOne(2);
  }

  /** What the source says of its skip heights: at most 110 steps back from any of the first 2^18 blocks. */
  lemma AtMost110(h: nat, t: nat)
    requires t <= h <= 0x4_0000
    ensures Steps(h, t) <= 110
  {
    hide Steps, Pow2, Peak, Multiple, Descent;
    Eighteen();
    if h < 0x4_0000 {
      StepsBound(18, h, t);
    } else if t < h {
      FromTop(18, t);
    } else {
      StepsSame(t);
    }
  }

  lemma Eighteen()
    ensures Pow2(18) == 0x4_0000 && Descent(17) == 105
  {
    assert Pow2(9) == 512;
    Pow2Add(9, 9);
    DescentIs(17);
  }

  lemma FromTop(n: nat, t: nat)
    requires n >= 3 && t < Pow2(n)
    ensures Steps(Pow2(n), t) <= 1 + Descent(n - 1)
  {
    hide Steps, Pow2, Peak, Multiple, Descent;
    MultipleZero(n + 1);
    PeakAbove(n, 0);
    PeakMultiple(n, Pow2(n));
    FromPeak(n, Pow2(n), t);
    FromBelow(n, Pow2(n), t);
  }
}
