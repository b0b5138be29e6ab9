/** The work of a block: the reciprocal of the geometric mean of the targets of all algorithms. */
module BlockProof {
  import opened ArithSpec
  import opened ArithUint
  import opened ArithUintOps
  import opened NthRoot
  import opened Compact

  predicate ValidTarget(c: Uint32) {
    !(Word(c) != 0 && SignSet(c)) && 0 < Decoded(c) < Weight(WIDTH)
  }

  function Product(rs: seq<nat>): nat {
    if rs == [] then 1 else Product(rs[..|rs| - 1]) * rs[|rs| - 1]
  }

  /** `rs` are the approximate n-th roots of the targets. */
  ghost predicate AreRoots(rs: seq<nat>, bits: seq<Uint32>, n: nat)
    requires n > 0
  {
    |rs| == |bits| && forall i | 0 <= i < |rs| :: IsApproxRoot(rs[i], Decoded(bits[i]), n)
  }

  /** A decoded target leaves room for one more in 256 bits. */
  lemma TargetRoom(c: Uint32)
    requires ValidTarget(c)
    ensures Decoded(c) + 2 <= Weight(WIDTH)
  {
    hide Pow2, Weight;
    WideEnough();
    if Exponent(c) <= 3 {
      DivLe(Mantissa(c), Bytes(3 - Exponent(c)));
    } else {
      SmallPowers();
      WeightIsPow2(WIDTH);
      var e := Exponent(c);
      Pow2Add(8 * (e - 4), 8);
      Pow2Add(248, 8);
      Assoc(Mantissa(c), Bytes(e - 4), 0x100);
      EvenGap(Mantissa(c) * Bytes(e - 4), Pow2(248), Decoded(c));
    }
  }

  lemma EvenGap(a: nat, b: nat, x: nat)
    requires x == a * 0x100 < b * 0x100
    ensures x + 2 <= b * 0x100
  {
  }

  /** The power of a product of roots is bounded by the power of the largest target. */
  lemma {:induction false} ProductPower(rs: seq<nat>, bits: seq<Uint32>, n: nat, m: nat)
    requires n > 0 && m > 0 && AreRoots(rs, bits, n)
    requires forall i | 0 <= i < |bits| :: Decoded(bits[i]) <= m
    ensures Pow(Product(rs), n) <= Pow(m, |rs|)
    decreases |rs|
  {
    hide Pow2, Weight, Decoded, LeastShift, HasBits;
    if rs == [] {
      OnePower(n);
    } else {
      var k := |rs| - 1;
      var a, r := Product(rs[..k]), rs[k];
      assert AreRoots(rs[..k], bits[..k], n);
      ProductPower(rs[..k], bits[..k], n, m);
      assert IsApproxRoot(r, Decoded(bits[k]), n);
      PowProduct(a, r, n);
      PowStep(m, k);
      MulMono(Pow(a, n), Pow(m, k), Pow(r, n));
      MulMono(Pow(r, n), m, Pow(m, k));
    }
  }

  lemma {:induction false} OnePower(n: nat)
    ensures Pow(1, n) == 1
  {
    if n > 0 { OnePower(n - 1); }
  }

  /** No running product of at most `n` roots exceeds the largest target. */
  lemma ProductFits(rs: seq<nat>, bits: seq<Uint32>, n: nat)
    requires |rs| <= n && n > 0 && AreRoots(rs, bits, n)
    requires forall i | 0 <= i < |bits| :: ValidTarget(bits[i])
    ensures Product(rs) + 2 <= Weight(WIDTH)
  {
    hide Pow2, Weight, Pow, AreRoots, Product;
    WideEnough();
    var m: nat := Weight(WIDTH) - 2;
    forall i | 0 <= i < |bits| ensures Decoded(bits[i]) <= m { TargetRoom(bits[i]); }
    ProductPower(rs, bits, n, m);
    PowExpMono(m, |rs|, n);
    if m < Product(rs) { PowStrict(m, Product(rs), n); }
  }

  lemma {:induction false} ProductPositive(rs: seq<nat>)
    requires forall i | 0 <= i < |rs| :: rs[i] > 0
    ensures Product(rs) > 0
  {
    if rs != [] {
      ProductPositive(rs[..|rs| - 1]);
      MulPositive(Product(rs[..|rs| - 1]), rs[|rs| - 1]);
    }
  }

  lemma {:induction false} ProductMono(rs: seq<nat>, rs': seq<nat>)
    requires |rs| == |rs'| && forall i | 0 <= i < |rs| :: rs[i] <= rs'[i]
    ensures Product(rs) <= Product(rs')
  {
    if rs != [] {
      var k := |rs| - 1;
      ProductMono(rs[..k], rs'[..k]);
      MulMono(Product(rs[..k]), Product(rs'[..k]), rs[k]);
      MulMono(rs[k], rs'[k], Product(rs'[..k]));
    }
  }

  /** The proof before it is scaled: the whole range divided by one more than the mean target. */
  function Work(avg: nat): nat {
    DivLe(Weight(WIDTH), avg + 1);
    Weight(WIDTH) / (avg + 1)
  }

  lemma DivAnti(x: nat, a: nat, b: nat)
    requires 0 < a <= b
    ensures x / b <= x / a
  {
    DivBounds(x, b);
    MulMono(a, b, x / b);
    QuotientAtLeast(x, a, x / b);
  }

  /** Raising any target never raises the proof. */
  lemma HarderTargetsMoreWork(rs: seq<nat>, rs': seq<nat>, bits: seq<Uint32>, bits': seq<Uint32>, n: nat)
    requires 1 < n < 64 && AreRoots(rs, bits, n) && AreRoots(rs', bits', n) && |bits| == |bits'|
    requires forall i | 0 <= i < |bits| :: Decoded(bits[i]) <= Decoded(bits'[i])
    ensures Work(Product(rs')) <= Work(Product(rs))
  {
    hide Pow2, Weight, IsApproxRoot, Decoded, Product;
    ProductsOrdered(rs, rs', bits, bits', n);
    DivAnti(Weight(WIDTH), Product(rs) + 1, Product(rs') + 1);
  }

  /** Scaling by 128 stays within 256 bits exactly when the mean target is at least 128. */
  lemma ScalingExactlyWhen(avg: nat)
    ensures Work(avg) * 128 < Weight(WIDTH) <==> avg >= 128
  {
    hide Pow2, Weight;
    WeightIsPow2(WIDTH);
    Pow2Add(249, 7);
    SevenBits();
    var d := avg + 1;
    if avg >= 128 {
      MulStrict(128, d, Pow2(249));
      assert Pow2(249) * d == d * Pow2(249);
      QuotientBelow(Weight(WIDTH), d, Pow2(249));
    } else {
      MulMono(d, 128, Pow2(249));
      assert Pow2(249) * d == d * Pow2(249);
      QuotientAtLeast(Weight(WIDTH), d, Pow2(249));
    }
  }

  lemma SevenBits()
    ensures Pow2(7) == 128
  {
  }

  /** The quotient is taken of the complement, which is one whole divisor short of 2^256. */
  lemma OneMore(w: nat, d: nat)
    requires 1 < d <= w
    ensures (w - d) / d + 1 == w / d < w
  {
    var q := (w - d) / d;
    DivBounds(w - d, d);
    Distrib(q, 1, d);
    DivModUnique(w, d, q + 1, (w - d) % d);
    MulMono(2, d, q + 1);
  }

  /** `GetBlockProof`, given the compact target that each algorithm requires next. */
  method GetBlockProof(nBits: seq<Uint32>) returns (bnRes: array<Limb>, ghost rs: seq<nat>)
    requires 1 < |nBits| < 64
    ensures fresh(bnRes) && bnRes.Length == WIDTH
    ensures (exists i :: 0 <= i < |nBits| && !ValidTarget(nBits[i])) ==> Val(bnRes[..]) == 0
    ensures (forall i | 0 <= i < |nBits| :: ValidTarget(nBits[i])) ==>
              && AreRoots(rs, nBits, |nBits|)
              && Product(rs) + 2 <= Weight(WIDTH)
              && Val(bnRes[..]) == (Work(Product(rs)) * 128) % Weight(WIDTH)
  {
    hide Val, Weight, Pow2, IsApproxRoot, Product, Decoded;
    var n := |nBits|;
    rs := [];
    var bnAvgTarget := FromUint64(1, WIDTH);
    ProductNone();
    for i := 0 to n
      invariant fresh(bnAvgTarget) && bnAvgTarget.Length == WIDTH
      invariant forall j | 0 <= j < i :: ValidTarget(nBits[j])
      invariant AreRoots(rs, nBits[..i], n) && Val(bnAvgTarget[..]) == Product(rs)
      invariant forall j | 0 <= j < |rs| :: rs[j] > 0
    {
      var bnTarget := FromUint64(0, WIDTH);
      var fNegative, fOverflow := SetCompact(bnTarget, nBits[i]);
      ghost var target := Decoded(nBits[i]);
      if !fOverflow { Reduce(target, Weight(WIDTH), 0, target); }
      var bits := Bits(bnTarget);
      if fNegative || fOverflow || bits == 0 {
        assert !ValidTarget(nBits[i]);
        bnRes := FromUint64(0, WIDTH);
        return;
      }
      var root := ApproxNthRoot(bnTarget, n);
      ghost var r := Val(root[..]);
      RootPositive(r, target, n);
      MulAssign(bnAvgTarget, root);
      ProductSnoc(rs, r);
      rs := rs + [r];
      assert AreRoots(rs, nBits[..i + 1], n);
      ProductFits(rs, nBits[..i + 1], n);
      Reduce(Product(rs), Weight(WIDTH), 0, Product(rs));
    }
    assert nBits[..n] == nBits;
    ProductFits(rs, nBits, n);
    ProductPositive(rs);
    bnRes := Reciprocal(bnAvgTarget);
    SevenBits();
    ShlAssign(bnRes, 7);
  }

  lemma ProductNone()
    ensures Product([]) == 1
  {
  }

  lemma ProductSnoc(rs: seq<nat>, r: nat)
    ensures Product(rs + [r]) == Product(rs) * r
  {
    assert (rs + [r])[..|rs|] == rs;
  }

  /** The complement of the mean divided by the mean plus one, plus one; nothing wraps. */
  method Reciprocal(bnAvgTarget: array<Limb>) returns (bnRes: array<Limb>)
    requires bnAvgTarget.Length == WIDTH && 0 < Val(bnAvgTarget[..]) && Val(bnAvgTarget[..]) + 2 <= Weight(WIDTH)
    ensures fresh(bnRes) && bnRes.Length == WIDTH
    ensures Val(bnRes[..]) == Work(Val(bnAvgTarget[..]))
  {
    hide Val, Weight;
    ghost var avg, w := Val(bnAvgTarget[..]), Weight(WIDTH);
    var one := FromUint64(1, WIDTH);
    var divisor := Copy(bnAvgTarget);
    AddAssign(divisor, one);
    Reduce(avg + 1, w, 0, avg + 1);
    bnRes := Complement(bnAvgTarget);
    var ok, _ := DivAssign(bnRes, divisor);
    OneMore(w, avg + 1);
    AddAssign(bnRes, one);
    Reduce(w / (avg + 1), w, 0, w / (avg + 1));
  }

  // ----- where the final scaling loses everything

  /** The compact form of the target 1. */
  const TARGET_ONE: Uint32 := 0x0101_0000

  lemma TargetOne()
    ensures Decoded(TARGET_ONE) == 1 && ValidTarget(TARGET_ONE)
  {
    SmallPowers();
    WideEnough();
    assert Exponent(TARGET_ONE) == 1 && Mantissa(TARGET_ONE) == 0x1_0000 && !SignSet(TARGET_ONE);
    assert Word(TARGET_ONE) == Over(0x1_0000, Bytes(2)) == 1;
  }

  lemma RootOfOne(r: nat, n: nat)
    requires 1 < n < 64 && IsApproxRoot(r, 1, n)
    ensures r == 1
  {
    hide Pow;
    RootPositive(r, 1, n);
    OnePower(n);
    if r > 1 { PowStrict(1, r, n); }
  }

  lemma {:induction false} ProductOfOnes(rs: seq<nat>)
    requires forall i | 0 <= i < |rs| :: rs[i] == 1
    ensures Product(rs) == 1
  {
    if rs != [] { ProductOfOnes(rs[..|rs| - 1]); }
  }

  lemma HalfScaled()
    ensures (Work(1) * 128) % Weight(WIDTH) == 0
  {
    WeightIsPow2(WIDTH);
    var h := Pow2(255);
    assert Pow2(256) == 2 * h;
    hide Pow2, Weight;
    assert Work(1) == h;
    Reduce(h * 128, 2 * h, 64, 0);
  }

  /** With every target 1, all of them valid, the proof returned is zero. */
  method ProofVanishes(n: nat) returns (bnRes: array<Limb>, ghost nBits: seq<Uint32>, ghost rs: seq<nat>)
    requires 1 < n < 64
    ensures |nBits| == n && (forall i | 0 <= i < n :: ValidTarget(nBits[i])) && AreRoots(rs, nBits, n)
    ensures bnRes.Length == WIDTH && Val(bnRes[..]) == (Work(Product(rs)) * 128) % Weight(WIDTH) == 0
  {
    hide Val, Weight, Pow2, IsApproxRoot, Product, Decoded, Work;
    var bits: seq<Uint32> := seq(n, _ => TARGET_ONE);
    nBits := bits;
    TargetOne();
    bnRes, rs := GetBlockProof(bits);
    forall i | 0 <= i < |rs| ensures rs[i] == 1 { RootOfOne(rs[i], n); }
    ProductOfOnes(rs);
    HalfScaled();
  }

  // ----- the proofs returned

  lemma ScaledOrder(avg: nat, avg': nat)
    requires 128 <= avg && 128 <= avg' && Work(avg') <= Work(avg)
    ensures (Work(avg') * 128) % Weight(WIDTH) <= (Work(avg) * 128) % Weight(WIDTH)
    ensures (Work(avg) * 128) % Weight(WIDTH) == Work(avg) * 128
  {
    hide Work, Weight;
    ScalingExactlyWhen(avg);
    ScalingExactlyWhen(avg');
    Reduce(Work(avg) * 128, Weight(WIDTH), 0, Work(avg) * 128);
    Reduce(Work(avg') * 128, Weight(WIDTH), 0, Work(avg') * 128);
  }

  lemma ProductsOrdered(rs: seq<nat>, rs': seq<nat>, bits: seq<Uint32>, bits': seq<Uint32>, n: nat)
    requires 1 < n < 64 && AreRoots(rs, bits, n) && AreRoots(rs', bits', n) && |bits| == |bits'|
    requires forall i | 0 <= i < |bits| :: Decoded(bits[i]) <= Decoded(bits'[i])
    ensures Product(rs) <= Product(rs')
  {
    hide Pow2, Weight, IsApproxRoot, Decoded, Product;
    forall i | 0 <= i < |rs| ensures rs[i] <= rs'[i] {
      RootMono(rs[i], rs'[i], Decoded(bits[i]), Decoded(bits'[i]), n);
    }
    ProductMono(rs, rs');
  }

  /** Of two sets of valid targets the easier one never gets the greater proof, unless the mean of the harder is below 128. */
  method CompareProofs(nBits: seq<Uint32>, easier: seq<Uint32>) returns (proof: array<Limb>, less: array<Limb>, ghost rs: seq<nat>, ghost rs': seq<nat>)
    requires 1 < |nBits| == |easier| < 64
    requires forall i | 0 <= i < |nBits| :: ValidTarget(nBits[i]) && ValidTarget(easier[i]) && Decoded(nBits[i]) <= Decoded(easier[i])
    ensures AreRoots(rs, nBits, |nBits|) && AreRoots(rs', easier, |easier|) && proof.Length == less.Length == WIDTH
    ensures Product(rs) >= 128 ==>
              Val(less[..]) == Work(Product(rs')) * 128 <= Val(proof[..]) == Work(Product(rs)) * 128
  {
    hide Val, Weight, Pow2, IsApproxRoot, Product, Decoded, Work, ValidTarget;
    proof, rs := GetBlockProof(nBits);
    less, rs' := GetBlockProof(easier);
    HarderTargetsMoreWork(rs, rs', nBits, easier, |nBits|);
    ProductsOrdered(rs, rs', nBits, easier, |nBits|);
    if Product(rs) >= 128 {
      ScaledOrder(Product(rs), Product(rs'));
      ScaledOrder(Product(rs'), Product(rs'));
    }
  }
}
