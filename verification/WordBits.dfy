/** Two-bit labels of cells, split over pairs of 64-bit words (src/bloom.cpp). */
module WordBits {
  predicate Bit(w: bv64, b: bv64)
    requires b < 64
  {
    (w >> b) & 1 == 1
  }

  /** The label of bit `b` in a pair of words; 0 means unset. */
  function Label(w1: bv64, w2: bv64, b: bv64): (t: nat)
    requires b < 64
    ensures t <= 3
  {
    (if Bit(w1, b) then 1 else 0) + if Bit(w2, b) then 2 else 0
  }

  /** `nGeneration & 1`, as a word. */
  function Low(gen: nat): (v: bv64)
    ensures v <= 1
  {
    if gen % 2 == 1 then 1 else 0
  }

  /** `nGeneration >> 1`, as a word. */
  function High(gen: nat): (v: bv64)
    requires gen <= 3
    ensures v <= 1
  {
    if gen / 2 == 1 then 1 else 0
  }

  function Write(w: bv64, b: bv64, v: bv64): bv64
    requires b < 64
  {
    Or(And(w, Hole(b)), One(b, v))
  }

  function And(x: bv64, y: bv64): bv64 { x & y }

  function Or(x: bv64, y: bv64): bv64 { x | y }

  function Xor(x: bv64, y: bv64): bv64 { x ^ y }

  function Hole(b: bv64): bv64 requires b < 64 { !(1 << b) }

  function One(b: bv64, v: bv64): bv64 requires b < 64 { v << b }

  function Fill(v: bv64): bv64 { 0 - v }

  function WipeMask(w1: bv64, w2: bv64, gen: nat): bv64
    requires gen <= 3
  {
    Or(Xor(w1, Fill(Low(gen))), Xor(w2, Fill(High(gen))))
  }

  lemma OrBit(x: bv64, y: bv64, b: bv64)
    requires b < 64
    ensures Bit(x | y, b) <==> Bit(x, b) || Bit(y, b)
  {
  }

  lemma BitOr(x: bv64, y: bv64, b: bv64)
    requires b < 64
    ensures Bit(Or(x, y), b) <==> Bit(x, b) || Bit(y, b)
  {
    hide Bit;
    OrBit(x, y, b);
  }

  lemma AndBit(x: bv64, y: bv64, b: bv64)
    requires b < 64
    ensures Bit(x & y, b) <==> Bit(x, b) && Bit(y, b)
  {
  }

  lemma BitAnd(x: bv64, y: bv64, b: bv64)
    requires b < 64
    ensures Bit(And(x, y), b) <==> Bit(x, b) && Bit(y, b)
  {
    hide Bit;
    AndBit(x, y, b);
  }

  lemma XorBit(x: bv64, y: bv64, b: bv64)
    requires b < 64
    ensures Bit(x ^ y, b) <==> Bit(x, b) != Bit(y, b)
  {
  }

  lemma BitXor(x: bv64, y: bv64, b: bv64)
    requires b < 64
    ensures Bit(Xor(x, y), b) <==> Bit(x, b) != Bit(y, b)
  {
    hide Bit;
    XorBit(x, y, b);
  }

  lemma BitOne(b: bv64, c: bv64, v: bv64)
    requires b < 64 && c < 64 && v <= 1
    ensures Bit(One(b, v), c) <==> b == c && v == 1
  {
  }

  lemma BitHole(b: bv64, c: bv64)
    requires b < 64 && c < 64
    ensures Bit(Hole(b), c) <==> b != c
  {
  }

  lemma BitAll(b: bv64, v: bv64)
    requires b < 64 && v <= 1
    ensures Bit(Fill(v), b) <==> v == 1
  {
  }

  lemma WriteBit(w: bv64, b: bv64, v: bv64, c: bv64)
    requires b < 64 && c < 64 && v <= 1
    ensures Bit(Write(w, b, v), c) <==> if b == c then v == 1 else Bit(w, c)
  {
    hide Bit, And, Or, Hole, One;
    BitOr(And(w, Hole(b)), One(b, v), c);
    BitAnd(w, Hole(b), c);
    BitOne(b, c, v);
    BitHole(b, c);
  }

  /** Writing a generation into one cell relabels that cell and no other. */
  lemma WriteLabels(w1: bv64, w2: bv64, b: bv64, gen: nat, c: bv64)
    requires b < 64 && c < 64 && gen <= 3
    ensures Label(Write(w1, b, Low(gen)), Write(w2, b, High(gen)), c) == if b == c then gen else Label(w1, w2, c)
  {
    hide Bit, Write;
    WriteBit(w1, b, Low(gen), c);
    WriteBit(w2, b, High(gen), c);
  }

  lemma WipeMaskBit(w1: bv64, w2: bv64, gen: nat, b: bv64)
    requires b < 64 && gen <= 3
    ensures Bit(WipeMask(w1, w2, gen), b) <==> Label(w1, w2, b) != gen
  {
    hide Bit, Or, Xor, Fill;
    BitOr(Xor(w1, Fill(Low(gen))), Xor(w2, Fill(High(gen))), b);
    BitXor(w1, Fill(Low(gen)), b);
    BitXor(w2, Fill(High(gen)), b);
    BitAll(b, Low(gen));
    BitAll(b, High(gen));
  }

  /** The mask clears exactly the cells with the reused label, 64 at a time. */
  lemma WipeLabels(w1: bv64, w2: bv64, gen: nat, b: bv64)
    requires b < 64 && 1 <= gen <= 3
    ensures var mask := WipeMask(w1, w2, gen);
            Label(And(w1, mask), And(w2, mask), b) == if Label(w1, w2, b) == gen then 0 else Label(w1, w2, b)
  {
    hide Bit, And, WipeMask;
    var mask := WipeMask(w1, w2, gen);
    WipeMaskBit(w1, w2, gen, b);
    BitAnd(w1, mask, b);
    BitAnd(w2, mask, b);
  }

  lemma LabelSet(w1: bv64, w2: bv64, b: bv64)
    requires b < 64
    ensures Bit(Or(w1, w2), b) <==> Label(w1, w2, b) != 0
  {
    BitOr(w1, w2, b);
  }

  lemma LabelUnset(b: bv64)
    requires b < 64
    ensures Label(0, 0, b) == 0
  {
  }
}
