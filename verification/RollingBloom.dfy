/**
 * The rolling Bloom filter (src/bloom.cpp).
 *
 * Each cell holds a two-bit generation label, split over the two words of a pair. Although
 * inserting overwrites labels and starting a generation wipes the label it reuses, the filter
 * always equals a plain Bloom filter over the keys of the last two generations and the current
 * one: nothing older shows, and none of those is lost.
 */
module RollingBloom {
  import opened WordBits

  // ----- generations

  /** The generation after this one. */
  function Next(gen: nat): nat { if gen == 3 then 1 else gen + 1 }

  /** How many generations ago a label was current. */
  function LabelAge(tag: nat, gen: nat): nat {
    if tag == gen then 0 else if Next(tag) == gen then 1 else 2
  }

  /** How many generations ago the `d`-th newest key was inserted, given the entries of this one. */
  function KeyAge(d: nat, entries: nat, perGeneration: nat): nat {
    if d < entries then 0 else if d < entries + perGeneration then 1 else 2
  }

  lemma CurrentAge(gen: nat)
    ensures LabelAge(gen, gen) == 0
  {
  }

  lemma NextAge(tag: nat, gen: nat)
    requires 1 <= tag <= 3 && 1 <= gen <= 3
    ensures 1 <= Next(gen) <= 3
    ensures tag == Next(gen) <==> LabelAge(tag, gen) == 2
    ensures tag != Next(gen) ==> LabelAge(tag, Next(gen)) == LabelAge(tag, gen) + 1
  {
  }

  datatype Cell = Cell(pair: nat, bit: bv64)

  lemma SplitHash(h: bv32)
    ensures h & 0x3F == h % 64 && h >> 6 == h / 64
  {
  }

  /** The pair of words and the bit a hash selects, in a table of `size` words. */
  function CellAt(h: bv32, size: nat): (x: Cell)
    requires 0 < size && size % 2 == 0
    ensures x.pair % 2 == 0 && x.pair + 1 < size && x.bit < 64
    ensures x.bit == (h % 64) as bv64 && x.pair / 2 == (h / 64) as nat % size / 2
  {
    SplitHash(h);
    var pos := (h >> 6) as nat % size;
    Cell(pos - pos % 2, (h & 0x3F) as bv64)
  }

  class CRollingBloomFilter<Key(!new)> {
    const hash: (nat, nat, Key) -> bv32
    const nHashFuncs: nat
    const nEntriesPerGeneration: nat
    const data: array<bv64>
    var nEntriesThisGeneration: nat
    var nGeneration: nat
    var nTweak: nat
    /** Every key inserted since the last reset, newest first. */
    ghost var log: seq<Key>

    predicate Sized() { data.Length % 2 == 0 && 0 < data.Length && 0 < nHashFuncs }

    ghost predicate Shaped()
      reads this`nGeneration
    {
      Sized() && 1 <= nGeneration <= 3
    }

    predicate IsCell(x: Cell) { x.pair % 2 == 0 && x.pair + 1 < data.Length && x.bit < 64 }

    /** Where the `n`-th hash of a key falls. */
    function CellOf(n: nat, key: Key): (x: Cell)
      requires Sized()
      reads this`nTweak
      ensures IsCell(x)
    {
      CellAt(hash(n, nTweak, key), data.Length)
    }

    function LabelAt(x: Cell): (tag: nat)
      requires IsCell(x)
      reads data
      ensures tag <= 3
    {
      Label(data[x.pair], data[x.pair + 1], x.bit)
    }

    /** How many of the newest keys the filter stands for. */
    ghost function Window(): nat
      reads this
    {
      var n := 2 * nEntriesPerGeneration + nEntriesThisGeneration;
      if n <= |log| then n else |log|
    }

    ghost function Age(d: nat): nat
      reads this
    {
      KeyAge(d, nEntriesThisGeneration, nEntriesPerGeneration)
    }

    /** A cell of a key in the window is set, with the key's generation or a later one. */
    ghost predicate Keeps(d: nat, n: nat)
      requires Shaped() && d < |log|
      reads this, data
    {
      var tag := LabelAt(CellOf(n, log[d]));
      1 <= tag && LabelAge(tag, nGeneration) <= Age(d)
    }

    /** The cell's label stems from the `d`-th newest key. */
    ghost predicate StemsFrom(x: Cell, d: nat, n: nat)
      requires Shaped() && IsCell(x)
      reads this, data
    {
      && d < Window() && n < nHashFuncs
      && CellOf(n, log[d]) == x && LabelAge(LabelAt(x), nGeneration) == Age(d)
    }

    ghost predicate Traced(x: Cell)
      requires Shaped() && IsCell(x)
      reads this, data
    {
      LabelAt(x) != 0 ==> exists d: nat, n: nat :: StemsFrom(x, d, n)
    }

    ghost predicate Valid()
      reads this, data
    {
      && Shaped()
      && (forall d: nat, n: nat | d < Window() && n < nHashFuncs :: Keeps(d, n))
      && (forall x | IsCell(x) :: Traced(x))
    }

    /** Some key in the window has a hash that falls on the cell. */
    ghost predicate Hit(x: Cell)
      requires Shaped()
      reads this
    {
      exists d: nat, m: nat :: d < Window() && m < nHashFuncs && CellAt(hash(m, nTweak, log[d]), data.Length) == x
    }

    /** What a plain Bloom filter over the keys in the window answers. */
    ghost predicate Has(key: Key)
      requires Shaped()
      reads this
    {
      forall n: nat | n < nHashFuncs :: Hit(CellAt(hash(n, nTweak, key), data.Length))
    }

    lemma CellSetExactlyWhenHit(x: Cell)
      requires Valid() && IsCell(x)
      ensures LabelAt(x) != 0 <==> Hit(x)
    {
      if LabelAt(x) != 0 {
        assert Traced(x);
        var d: nat, n: nat :| StemsFrom(x, d, n);
      }
      if Hit(x) {
        var d: nat, m: nat :| d < Window() && m < nHashFuncs && CellAt(hash(m, nTweak, log[d]), data.Length) == x;
        assert Keeps(d, m);
      }
    }

    /** Keys in the window are never lost: the last 2 * nEntriesPerGeneration + 1, and often more. */
    lemma WindowRemembered(d: nat)
      requires Shaped() && d < Window()
      ensures Has(log[d])
    {
      forall n: nat | n < nHashFuncs ensures Hit(CellAt(hash(n, nTweak, log[d]), data.Length)) { }
    }

    constructor (nElements: nat, nHashFuncs: nat, nFilterBits: nat, tweak: nat, hash: (nat, nat, Key) -> bv32)
      requires 1 <= nHashFuncs <= 50
      ensures fresh(data) && log == [] && (0 < nFilterBits ==> Valid()) && (data.Length == 0 <==> nFilterBits == 0)
      ensures nElements <= 2 * nEntriesPerGeneration <= nElements + 1
      ensures data.Length * 32 >= nFilterBits
    {
      this.hash := hash;
      this.nHashFuncs := nHashFuncs;
      nEntriesPerGeneration := (nElements + 1) / 2;
      data := new bv64[(nFilterBits + 63) / 64 * 2];
      nGeneration := 1;
      new;
      Reset(tweak);
    }

    method Reset(tweak: nat)
      requires data.Length % 2 == 0 && 0 < nHashFuncs
      modifies this, data
      ensures log == [] && nTweak == tweak && nEntriesThisGeneration == 0 && (0 < data.Length ==> Valid())
    {
      nTweak := tweak;
      nEntriesThisGeneration := 0;
      nGeneration := 1;
      log := [];
      for i := 0 to data.Length
        invariant nGeneration == 1 && log == [] && nTweak == tweak && nEntriesThisGeneration == 0
        invariant forall j | 0 <= j < i :: data[j] == 0
      {
        data[i] := 0;
      }
      forall x | IsCell(x) ensures Traced(x) { LabelUnset(x.bit); }
    }

    /** Clears every cell with the current label. */
    method Wipe()
      requires Shaped()
      modifies data
      ensures forall x | IsCell(x) :: LabelAt(x) == if old(LabelAt(x)) == nGeneration then 0 else old(LabelAt(x))
    {
      hide Label, WipeMask, And;
      var p := 0;
      while p < data.Length
        invariant 0 <= p <= data.Length && p % 2 == 0
        invariant forall x | IsCell(x) :: LabelAt(x) == if x.pair < p && old(LabelAt(x)) == nGeneration then 0 else old(LabelAt(x))
      {
        label step:
        var p1, p2 := data[p], data[p + 1];
        var mask := WipeMask(p1, p2, nGeneration);
        data[p] := And(p1, mask);
        data[p + 1] := And(p2, mask);
        forall x | IsCell(x)
          ensures LabelAt(x) == if x.pair < p + 2 && old(LabelAt(x)) == nGeneration then 0 else old(LabelAt(x))
        {
          if x.pair == p { WipeLabels(p1, p2, nGeneration, x.bit); }
          assert x.pair != p ==> LabelAt(x) == old@step(LabelAt(x));
        }
        p := p + 2;
      }
    }

    /** Starts the next generation, dropping whatever its label was last used for. */
    method Rotate()
      requires Valid() && nEntriesThisGeneration == nEntriesPerGeneration
      modifies this`nEntriesThisGeneration, this`nGeneration, data
      ensures Valid() && nEntriesThisGeneration == 0
    {
      hide LabelAt, LabelAge, CellOf;
      nEntriesThisGeneration := 0;
      nGeneration := nGeneration + 1;
      if nGeneration == 4 {
        nGeneration := 1;
      }
      Wipe();
      forall d: nat, n: nat | d < Window() && n < nHashFuncs ensures Keeps(d, n) {
        assert old(Keeps(d, n));
        NextAge(old(LabelAt(CellOf(n, log[d]))), old(nGeneration));
      }
      forall x | IsCell(x) ensures Traced(x) {
        assert old(Traced(x));
        if LabelAt(x) != 0 {
          NextAge(old(LabelAt(x)), old(nGeneration));
          var d: nat, n: nat :| old(StemsFrom(x, d, n));
          assert StemsFrom(x, d, n);
        }
      }
    }

    /** Writes the current generation into one cell. */
    method Mark(x: Cell)
      requires Shaped() && IsCell(x)
      modifies data
      ensures forall y | IsCell(y) :: LabelAt(y) == if y == x then nGeneration else old(LabelAt(y))
    {
      hide Label, Write;
      var w1, w2 := data[x.pair], data[x.pair + 1];
      data[x.pair] := Write(data[x.pair], x.bit, Low(nGeneration));
      data[x.pair + 1] := Write(data[x.pair + 1], x.bit, High(nGeneration));
      forall y | IsCell(y) ensures LabelAt(y) == if y == x then nGeneration else old(LabelAt(y)) {
        if y.pair == x.pair { WriteLabels(w1, w2, x.bit, nGeneration, y.bit); }
      }
    }

    /** One of the first `n` hashes of the key falls on the cell. */
    ghost predicate Among(x: Cell, n: nat, key: Key)
      requires Sized()
      reads this`nTweak
    {
      exists m: nat :: m < n && CellOf(m, key) == x
    }

    /** Writes the current generation into every cell of a key. */
    method MarkAll(key: Key)
      requires Shaped()
      modifies data
      ensures forall y | IsCell(y) :: LabelAt(y) == if Among(y, nHashFuncs, key) then nGeneration else old(LabelAt(y))
    {
      hide LabelAt, CellOf;
      for n := 0 to nHashFuncs
        invariant forall y | IsCell(y) :: LabelAt(y) == if Among(y, n, key) then nGeneration else old(LabelAt(y))
      {
        label step:
        Mark(CellOf(n, key));
        forall y | IsCell(y)
          ensures LabelAt(y) == if Among(y, n + 1, key) then nGeneration else old(LabelAt(y))
        {
          assert CellOf(n, key) == y ==> Among(y, n + 1, key);
          assert LabelAt(y) == if y == CellOf(n, key) then nGeneration else old@step(LabelAt(y));
        }
      }
    }

    /** Inserts a key: it becomes the newest of those the filter stands for. */
    method Insert(key: Key)
      requires Valid()
      modifies this`nEntriesThisGeneration, this`nGeneration, this`log, data
      ensures Valid() && log == [key] + old(log) && 0 < nEntriesThisGeneration
      ensures nEntriesThisGeneration == if old(nEntriesThisGeneration) == nEntriesPerGeneration then 1 else old(nEntriesThisGeneration) + 1
    {
      hide LabelAt, LabelAge, CellOf;
      if nEntriesThisGeneration == nEntriesPerGeneration {
        Rotate();
      }
      label before:
      nEntriesThisGeneration := nEntriesThisGeneration + 1;
      log := [key] + log;
      MarkAll(key);
      assert forall d: nat :: Age(d + 1) == old@before(Age(d));
      forall d: nat, n: nat | d < Window() && n < nHashFuncs ensures Keeps(d, n) {
        var x := CellOf(n, log[d]);
        if d == 0 {
          assert Among(x, nHashFuncs, key);
          CurrentAge(nGeneration);
        } else {
          assert old@before(Keeps(d - 1, n));
          CurrentAge(nGeneration);
        }
      }
      forall x | IsCell(x) ensures Traced(x) {
        if Among(x, nHashFuncs, key) {
          var m: nat :| m < nHashFuncs && CellOf(m, key) == x;
          CurrentAge(nGeneration);
          assert StemsFrom(x, 0, m);
        } else {
          assert old@before(Traced(x));
          if LabelAt(x) != 0 {
            var d: nat, n: nat :| old@before(StemsFrom(x, d, n));
            assert log[d + 1] == old@before(log[d]);
            assert StemsFrom(x, d + 1, n);
          }
        }
      }
    }

    /** Answers exactly as a plain Bloom filter over the keys in the window would. */
    method Contains(key: Key) returns (r: bool)
      requires Valid()
      ensures r == Has(key)
    {
      hide Bit, Or, Label;
      for n := 0 to nHashFuncs
        invariant forall m: nat | m < n :: Hit(CellAt(hash(m, nTweak, key), data.Length))
      {
        var x := CellOf(n, key);
        CellSetExactlyWhenHit(x);
        LabelSet(data[x.pair], data[x.pair + 1], x.bit);
        if !Bit(Or(data[x.pair], data[x.pair + 1]), x.bit) {
          return false;
        }
      }
      return true;
    }

    /** After any sequence of inserts, each of the last 2 * nEntriesPerGeneration + 1 keys is contained. */
    method Run(keys: seq<Key>)
      requires Valid()
      modifies this`nEntriesThisGeneration, this`nGeneration, this`log, data
      ensures Valid()
      ensures |log| == |keys| + old(|log|) && forall i | 0 <= i < |keys| :: log[|keys| - 1 - i] == keys[i]
      ensures forall i | 0 <= i < |keys| && |keys| - (2 * nEntriesPerGeneration + 1) <= i :: Has(keys[i])
    {
      for i := 0 to |keys|
        invariant Valid() && |log| == i + old(|log|)
        invariant forall j | 0 <= j < i :: log[i - 1 - j] == keys[j]
        invariant 0 < i ==> 0 < nEntriesThisGeneration
      {
        Insert(keys[i]);
      }
      forall i | 0 <= i < |keys| && |keys| - (2 * nEntriesPerGeneration + 1) <= i ensures Has(keys[i]) {
        WindowRemembered(|keys| - 1 - i);
      }
    }
  }
}
