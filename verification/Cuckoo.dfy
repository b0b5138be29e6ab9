/** The cuckoo cache: eight candidate slots per element, eviction by displacement, and epochs. */
module Cuckoo {
  import opened Wrappers
  import opened ArithSpec
  import opened CuckooSpec

  const NHASHES := 8
  const INVALID := 0xffff_ffff

  /** `std::find`: the first index of a value, or the length. */
  function IndexOf(locs: seq<nat>, loc: nat): (k: nat)
    ensures k <= |locs| && (k < |locs| ==> locs[k] == loc) && forall i | 0 <= i < k :: locs[i] != loc
  {
    if locs == [] then 0 else if locs[0] == loc then 0 else 1 + IndexOf(locs[1..], loc)
  }

  /** 45 percent of the slots, computed in 32 bits. */
  function EpochSize(size: nat): (n: nat)
    ensures n >= 1
  {
    Max(1, 45 * size % 0x1_0000_0000 / 100)
  }

  lemma EpochSizeWraps(size: nat)
    ensures EpochSize(size) == Max(1, 45 * size / 100) <==> 45 * size < 0x1_0000_0000
  {
    var p := 45 * size;
    if 0x1_0000_0000 <= p {
      assert p % 0x1_0000_0000 <= p - 0x1_0000_0000;
      assert p % 0x1_0000_0000 / 100 <= (p - 0x1_0000_0000) / 100 < p / 100;
    }
  }

  /** The 32-bit product is exact for tables of up to 2^26 slots, and for no larger one. */
  lemma EpochSizeExactlyWhen(depth: nat)
    requires 0 < depth < 32
    ensures EpochSize(Pow2(depth)) == Max(1, 45 * Pow2(depth) / 100) <==> depth <= 26
  {
    EpochSizeWraps(Pow2(depth));
    assert Pow2(13) == 8192;
    Pow2Add(13, 13);
    hide Pow2, EpochSize;
    if depth <= 26 { Pow2Mono(depth, 26); } else { Pow2Mono(26, depth); }
  }

  class Cache<E(==, !new)> {
    const hash: (nat, E) -> nat
    const size: nat
    const depth_limit: nat
    const epoch_size: nat
    const table: array<E>
    const collected: array<bool>
    const recent: array<bool>
    var counter: nat

    /** The candidate slots of an element. */
    function Locs(e: E): (locs: seq<nat>)
      requires size > 0
      ensures |locs| == NHASHES && forall i | 0 <= i < NHASHES :: locs[i] < size && locs[i] == hash(i, e) % size
    {
      seq(NHASHES, i requires 0 <= i < NHASHES => hash(i, e) % size)
    }

    /** How many live entries the current epoch may hold at most. */
    function Allowance(): nat { epoch_size + Max(1, epoch_size / 16) }

    ghost predicate Shaped() {
      && size > 0 && size == table.Length == collected.Length == recent.Length && collected != recent
      && table as object != collected && table as object != recent && 0 < depth_limit && 0 < epoch_size
    }

    ghost function Alive(): multiset<E>
      requires Shaped()
      reads table, collected
    {
      Live(table[..], collected[..])
    }

    ghost function AliveRecent(): nat
      requires Shaped()
      reads collected, recent
    {
      LiveRecent(collected[..], recent[..])
    }

    /** Live elements sit in one of their candidate slots. */
    ghost predicate Placed()
      requires Shaped()
      reads table, collected
    {
      forall i | 0 <= i < size :: !collected[i] ==> i in Locs(table[i])
    }

    ghost predicate Valid()
      reads this, table, collected, recent
    {
      Shaped() && Placed() && AliveRecent() + counter <= Allowance()
    }

    /** The element is in one of its candidate slots. */
    ghost predicate Findable(e: E)
      requires Shaped()
      reads table
    {
      exists i | 0 <= i < NHASHES :: table[Locs(e)[i]] == e
    }

    lemma AliveFindable(e: E)
      requires Shaped() && Placed() && e in Alive()
      ensures Findable(e)
    {
      var i := LiveSlot(table[..], collected[..], e);
      assert i in Locs(table[i]);
    }

    /** `setup`, for a table of 2^depth slots. */
    constructor (hash: (nat, E) -> nat, depth: nat, default: E)
      requires 0 < depth < 32
      ensures Valid() && fresh(table) && fresh(collected) && fresh(recent)
      ensures size == Pow2(depth) && depth_limit == depth && Alive() == multiset{}
      ensures this.hash == hash && epoch_size == EpochSize(size) && counter == epoch_size
      ensures forall i | 0 <= i < size :: table[i] == default && collected[i] && !recent[i]
    {
      this.hash := hash;
      depth_limit := depth;
      size := Pow2(depth);
      epoch_size := EpochSize(Pow2(depth));
      counter := EpochSize(Pow2(depth));
      table := new E[Pow2(depth)](_ => default);
      collected := new bool[Pow2(depth)](_ => true);
      recent := new bool[Pow2(depth)](_ => false);
      new;
      NoneRecent(collected[..], recent[..]);
      NoneAlive(table[..], collected[..]);
    }

    /** Counts the live entries of the current epoch. */
    method CountRecent() returns (n: nat)
      requires Shaped()
      ensures n == AliveRecent()
    {
      n := 0;
      for i := 0 to size
        invariant n == LiveRecent(collected[..i], recent[..i])
      {
        RecentTake(collected[..], recent[..], i);
        assert collected[..][..i] == collected[..i] && recent[..][..i] == recent[..i];
        assert collected[..][..i + 1] == collected[..i + 1] && recent[..][..i + 1] == recent[..i + 1];
        if recent[i] && !collected[i] {
          n := n + 1;
        }
      }
      assert collected[..size] == collected[..] && recent[..size] == recent[..];
    }

    /** Ages the epochs: the old epoch becomes collectable, the current one becomes old. */
    method Age()
      requires Shaped() && Placed()
      modifies collected, recent
      ensures Placed() && AliveRecent() == 0
      ensures forall i | 0 <= i < size :: collected[i] == old(collected[i] || !recent[i]) && !recent[i]
    {
      for i := 0 to size
        invariant forall j | 0 <= j < i :: collected[j] == old(collected[j] || !recent[j]) && !recent[j]
        invariant forall j | i <= j < size :: collected[j] == old(collected[j]) && recent[j] == old(recent[j])
      {
        if recent[i] {
          recent[i] := false;
        } else {
          collected[i] := true;
        }
      }
      NoneRecent(collected[..], recent[..]);
    }

    /** A snapshot of a table of this size. */
    ghost predicate Sized(s: Snap<E>) { size > 0 && size == |s.table| == |s.collected| == |s.recent| }

    /** What is done before every insert: count down, or scan and age the epochs once the current one is full. */
    ghost predicate EpochChecked(s: Snap<E>, s': Snap<E>)
      requires Sized(s) && Sized(s')
    {
      var live := LiveRecent(s.collected, s.recent);
      if s.counter != 0 then
        s' == s.(counter := s.counter - 1)
      else if epoch_size <= live then
        && s'.table == s.table && s'.counter == epoch_size
        && forall i | 0 <= i < size :: s'.collected[i] == (s.collected[i] || !s.recent[i]) && !s'.recent[i]
      else
        s' == s.(counter := Max(1, Max(epoch_size / 16, epoch_size - live)))
    }

    /** Run before every insert; leaves room for one more live entry of the current epoch. */
    method EpochCheck()
      requires Valid()
      modifies this`counter, collected, recent
      ensures Shaped() && Placed() && AliveRecent() + counter + 1 <= Allowance()
      ensures EpochChecked(old(Now()), Now())
    {
      if counter != 0 {
        counter := counter - 1;
        return;
      }
      var unused := CountRecent();
      if unused >= epoch_size {
        Age();
        counter := epoch_size;
      } else {
        counter := Max(1, Max(epoch_size / 16, epoch_size - unused));
      }
    }

    /** Candidate slot `k` is the first to hold the element. */
    ghost predicate FirstHolding(e: E, table: seq<E>, k: nat)
      requires |table| == size > 0
    {
      k < NHASHES && table[Locs(e)[k]] == e && forall i | 0 <= i < k :: table[Locs(e)[i]] != e
    }

    /** Candidate slot `k` is the first that may be overwritten. */
    ghost predicate FirstFree(e: E, collected: seq<bool>, k: nat)
      requires |collected| == size > 0
    {
      k < NHASHES && collected[Locs(e)[k]] && forall i | 0 <= i < k :: !collected[Locs(e)[i]]
    }

    /** None of the eight candidate slots may be overwritten. */
    ghost predicate Crowded(e: E, collected: seq<bool>)
      requires |collected| == size > 0
    {
      forall i | 0 <= i < NHASHES :: !collected[Locs(e)[i]]
    }

    /** The first candidate slot that holds the element, or 8. */
    method FindSlot(e: E) returns (k: nat)
      requires Shaped()
      ensures if k < NHASHES then FirstHolding(e, table[..], k) else k == NHASHES && !Findable(e)
    {
      var locs := Locs(e);
      for i := 0 to NHASHES
        invariant forall j | 0 <= j < i :: table[locs[j]] != e
      {
        if table[locs[i]] == e {
          return i;
        }
      }
      return NHASHES;
    }

    /** The first candidate slot that may be overwritten, or 8. */
    method FreeSlot(e: E) returns (k: nat)
      requires Shaped()
      ensures if k < NHASHES then FirstFree(e, collected[..], k) else k == NHASHES && Crowded(e, collected[..])
    {
      var locs := Locs(e);
      for i := 0 to NHASHES
        invariant forall j | 0 <= j < i :: !collected[locs[j]]
      {
        if collected[locs[i]] {
          return i;
        }
      }
      return NHASHES;
    }

    /** Writes a slot and marks it as one to keep. */
    method Keep(loc: nat, e: E, epoch: bool)
      requires Shaped() && Placed() && loc < size && loc in Locs(e)
      requires collected[loc] || table[loc] == e
      modifies table, collected, recent
      ensures Placed() && collected[..] == old(collected[..])[loc := false]
      ensures table[..] == old(table[..])[loc := e] && recent[..] == old(recent[..])[loc := epoch]
      ensures old(collected[loc]) ==> Alive() == old(Alive()) + multiset{e}
      ensures !old(collected[loc]) ==> Alive() == old(Alive())
      ensures e in Alive()
      ensures AliveRecent() <= old(AliveRecent()) + if epoch then 1 else 0
    {
      hide Live, LiveRecent;
      ghost var t, c, r := table[..], collected[..], recent[..];
      LiveUpdate(t, c, loc, e, false);
      RecentUpdate(c, r, loc, false, epoch);
      table[loc] := e;
      collected[loc] := false;
      recent[loc] := epoch;
      assert table[..] == t[loc := e] && collected[..] == c[loc := false] && recent[..] == r[loc := epoch];
      SlotAlive(table[..], collected[..], loc);
    }

    /** Puts an element into a live slot and takes out the one that was there. */
    method Displace(loc: nat, e: E, epoch: bool) returns (e': E, epoch': bool)
      requires Shaped() && Placed() && loc < size && loc in Locs(e) && !collected[loc]
      modifies table, recent
      ensures Placed() && Alive() + multiset{e'} == old(Alive()) + multiset{e}
      ensures AliveRecent() + (if epoch' then 1 else 0) == old(AliveRecent()) + if epoch then 1 else 0
      ensures e' == old(table[loc]) && epoch' == old(recent[loc])
      ensures table[..] == old(table[..])[loc := e] && recent[..] == old(recent[..])[loc := epoch]
    {
      hide Live, LiveRecent;
      ghost var t, c, r := table[..], collected[..], recent[..];
      LiveUpdate(t, c, loc, e, false);
      RecentUpdate(c, r, loc, false, epoch);
      e', epoch' := table[loc], recent[loc];
      table[loc] := e;
      recent[loc] := epoch;
      assert table[..] == t[loc := e] && recent[..] == r[loc := epoch] && collected[..] == c[loc := false];
    }

    /** Every element wanted is found, except those given up. */
    ghost predicate Covers(e: E, mid: multiset<E>, lost: multiset<E>)
      requires Shaped()
      reads table
    {
      forall x | x == e || x in mid :: x in lost || Findable(x)
    }

    lemma Covered(e: E, mid: multiset<E>, lost: multiset<E>)
      requires Shaped() && Placed() && mid + multiset{e} <= Alive() + lost
      ensures Covers(e, mid, lost)
    {
      hide Live, Findable;
      forall x | x == e || x in mid ensures x in lost || Findable(x) {
        assert x in mid + multiset{e};
        if x !in lost { AliveFindable(x); }
      }
    }

    /** The element was there already: the first slot that holds it is one to keep, in the current epoch. */
    ghost predicate Refound(e: E, s: Snap<E>, s': Snap<E>)
      requires Sized(s) && Sized(s')
    {
      exists k: nat :: FirstHolding(e, s.table, k) && s'.table == s.table
                       && s'.collected == s.collected[Locs(e)[k] := false] && s'.recent == s.recent[Locs(e)[k] := true]
    }

    /** One displacement: with all its candidate slots live, the element in hand takes the slot after the last one. */
    ghost predicate Displaces(h: Hand<E>, h': Hand<E>, collected: seq<bool>)
      requires |collected| == size > 0
    {
      && |h.table| == |h.recent| == size && Crowded(h.e, collected)
      && h'.loc == Locs(h.e)[(1 + IndexOf(Locs(h.e), h.loc)) % NHASHES]
      && h'.e == h.table[h'.loc] && h'.table == h.table[h'.loc := h.e]
      && h'.epoch == h.recent[h'.loc] && h'.recent == h.recent[h'.loc := h.epoch]
    }

    /** The elements in hand from the new one on, each displaced by the one before it. */
    ghost predicate Walk(e: E, s: Snap<E>, hands: seq<Hand<E>>)
      requires Sized(s)
    {
      && 1 <= |hands| <= depth_limit + 1 && hands[0] == Hand(e, true, INVALID, s.table, s.recent)
      && forall i | 0 <= i < |hands| - 1 :: Displaces(hands[i], hands[i + 1], s.collected)
    }

    /** The element in hand goes to its first free slot. */
    ghost predicate Settles(h: Hand<E>, s: Snap<E>, s': Snap<E>)
      requires Sized(s) && Sized(s')
    {
      && |h.table| == |h.recent| == size
      && exists k: nat :: FirstFree(h.e, s.collected, k) && s'.table == h.table[Locs(h.e)[k] := h.e]
                          && s'.collected == s.collected[Locs(h.e)[k] := false]
                          && s'.recent == h.recent[Locs(h.e)[k] := h.epoch]
    }

    /** How a walk ends: out of depth, with the last element in hand lost, or with it settled and none lost. */
    ghost predicate Ends(hands: seq<Hand<E>>, s: Snap<E>, s': Snap<E>, lost: multiset<E>)
      requires Sized(s) && Sized(s') && |hands| >= 1
    {
      var h := hands[|hands| - 1];
      if |hands| == depth_limit + 1 then
        lost == multiset{h.e} && s' == s.(table := h.table, recent := h.recent, counter := s'.counter)
      else
        lost == multiset{} && Settles(h, s, s')
    }

    /** What an insert does to a table whose epochs have been checked. */
    ghost predicate Inserted(e: E, s: Snap<E>, s': Snap<E>, hands: seq<Hand<E>>, lost: multiset<E>)
      requires Sized(s) && Sized(s')
    {
      && s'.counter == s.counter
      && if exists k | 0 <= k < NHASHES :: s.table[Locs(e)[k]] == e then
           lost == multiset{} && Refound(e, s, s')
         else
           && Walk(e, s, hands) && Ends(hands, s, s', lost)
           && Live(s'.table, s'.collected) + lost == Live(s.table, s.collected) + multiset{e}
    }

    /** An element with a free candidate slot is stored in the first one, and nothing is displaced or lost. */
    lemma StoredWhenRoom(e: E, s: Snap<E>, s': Snap<E>, hands: seq<Hand<E>>, lost: multiset<E>)
      requires Sized(s) && Sized(s') && depth_limit > 0 && Inserted(e, s, s', hands, lost)
      requires forall k | 0 <= k < NHASHES :: s.table[Locs(e)[k]] != e
      requires exists k | 0 <= k < NHASHES :: s.collected[Locs(e)[k]]
      ensures lost == multiset{} && e in Live(s'.table, s'.collected)
      ensures exists k: nat :: FirstFree(e, s.collected, k) && s'.table == s.table[Locs(e)[k] := e]
                               && s'.collected == s.collected[Locs(e)[k] := false] && s'.recent == s.recent[Locs(e)[k] := true]
    {
      hide Live;
      assert !Crowded(e, s.collected);
      assert |hands| > 1 ==> Displaces(hands[0], hands[1], s.collected);
      assert Settles(hands[0], s, s');
      var k: nat :| FirstFree(e, s.collected, k) && s'.table == s.table[Locs(e)[k] := e]
                    && s'.collected == s.collected[Locs(e)[k] := false] && s'.recent == s.recent[Locs(e)[k] := true];
      SlotAlive(s'.table, s'.collected, Locs(e)[k]);
    }

    /** Something is lost exactly after `depth_limit` displacements, each by an element with no free candidate slot. */
    lemma LostExactlyWhen(e: E, s: Snap<E>, s': Snap<E>, hands: seq<Hand<E>>, lost: multiset<E>)
      requires Sized(s) && Sized(s') && Inserted(e, s, s', hands, lost)
      requires forall k | 0 <= k < NHASHES :: s.table[Locs(e)[k]] != e
      ensures lost != multiset{} <==> |hands| == depth_limit + 1
      ensures forall i | 0 <= i < |hands| - 1 :: Crowded(hands[i].e, s.collected)
      ensures lost == multiset{} <==> !Crowded(hands[|hands| - 1].e, s.collected) && |hands| <= depth_limit
    {
      hide Live;
      var h := hands[|hands| - 1];
      if |hands| <= depth_limit {
        var k: nat :| FirstFree(h.e, s.collected, k);
        assert !Crowded(h.e, s.collected);
      }
      forall i | 0 <= i < |hands| - 1 ensures Crowded(hands[i].e, s.collected) {
        assert Displaces(hands[i], hands[i + 1], s.collected);
      }
    }

    /** In a snapshot, live elements sit in one of their candidate slots. */
    ghost predicate PlacedIn(table: seq<E>, collected: seq<bool>)
      requires |table| == |collected| == size > 0
    {
      forall i | 0 <= i < size :: !collected[i] ==> i in Locs(table[i])
    }

    /** Along a walk the element in hand always comes from one of its own candidate slots. */
    lemma {:induction false} FromOwnSlot(e: E, s: Snap<E>, hands: seq<Hand<E>>, i: nat)
      requires Sized(s) && PlacedIn(s.table, s.collected) && Walk(e, s, hands) && i < |hands|
      ensures |hands[i].table| == |hands[i].recent| == size && PlacedIn(hands[i].table, s.collected)
      ensures i > 0 ==> hands[i].loc in Locs(hands[i].e) && hands[i].table[hands[i].loc] == hands[i - 1].e
    {
      if i > 0 {
        FromOwnSlot(e, s, hands, i - 1);
        assert Displaces(hands[i - 1], hands[i], s.collected);
        PlacedOn(hands[i - 1], hands[i], s.collected);
      }
    }

    lemma PlacedOn(h: Hand<E>, h': Hand<E>, flags: seq<bool>)
      requires |flags| == size > 0 && Displaces(h, h', flags) && PlacedIn(h.table, flags)
      ensures PlacedIn(h'.table, flags) && h'.loc in Locs(h'.e)
    {
      hide IndexOf;
      var k := (1 + IndexOf(Locs(h.e), h.loc)) % NHASHES;
      assert h'.loc == Locs(h.e)[k] && !flags[Locs(h.e)[k]];
    }

    /** The element just put in is not displaced at once, exactly when its slot is not the next candidate too. */
    lemma StaysPutExactlyWhen(e: E, s: Snap<E>, hands: seq<Hand<E>>, i: nat)
      requires Sized(s) && PlacedIn(s.table, s.collected) && Walk(e, s, hands) && 0 < i < |hands| - 1
      ensures hands[i + 1].loc != hands[i].loc <==> !Repeated(Locs(hands[i].e), hands[i].loc)
      ensures hands[i].loc < |hands[i + 1].table|
      ensures hands[i + 1].loc != hands[i].loc ==> hands[i + 1].table[hands[i].loc] == hands[i - 1].e
    {
      FromOwnSlot(e, s, hands, i);
      assert Displaces(hands[i], hands[i + 1], s.collected);
      hide Walk, IndexOf, PlacedIn;
      NextCandidate(Locs(hands[i].e), hands[i].loc);
    }

    /** Every candidate slot of every element is slot 0. */
    ghost predicate OneSlot() { size > 0 && forall e, i | 0 <= i < NHASHES :: hash(i, e) % size == 0 }

    lemma ZeroAged(s: Snap<E>, s': Snap<E>)
      requires OneSlot() && Sized(s) && Sized(s') && EpochChecked(s, s')
      ensures s'.table == s.table && (s.collected[0] ==> s'.collected[0])
      ensures !s.collected[0] && s.recent[0] ==> !s'.collected[0]
    {
      hide LiveRecent;
    }

    lemma ZeroStored(e: E, s: Snap<E>, s': Snap<E>, hands: seq<Hand<E>>, lost: multiset<E>)
      requires OneSlot() && Sized(s) && Sized(s') && depth_limit > 0 && Inserted(e, s, s', hands, lost)
      requires s.collected[0] && s.table[0] != e
      ensures s'.table == s.table[0 := e] && !s'.collected[0] && s'.recent[0]
    {
      hide Inserted, Live;
      assert forall k | 0 <= k < NHASHES :: Locs(e)[k] == 0;
      assert s.collected[Locs(e)[0]];
      StoredWhenRoom(e, s, s', hands, lost);
    }

    lemma ZeroBounced(a: E, e: E, s: Snap<E>, s': Snap<E>, hands: seq<Hand<E>>, lost: multiset<E>)
      requires OneSlot() && Sized(s) && Sized(s') && depth_limit == 2 && Inserted(e, s, s', hands, lost)
      requires !s.collected[0] && s.table[0] == a != e
      ensures |hands| == 3 && hands[0].e == e && hands[1].e == a && hands[2].e == e && hands[1].loc == hands[2].loc
      ensures s'.table[0] == a
    {
      hide Live, IndexOf;
      assert forall x, k | 0 <= k < NHASHES :: Locs(x)[k] == 0;
      assert s.table[Locs(e)[0]] == a;
      assert |hands| == 3;
      assert Displaces(hands[0], hands[1], s.collected);
      assert Displaces(hands[1], hands[2], s.collected);
    }

    /** Inserts an element. Of it and all elements live after the epoch check (`mid`), at most one is lost. */
    method Insert(e: E) returns (ghost mid: Snap<E>, ghost hands: seq<Hand<E>>, ghost lost: multiset<E>)
      requires Valid()
      modifies this`counter, table, collected, recent
      ensures Valid() && |lost| <= 1 && Sized(mid) && EpochChecked(old(Now()), mid)
      ensures Inserted(e, mid, Now(), hands, lost)
      ensures !old(Findable(e)) && !Crowded(e, mid.collected) ==> lost == multiset{} && e in Alive()
      ensures !old(Findable(e)) && lost != multiset{} ==>
                |hands| == depth_limit + 1 && forall i | 0 <= i < depth_limit :: Crowded(hands[i].e, mid.collected)
      ensures old(Findable(e)) ==> e in Alive()
      ensures Covers(e, Live(mid.table, mid.collected), lost)
    {
      hide Live, LiveRecent, Covers, EpochChecked, Inserted, FirstHolding, Walk, Ends, Crowded;
      EpochCheck();
      mid, hands, lost := Now(), [], multiset{};
      var k := FindSlot(e);
      FoundOrNot(e, mid.table, k);
      if k < NHASHES {
        Keep(Locs(e)[k], e, true);
        CoveredAgain(e, Live(mid.table, mid.collected));
        InsertedAgain(e, mid, Now(), k);
        return;
      }
      hands, lost := Displacing(e);
      Covered(e, Live(mid.table, mid.collected), lost);
      InsertedNew(e, mid, Now(), hands, lost);
      LostExactlyWhen(e, mid, Now(), hands, lost);
      RoomOrNot(e, mid, Now(), hands, lost);
    }

    lemma FoundOrNot(e: E, was: seq<E>, k: nat)
      requires |was| == size > 0 && (k < NHASHES ==> FirstHolding(e, was, k))
      ensures k < NHASHES ==> was[Locs(e)[k]] == e
    {
    }

    lemma InsertedAgain(e: E, s: Snap<E>, s': Snap<E>, k: nat)
      requires Sized(s) && Sized(s') && FirstHolding(e, s.table, k) && s'.table == s.table && s'.counter == s.counter
      requires s'.collected == s.collected[Locs(e)[k] := false] && s'.recent == s.recent[Locs(e)[k] := true]
      ensures Inserted(e, s, s', [], multiset{})
    {
      hide Live;
    }

    lemma InsertedNew(e: E, s: Snap<E>, s': Snap<E>, hands: seq<Hand<E>>, lost: multiset<E>)
      requires Sized(s) && Sized(s') && s'.counter == s.counter && forall k | 0 <= k < NHASHES :: s.table[Locs(e)[k]] != e
      requires Walk(e, s, hands) && Ends(hands, s, s', lost)
      requires Live(s'.table, s'.collected) + lost == Live(s.table, s.collected) + multiset{e}
      ensures Inserted(e, s, s', hands, lost)
    {
      hide Live, Walk, Ends;
    }

    lemma RoomOrNot(e: E, s: Snap<E>, s': Snap<E>, hands: seq<Hand<E>>, lost: multiset<E>)
      requires Sized(s) && Sized(s') && depth_limit > 0 && Inserted(e, s, s', hands, lost)
      requires forall k | 0 <= k < NHASHES :: s.table[Locs(e)[k]] != e
      ensures Crowded(e, s.collected) || (lost == multiset{} && e in Live(s'.table, s'.collected))
    {
      hide Live, Inserted;
      if !Crowded(e, s.collected) { StoredWhenRoom(e, s, s', hands, lost); }
    }

    lemma CoveredAgain(e: E, mid: multiset<E>)
      requires Shaped() && Placed() && mid <= Alive() && e in Alive()
      ensures Covers(e, mid, multiset{})
    {
      hide Live, Findable;
      forall x | x == e || x in mid ensures Findable(x) { AliveFindable(x); }
    }

    /** The displacement loop: the element in hand goes to a free slot, or takes the place of another. */
    method Displacing(e: E) returns (ghost hands: seq<Hand<E>>, ghost lost: multiset<E>)
      requires Shaped() && Placed()
      modifies table, collected, recent
      ensures Placed() && AliveRecent() <= old(AliveRecent()) + 1
      ensures Alive() + lost == old(Alive()) + multiset{e} && |lost| <= 1
      ensures Walk(e, old(Now()), hands) && Ends(hands, old(Now()), Now(), lost)
    {
      hide Live, LiveRecent, Walk, Ends, FirstFree, Crowded, IndexOf, Placed, Locs, Alive, AliveRecent, Displaces;
      var last_loc: nat := INVALID;
      var last_epoch := true;
      var cur := e;
      var locs := Locs(e);
      hands := [Hand(e, true, INVALID, table[..], recent[..])];
      WalkStarts(e, Now());
      for depth := 0 to depth_limit
        invariant Placed() && locs == Locs(cur) && collected[..] == old(collected[..])
        invariant Alive() + multiset{cur} == old(Alive()) + multiset{e}
        invariant AliveRecent() + (if last_epoch then 1 else 0) == old(AliveRecent()) + 1
        invariant |hands| == depth + 1 && hands[depth] == Hand(cur, last_epoch, last_loc, table[..], recent[..])
        invariant Walk(e, old(Now()), hands)
      {
        var k := FreeSlot(cur);
        SlotIsFree(cur, collected[..], k);
        if k < NHASHES {
          Keep(locs[k], cur, last_epoch);
          lost := multiset{};
          EndsSettled(hands, old(Now()), Now(), k);
          return;
        }
        var at := IndexOf(locs, last_loc);
        last_loc := locs[(1 + at) % NHASHES];
        cur, last_epoch := Displace(last_loc, cur, last_epoch);
        locs := Locs(cur);
        ghost var h' := Hand(cur, last_epoch, last_loc, table[..], recent[..]);
        DisplacedAt(hands[depth], h', at, old(collected[..]));
        WalksOn(e, old(Now()), hands, h');
        hands := hands + [h'];
      }
      lost := multiset{cur};
      EndsLost(hands, old(Now()), Now());
    }

    lemma DisplacedAt(h: Hand<E>, h': Hand<E>, at: nat, flags: seq<bool>)
      requires |flags| == |h.table| == |h.recent| == size > 0 && Crowded(h.e, flags)
      requires at == IndexOf(Locs(h.e), h.loc) && h'.loc == Locs(h.e)[(1 + at) % NHASHES]
      requires h'.e == h.table[h'.loc] && h'.table == h.table[h'.loc := h.e]
      requires h'.epoch == h.recent[h'.loc] && h'.recent == h.recent[h'.loc := h.epoch]
      ensures Displaces(h, h', flags)
    {
      hide Crowded, Locs, IndexOf;
    }

    lemma WalkStarts(e: E, s: Snap<E>)
      requires Sized(s)
      ensures Walk(e, s, [Hand(e, true, INVALID, s.table, s.recent)])
    {
    }

    lemma WalksOn(e: E, s: Snap<E>, hands: seq<Hand<E>>, h: Hand<E>)
      requires Sized(s) && 1 <= |hands| <= depth_limit && Walk(e, s, hands)
      requires Displaces(hands[|hands| - 1], h, s.collected)
      ensures Walk(e, s, hands + [h])
    {
      hide Displaces;
    }

    lemma SlotIsFree(e: E, flags: seq<bool>, k: nat)
      requires |flags| == size > 0
      requires if k < NHASHES then FirstFree(e, flags, k) else Crowded(e, flags)
      ensures k < NHASHES ==> flags[Locs(e)[k]]
      ensures k >= NHASHES ==> forall i | 0 <= i < NHASHES :: !flags[Locs(e)[i]]
    {
    }

    lemma EndsSettled(hands: seq<Hand<E>>, s: Snap<E>, s': Snap<E>, k: nat)
      requires Sized(s) && Sized(s') && 1 <= |hands| <= depth_limit
      requires var h := hands[|hands| - 1];
               && |h.table| == |h.recent| == size
               && FirstFree(h.e, s.collected, k) && s'.table == h.table[Locs(h.e)[k] := h.e]
               && s'.collected == s.collected[Locs(h.e)[k] := false] && s'.recent == h.recent[Locs(h.e)[k] := h.epoch]
      ensures Ends(hands, s, s', multiset{})
    {
      hide FirstFree;
    }

    lemma EndsLost(hands: seq<Hand<E>>, s: Snap<E>, s': Snap<E>)
      requires Sized(s) && Sized(s') && |hands| == depth_limit + 1 && s'.collected == s.collected
      requires s'.table == hands[|hands| - 1].table && s'.recent == hands[|hands| - 1].recent
      ensures Ends(hands, s, s', multiset{hands[|hands| - 1].e})
    {
    }

    /** Looks an element up; on request a found one becomes collectable, but it stays findable. */
    method Contains(e: E, erase: bool) returns (found: bool)
      requires Valid()
      modifies collected
      ensures Valid() && found == Findable(e)
      ensures !(erase && found) ==> forall i | 0 <= i < size :: collected[i] == old(collected[i])
      ensures erase && found ==>
                exists k: nat :: FirstHolding(e, table[..], k) && collected[..] == old(collected[..])[Locs(e)[k] := true]
    {
      var k := FindSlot(e);
      if k == NHASHES {
        return false;
      }
      if erase {
        ghost var c := collected[..];
        ghost var loc := Locs(e)[k];
        RecentUpdate(c, recent[..], loc, true, recent[loc]);
        assert recent[..][loc := recent[loc]] == recent[..];
        collected[Locs(e)[k]] := true;
        assert collected[..] == c[loc := true];
      }
      return true;
    }

    ghost function Now(): Snap<E>
      reads this, table, collected, recent
    {
      Snap(table[..], collected[..], recent[..], counter)
    }

    /** What an operation does to the cache, and what a lookup answers. */
    ghost predicate Did(op: Op<E>, s: Snap<E>, s': Snap<E>, found: bool)
      requires Sized(s) && Sized(s')
    {
      match op
      case OpInsert(e) =>
        exists mid: Snap<E>, hands: seq<Hand<E>>, lost: multiset<E> ::
          Sized(mid) && EpochChecked(s, mid) && Inserted(e, mid, s', hands, lost)
      case OpContains(e, erase) =>
        && s'.table == s.table && s'.recent == s.recent && s'.counter == s.counter
        && (found <==> exists k | 0 <= k < NHASHES :: s.table[Locs(e)[k]] == e)
        && if erase && found then
             exists k: nat :: FirstHolding(e, s.table, k) && s'.collected == s.collected[Locs(e)[k] := true]
           else
             s'.collected == s.collected
    }

    method Perform(op: Op<E>) returns (found: bool)
      requires Valid()
      modifies this`counter, table, collected, recent
      ensures Valid() && Did(op, old(Now()), Now(), found)
    {
      hide Live, LiveRecent, Covers, Inserted, EpochChecked;
      found := false;
      match op {
        case OpInsert(e) =>
          ghost var mid, hands, lost := Insert(e);
        case OpContains(e, erase) =>
          found := Contains(e, erase);
          assert collected[..] == old(collected[..]) || (erase && found);
      }
    }

    /** In every run, each operation has its effect and the live entries of the current epoch stay within the allowance. */
    method Run(ops: seq<Op<E>>) returns (answers: seq<bool>, ghost trace: seq<Snap<E>>)
      requires Valid()
      modifies this`counter, table, collected, recent
      ensures Valid() && AliveRecent() <= epoch_size + Max(1, epoch_size / 16)
      ensures |answers| == |ops| && |trace| == |ops| + 1 && trace[0] == old(Now()) && trace[|ops|] == Now()
      ensures forall i | 0 <= i <= |ops| :: Sized(trace[i])
      ensures forall i | 0 <= i < |ops| :: Did(ops[i], trace[i], trace[i + 1], answers[i])
    {
      hide Live, LiveRecent, Findable, Covers, Did;
      answers, trace := [], [Now()];
      for i := 0 to |ops|
        invariant Valid() && |answers| == i && |trace| == i + 1 && trace[0] == old(Now()) && trace[i] == Now()
        invariant forall j | 0 <= j <= i :: Sized(trace[j])
        invariant forall j | 0 <= j < i :: Did(ops[j], trace[j], trace[j + 1], answers[j])
      {
        var found := Perform(ops[i]);
        answers, trace := answers + [found], trace + [Now()];
      }
    }
  }

  /** The contents of the cache at one moment. */
  datatype Snap<E> = Snap(table: seq<E>, collected: seq<bool>, recent: seq<bool>, counter: nat)

  /** The element in hand and its epoch flag, the slot it came from, and the table and epoch flags at that moment. */
  datatype Hand<E> = Hand(e: E, epoch: bool, loc: nat, table: seq<E>, recent: seq<bool>)

  datatype Op<E> = OpInsert(e: E) | OpContains(e: E, erase: bool)

  function AlwaysZero(i: nat, x: nat): nat { 0 }

  /** Where all hashes agree, the element just put in is the next to be displaced, and so the new one is lost. */
  method MovedAtOnce(a: nat, b: nat) returns (cache: Cache<nat>, ghost hands: seq<Hand<nat>>, found: bool)
    requires a != 0 && b != 0 && a != b
    ensures cache.Valid() && !found
    ensures |hands| == 3 && hands[0].e == b && hands[1].e == a && hands[2].e == b && hands[1].loc == hands[2].loc
  {
    hide Live, LiveRecent, EpochSize, Cache.Inserted, Cache.EpochChecked, Cache.Crowded, Cache.Placed, Cache.AliveRecent, Cache.Alive, Cache.Covers;
    Two();
    cache := new Cache<nat>(AlwaysZero, 2, 0);
    ghost var start := cache.Now();
    ghost var mid, lost;
    mid, hands, lost := cache.Insert(a);
    cache.ZeroAged(start, mid);
    cache.ZeroStored(a, mid, cache.Now(), hands, lost);
    ghost var between := cache.Now();
    mid, hands, lost := cache.Insert(b);
    cache.ZeroAged(between, mid);
    cache.ZeroBounced(a, b, mid, cache.Now(), hands, lost);
    found := cache.Contains(b, false);
  }

  lemma Two()
    ensures Pow2(2) == 4
  {
  }

  /** With no slot looked at yet, the first element displaced is the one in the second candidate slot. */
  lemma FirstDisplaced(locs: seq<nat>)
    requires |locs| == NHASHES && forall i | 0 <= i < NHASHES :: locs[i] < INVALID
    ensures (1 + IndexOf(locs, INVALID)) % NHASHES == 1
  {
    var k := IndexOf(locs, INVALID);
    assert forall i | 0 <= i < NHASHES :: locs[i] != INVALID;
  }

  /** The first candidate slot that is `loc` is followed by the same slot again. */
  ghost predicate Repeated(locs: seq<nat>, loc: nat) {
    exists k: nat :: FirstAt(locs, loc, k) && k + 1 < |locs| && locs[k + 1] == loc
  }

  ghost predicate FirstAt(locs: seq<nat>, loc: nat, k: nat) {
    k < |locs| && locs[k] == loc && forall j | 0 <= j < k :: locs[j] != loc
  }

  lemma NextCandidate(locs: seq<nat>, loc: nat)
    requires |locs| == NHASHES && loc in locs
    ensures locs[(1 + IndexOf(locs, loc)) % NHASHES] != loc <==> !Repeated(locs, loc)
  {
    var k := IndexOf(locs, loc);
    assert FirstAt(locs, loc, k);
    assert k == NHASHES - 1 ==> locs[0] != loc && (1 + k) % NHASHES == 0;
  }

  lemma {:induction false} NoneAlive<E>(table: seq<E>, collected: seq<bool>)
    requires |collected| == |table| && forall i | 0 <= i < |table| :: collected[i]
    ensures Live(table, collected) == multiset{}
  {
    if table != [] { NoneAlive(table[..|table| - 1], collected[..|table| - 1]); }
  }

  // ----- the packed collection flags

  function Mask(k: nat): bv8
    requires k < 8
  {
    1 << k
  }

  /** Bit `k` of a byte, and the byte with it set or cleared. */
  predicate Has(m: bv8, k: nat)
    requires k < 8
  {
    m & Mask(k) != 0
  }

  function With(m: bv8, k: nat): bv8
    requires k < 8
  {
    m | Mask(k)
  }

  function Without(m: bv8, k: nat): bv8
    requires k < 8
  {
    m & !Mask(k)
  }

  lemma Masks()
    ensures Mask(0) == 1 && Mask(1) == 2 && Mask(2) == 4 && Mask(3) == 8
    ensures Mask(4) == 16 && Mask(5) == 32 && Mask(6) == 64 && Mask(7) == 128
  {
  }

  lemma OrSets(m: bv8, k: nat, j: nat)
    requires k < 8 && j < 8
    ensures Has(With(m, k), j) <==> k == j || Has(m, j)
  {
    Masks();
  }

  lemma AndClears(m: bv8, k: nat, j: nat)
    requires k < 8 && j < 8
    ensures Has(Without(m, k), j) <==> k != j && Has(m, j)
  {
    Masks();
  }

  lemma AllSet(k: nat)
    requires k < 8
    ensures Has(0xff, k)
  {
    Masks();
  }

  /** Flags packed eight to a byte behave like an array of booleans that starts all true. */
  class BitPackedFlags {
    const mem: array<bv8>
    const size: nat

    ghost predicate Valid() { 8 * mem.Length >= size }

    predicate IsSet(s: nat)
      requires s < 8 * mem.Length
      reads mem
    {
      Has(mem[s / 8], s % 8)
    }

    constructor (size: nat)
      ensures Valid() && this.size == size && fresh(mem)
      ensures forall s: nat | s < size :: IsSet(s)
    {
      this.size := size;
      mem := new bv8[(size + 7) / 8](_ => 0xff);
      new;
      hide Has;
      forall s: nat | s < size ensures IsSet(s) { AllSet(s % 8); }
    }

    method BitSet(s: nat)
      requires Valid() && s < size
      modifies mem
      ensures forall j: nat | j < size :: IsSet(j) <==> j == s || old(IsSet(j))
    {
      hide Has, With;
      ghost var m := mem[s / 8];
      mem[s / 8] := With(mem[s / 8], s % 8);
      forall j: nat | j < size ensures IsSet(j) <==> j == s || old(IsSet(j)) {
        OrSets(m, s % 8, j % 8);
      }
    }

    method BitUnset(s: nat)
      requires Valid() && s < size
      modifies mem
      ensures forall j: nat | j < size :: IsSet(j) <==> j != s && old(IsSet(j))
    {
      hide Has, Without;
      ghost var m := mem[s / 8];
      mem[s / 8] := Without(mem[s / 8], s % 8);
      forall j: nat | j < size ensures IsSet(j) <==> j != s && old(IsSet(j)) {
        AndClears(m, s % 8, j % 8);
      }
    }
  }
}
