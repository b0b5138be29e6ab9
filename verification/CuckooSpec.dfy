/** What a cuckoo table holds, as sums over its slots. */
module CuckooSpec {
  import opened Wrappers

  /** The elements in slots that may not be overwritten. */
  function Live<E>(table: seq<E>, collected: seq<bool>): multiset<E>
    requires |collected| == |table|
  {
    if table == [] then multiset{} else
    var n := |table| - 1;
    Live(table[..n], collected[..n]) + Kept(table[n], collected[n])
  }

  /** The number of such slots that belong to the current epoch. */
  function LiveRecent(collected: seq<bool>, recent: seq<bool>): nat
    requires |recent| == |collected|
  {
    if collected == [] then 0 else
    var n := |collected| - 1;
    LiveRecent(collected[..n], recent[..n]) + (if !collected[n] && recent[n] then 1 else 0)
  }

  function Kept<E>(x: E, c: bool): multiset<E> { if c then multiset{} else multiset{x} }

  function Recent(c: bool, r: bool): nat { if !c && r then 1 else 0 }

  lemma {:induction false} LiveUpdate<E>(table: seq<E>, collected: seq<bool>, i: nat, x: E, c: bool)
    requires |collected| == |table| && i < |table|
    ensures Live(table[i := x], collected[i := c]) + Kept(table[i], collected[i]) == Live(table, collected) + Kept(x, c)
  {
    hide Kept;
    var n := |table| - 1;
    var was, now := Kept(table[i], collected[i]), Kept(x, c);
    if i < n {
      LiveUpdate(table[..n], collected[..n], i, x, c);
      assert table[i := x][..n] == table[..n][i := x] && collected[i := c][..n] == collected[..n][i := c];
      var last := Kept(table[n], collected[n]);
      SumSwap(Live(table[..n][i := x], collected[..n][i := c]), last, was);
      SumSwap(Live(table[..n], collected[..n]), last, now);
    } else {
      assert table[i := x][..n] == table[..n] && collected[i := c][..n] == collected[..n];
      SumSwap(Live(table[..n], collected[..n]), now, was);
    }
  }

  lemma {:induction false} RecentUpdate(collected: seq<bool>, recent: seq<bool>, i: nat, c: bool, r: bool)
    requires |recent| == |collected| && i < |recent|
    ensures LiveRecent(collected[i := c], recent[i := r]) + Recent(collected[i], recent[i])
            == LiveRecent(collected, recent) + Recent(c, r)
  {
    var n := |recent| - 1;
    if i < n {
      RecentUpdate(collected[..n], recent[..n], i, c, r);
      assert collected[i := c][..n] == collected[..n][i := c] && recent[i := r][..n] == recent[..n][i := r];
    } else {
      assert collected[i := c][..n] == collected[..n] && recent[i := r][..n] == recent[..n];
    }
  }

  lemma {:induction false} LiveSlot<E>(table: seq<E>, collected: seq<bool>, x: E) returns (i: nat)
    requires |collected| == |table| && x in Live(table, collected)
    ensures i < |table| && table[i] == x && !collected[i]
  {
    var n := |table| - 1;
    if !collected[n] && table[n] == x { i := n; } else { i := LiveSlot(table[..n], collected[..n], x); }
  }

  lemma {:induction false} SlotAlive<E>(table: seq<E>, collected: seq<bool>, i: nat)
    requires |collected| == |table| && i < |table| && !collected[i]
    ensures table[i] in Live(table, collected)
  {
    var n := |table| - 1;
    if i < n { SlotAlive(table[..n], collected[..n], i); }
  }

  /** Collecting more slots only shrinks what is live. */
  lemma {:induction false} LiveShrinks<E>(table: seq<E>, collected: seq<bool>, more: seq<bool>)
    requires |collected| == |table| == |more| && forall i | 0 <= i < |table| :: collected[i] ==> more[i]
    ensures Live(table, more) <= Live(table, collected)
  {
    if table != [] {
      var n := |table| - 1;
      LiveShrinks(table[..n], collected[..n], more[..n]);
    }
  }

  lemma {:induction false} NoneRecent(collected: seq<bool>, recent: seq<bool>)
    requires |recent| == |collected| && forall i | 0 <= i < |recent| :: collected[i] || !recent[i]
    ensures LiveRecent(collected, recent) == 0
  {
    if recent != [] { NoneRecent(collected[..|recent| - 1], recent[..|recent| - 1]); }
  }

  lemma RecentTake(collected: seq<bool>, recent: seq<bool>, i: nat)
    requires |recent| == |collected| && i < |recent|
    ensures LiveRecent(collected[..i + 1], recent[..i + 1])
            == LiveRecent(collected[..i], recent[..i]) + Recent(collected[i], recent[i])
  {
    assert collected[..i + 1][..i] == collected[..i] && recent[..i + 1][..i] == recent[..i];
  }
}
