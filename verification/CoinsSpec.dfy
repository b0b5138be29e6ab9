/** The unspent-output view as values: what one cache layer means on top of the view below it,
    and what each cache operation does to that meaning. */
module CoinsSpec {
  import opened Wrappers

  type Hash = nat // a 256-bit hash; 0 is the null hash

  const NULL_HASH: Hash := 0
  const OP_RETURN := 0x6a
  const MAX_SCRIPT_SIZE := 10000

  datatype OutPoint = OutPoint(hash: Hash, n: nat)

  /** An output with the height and coinbase bit of its transaction; `heap` is the dynamic memory of its script. */
  datatype Coin = Coin(nValue: int, script: seq<int>, fCoinBase: bool, nHeight: nat, heap: nat) {
    predicate IsSpent() { nValue == -1 }

    predicate IsUnspendable() {
      (|script| > 0 && script[0] == OP_RETURN) || |script| > MAX_SCRIPT_SIZE
    }
  }

  const CLEARED := Coin(-1, [], false, 0, 0)

  datatype Entry = Entry(coin: Coin, isDirty: bool, isFresh: bool)

  type CoinsMap = map<OutPoint, Entry>
  type Utxo = map<OutPoint, Coin>

  predicate AllUnspent(view: Utxo) {
    forall o <- view :: !view[o].IsSpent()
  }

  /** The flat view that a layer presents on top of the view below. */
  function Overlay(layer: CoinsMap, below: Utxo): (view: Utxo)
    ensures AllUnspent(below) ==> AllUnspent(view)
  {
    map o | o in layer.Keys + below.Keys && (o in layer ==> !layer[o].coin.IsSpent())
      :: if o in layer then layer[o].coin else below[o]
  }

  /** What the two flags of an entry promise about the view below. */
  predicate EntryOk(o: OutPoint, e: Entry, below: Utxo) {
    && (e.isFresh ==> o !in below)
    && (!e.isDirty ==> if e.coin.IsSpent() then o !in below else o in below && below[o] == e.coin)
  }

  predicate LayerOk(layer: CoinsMap, below: Utxo) {
    forall o <- layer :: EntryOk(o, layer[o], below)
  }

  lemma EmptyLayer(below: Utxo)
    requires AllUnspent(below)
    ensures LayerOk(map[], below) && Overlay(map[], below) == below && Usage(map[]) == 0
  {
  }

  // ----- AddCoin

  predicate AddThrows(layer: CoinsMap, o: OutPoint, coin: Coin, overwrite: bool) {
    !coin.IsUnspendable() && !overwrite && o in layer && !layer[o].coin.IsSpent()
  }

  /** The layer after `AddCoin` when it does not throw. */
  function Added(layer: CoinsMap, o: OutPoint, coin: Coin, overwrite: bool): CoinsMap {
    if coin.IsUnspendable() then layer else
    var was := if o in layer then layer[o] else Entry(CLEARED, false, false);
    layer[o := Entry(coin, true, was.isFresh || (!overwrite && !was.isDirty))]
  }

  /** Adding without the overwrite permission keeps the flags sound, and does not throw,
      exactly when the view below the addition has no unspent coin at that outpoint. */
  lemma AddSoundExactlyWhenAbsent(layer: CoinsMap, below: Utxo, o: OutPoint, coin: Coin)
    requires AllUnspent(below) && LayerOk(layer, below)
    requires !coin.IsSpent() && !coin.IsUnspendable()
    ensures (!AddThrows(layer, o, coin, false) && LayerOk(Added(layer, o, coin, false), below))
            <==> o !in Overlay(layer, below)
  {
    var after := Added(layer, o, coin, false);
    if o !in Overlay(layer, below) {
      forall p <- after ensures EntryOk(p, after[p], below) {
        if p != o { assert EntryOk(p, layer[p], below); }
        else if p in layer { assert EntryOk(p, layer[p], below); }
      }
    } else if !AddThrows(layer, o, coin, false) {
      assert o !in layer && o in below;
      assert !EntryOk(o, after[o], below);
    }
  }

  /** Adding over a coin that only the view below has: nothing is refused, and spending brings the old coin back. */
  lemma AddOverBase(o: OutPoint, there: Coin, coin: Coin)
    requires !there.IsSpent() && !coin.IsSpent() && !coin.IsUnspendable()
    ensures var below := map[o := there];
            && !AddThrows(map[], o, coin, false) && !LayerOk(Added(map[], o, coin, false), below)
            && Overlay(Spent(Added(map[], o, coin, false), o), below) == below
  {
    var below := map[o := there];
    AddSoundExactlyWhenAbsent(map[], below, o, coin);
    assert Spent(Added(map[], o, coin, false), o) == map[];
  }

  lemma AddRefines(layer: CoinsMap, below: Utxo, o: OutPoint, coin: Coin, overwrite: bool)
    requires AllUnspent(below) && LayerOk(layer, below) && !coin.IsSpent()
    requires overwrite || o !in Overlay(layer, below)
    ensures !AddThrows(layer, o, coin, overwrite)
    ensures LayerOk(Added(layer, o, coin, overwrite), below)
    ensures Overlay(Added(layer, o, coin, overwrite), below)
            == if coin.IsUnspendable() then Overlay(layer, below) else Overlay(layer, below)[o := coin]
  {
    var after := Added(layer, o, coin, overwrite);
    if !coin.IsUnspendable() {
      forall p <- after ensures EntryOk(p, after[p], below) {
        if p in layer { assert EntryOk(p, layer[p], below); }
      }
    }
  }

  // ----- FetchCoin, SpendCoin, Uncache

  /** The layer after `FetchCoin`: a coin found only below is copied in with no flags. */
  function Fetched(layer: CoinsMap, below: Utxo, o: OutPoint): CoinsMap {
    if o in layer || o !in below then layer else layer[o := Entry(below[o], false, false)]
  }

  lemma FetchRefines(layer: CoinsMap, below: Utxo, o: OutPoint)
    requires AllUnspent(below) && LayerOk(layer, below)
    ensures LayerOk(Fetched(layer, below, o), below)
    ensures Overlay(Fetched(layer, below, o), below) == Overlay(layer, below)
  {
    var after := Fetched(layer, below, o);
    forall p <- after ensures EntryOk(p, after[p], below) {
      if p in layer { assert EntryOk(p, layer[p], below); }
    }
  }

  /** The layer after `SpendCoin` of an outpoint the layer holds. */
  function Spent(layer: CoinsMap, o: OutPoint): CoinsMap {
    if o !in layer then layer
    else if layer[o].isFresh then layer - {o}
    else layer[o := Entry(CLEARED, true, false)]
  }

  lemma SpendRefines(layer: CoinsMap, below: Utxo, o: OutPoint)
    requires AllUnspent(below) && LayerOk(layer, below)
    requires o in layer || o !in below
    ensures LayerOk(Spent(layer, o), below)
    ensures Overlay(Spent(layer, o), below) == Overlay(layer, below) - {o}
  {
    SpendKeepsFlags(layer, below, o);
    if o in layer { assert EntryOk(o, layer[o], below); }
    hide EntryOk;
    var was, now := Overlay(layer, below) - {o}, Overlay(Spent(layer, o), below);
    forall p ensures Agree(now, was, p) { }
    AgreeEverywhere(now, was);
  }

  lemma SpendKeepsFlags(layer: CoinsMap, below: Utxo, o: OutPoint)
    requires AllUnspent(below) && LayerOk(layer, below)
    ensures LayerOk(Spent(layer, o), below)
  {
    var after := Spent(layer, o);
    forall p <- after ensures EntryOk(p, after[p], below) {
      assert EntryOk(p, layer[p], below);
    }
  }

  /** The layer after `Uncache`. */
  function Uncached(layer: CoinsMap, o: OutPoint): CoinsMap {
    if o in layer && !layer[o].isDirty && !layer[o].isFresh then layer - {o} else layer
  }

  lemma UncacheRefines(layer: CoinsMap, below: Utxo, o: OutPoint)
    requires AllUnspent(below) && LayerOk(layer, below)
    ensures LayerOk(Uncached(layer, o), below)
    ensures Overlay(Uncached(layer, o), below) == Overlay(layer, below)
  {
    var after := Uncached(layer, o);
    forall p <- after ensures EntryOk(p, after[p], below) {
      assert EntryOk(p, layer[p], below);
    }
    if o in layer { assert EntryOk(o, layer[o], below); }
  }

  // ----- BatchWrite

  /** The entry, if any, that `BatchWrite` leaves in the parent at `o`. */
  function MergedEntry(parent: CoinsMap, child: CoinsMap, o: OutPoint): Option<Entry> {
    if o !in child || !child[o].isDirty then
      if o in parent then Some(parent[o]) else None
    else if o !in parent then
      if child[o].isFresh && child[o].coin.IsSpent() then None
      else Some(Entry(child[o].coin, true, child[o].isFresh))
    else if parent[o].isFresh && child[o].coin.IsSpent() then None
    else Some(Entry(child[o].coin, true, parent[o].isFresh))
  }

  /** The parent after writing every entry of the child into it. */
  function Merged(parent: CoinsMap, child: CoinsMap): CoinsMap {
    map o | o in parent.Keys + child.Keys && MergedEntry(parent, child, o).Some?
      :: MergedEntry(parent, child, o).value
  }

  /** The entry on which `BatchWrite` throws: FRESH in the child, unspent in the parent. */
  predicate Misapplied(parent: CoinsMap, child: CoinsMap, o: OutPoint) {
    o in child && child[o].isDirty && child[o].isFresh && o in parent && !parent[o].coin.IsSpent()
  }

  /** Writing a sound child into its sound parent never throws, leaves the parent sound over the
      grandparent, and leaves the parent showing exactly what the child showed. */
  lemma MergeRefines(child: CoinsMap, parent: CoinsMap, grand: Utxo)
    requires AllUnspent(grand) && LayerOk(parent, grand) && LayerOk(child, Overlay(parent, grand))
    ensures forall o :: !Misapplied(parent, child, o)
    ensures LayerOk(Merged(parent, child), grand)
    ensures Overlay(Merged(parent, child), grand) == Overlay(child, Overlay(parent, grand))
  {
    var below := Overlay(parent, grand);
    var after := Merged(parent, child);
    forall o ensures !Misapplied(parent, child, o) {
      if o in child { assert EntryOk(o, child[o], below); }
    }
    forall o <- after ensures EntryOk(o, after[o], grand) {
      MergedEntryOk(child, parent, grand, o);
    }
    forall o
      ensures o in Overlay(after, grand) <==> o in Overlay(child, below)
      ensures o in Overlay(after, grand) ==> Overlay(after, grand)[o] == Overlay(child, below)[o]
    {
      if o in child { assert EntryOk(o, child[o], below); }
      if o in parent { assert EntryOk(o, parent[o], grand); }
    }
  }

  lemma MergedEntryOk(child: CoinsMap, parent: CoinsMap, grand: Utxo, o: OutPoint)
    requires AllUnspent(grand) && LayerOk(parent, grand) && LayerOk(child, Overlay(parent, grand))
    requires MergedEntry(parent, child, o).Some?
    ensures EntryOk(o, MergedEntry(parent, child, o).value, grand)
  {
    if o in child { assert EntryOk(o, child[o], Overlay(parent, grand)); }
    if o in parent { assert EntryOk(o, parent[o], grand); }
  }

  /** The database after a batch: dirty entries are written, or erased when spent. */
  function WrittenBack(db: Utxo, child: CoinsMap): Utxo {
    map o | o in db.Keys + child.Keys
            && (if o in child && child[o].isDirty then !child[o].coin.IsSpent() else o in db)
      :: if o in child && child[o].isDirty then child[o].coin else db[o]
  }

  ghost predicate Agree<V(!new)>(a: map<OutPoint, V>, b: map<OutPoint, V>, o: OutPoint) {
    (o in a <==> o in b) && (o in a ==> a[o] == b[o])
  }

  lemma AgreeEverywhere<V(!new)>(a: map<OutPoint, V>, b: map<OutPoint, V>)
    requires forall o :: Agree(a, b, o)
    ensures a == b
  {
    assert forall o :: o in a ==> Agree(a, b, o);
    assert forall o :: o in b ==> Agree(a, b, o);
    assert a.Keys == b.Keys;
  }

  /** While entries are merged one by one, those still in `rest` are as at the start, the others as they will be. */
  ghost predicate Merging(now: CoinsMap, start: CoinsMap, child: CoinsMap, rest: CoinsMap) {
    forall o :: Agree(now, if o in rest then start else Merged(start, child), o)
  }

  lemma MergeStart(start: CoinsMap, child: CoinsMap)
    ensures Merging(start, start, child, child)
  {
  }

  lemma MergeStep(now: CoinsMap, start: CoinsMap, child: CoinsMap, rest: CoinsMap, o: OutPoint, next: CoinsMap)
    requires Merging(now, start, child, rest) && o in rest && o in child
    requires var m := MergedEntry(now, map[o := child[o]], o);
             next == if !child[o].isDirty then now else if m.Some? then now[o := m.value] else now - {o}
    ensures Merging(next, start, child, rest - {o})
  {
    assert Agree(now, start, o);
    forall p ensures Agree(next, if p in rest - {o} then start else Merged(start, child), p) {
      assert Agree(now, if p in rest then start else Merged(start, child), p);
    }
  }

  lemma MergePartial(now: CoinsMap, start: CoinsMap, child: CoinsMap, rest: CoinsMap)
    requires Merging(now, start, child, rest)
    ensures forall o :: Agree(now, start, o) || Agree(now, Merged(start, child), o)
    ensures forall o <- rest :: Agree(now, start, o)
    ensures rest == map[] ==> now == Merged(start, child)
  {
    forall o ensures Agree(now, start, o) || Agree(now, Merged(start, child), o) {
      assert Agree(now, if o in rest then start else Merged(start, child), o);
    }
    if rest == map[] { AgreeEverywhere(now, Merged(start, child)); }
  }

  lemma WriteBackRefines(child: CoinsMap, db: Utxo)
    requires AllUnspent(db) && LayerOk(child, db)
    ensures WrittenBack(db, child) == Overlay(child, db)
  {
    forall o
      ensures o in WrittenBack(db, child) <==> o in Overlay(child, db)
      ensures o in WrittenBack(db, child) ==> WrittenBack(db, child)[o] == Overlay(child, db)[o]
    {
      if o in child { assert EntryOk(o, child[o], db); }
    }
  }

  // ----- memory accounting

  /** The dynamic memory of all coins of a layer. */
  ghost function Usage(layer: CoinsMap): nat {
    if layer == map[] then 0
    else var o :| o in layer; layer[o].coin.heap + Usage(layer - {o})
  }

  lemma {:induction false} UsageRemove(layer: CoinsMap, o: OutPoint)
    requires o in layer
    ensures Usage(layer) == layer[o].coin.heap + Usage(layer - {o})
    decreases |layer|
  {
    var p :| p in layer && Usage(layer) == layer[p].coin.heap + Usage(layer - {p});
    if p != o {
      UsageRemove(layer - {p}, o);
      UsageRemove(layer - {o}, p);
      assert layer - {p} - {o} == layer - {o} - {p};
    }
  }

  lemma UsageUpdate(layer: CoinsMap, o: OutPoint, e: Entry)
    ensures Usage(layer[o := e])
            == Usage(layer) + e.coin.heap - (if o in layer then layer[o].coin.heap else 0)
  {
    UsageRemove(layer[o := e], o);
    if o in layer {
      UsageRemove(layer, o);
      assert layer[o := e] - {o} == layer - {o};
    } else {
      assert layer[o := e] - {o} == layer;
    }
  }

  // ----- the flat map that any run of a stack of caches must look like

  datatype Op =
    | Get(o: OutPoint)
    | Add(o: OutPoint, coin: Coin, overwrite: bool)
    | Spend(o: OutPoint)
    | Drop(o: OutPoint)   // Uncache
    | FlushAt(level: nat) // flush the cache that many levels below the top

  /** What callers must respect: never add a spent coin, and deny overwriting only where nothing is unspent. */
  predicate Legal(op: Op, view: Utxo) {
    op.Add? ==> !op.coin.IsSpent() && (op.overwrite || op.o !in view)
  }

  function FlatStep(view: Utxo, op: Op): (r: Utxo)
    requires Legal(op, view) && AllUnspent(view)
    ensures AllUnspent(r)
  {
    match op
    case Add(o, coin, _) => if coin.IsUnspendable() then view else view[o := coin]
    case Spend(o) => view - {o}
    case _ => view
  }

  /** The unspent coin an operation hands back. */
  function FlatAnswer(view: Utxo, op: Op): Option<Coin> {
    if (op.Get? || op.Spend?) && op.o in view then Some(view[op.o]) else None
  }

  predicate LegalRun(ops: seq<Op>, view: Utxo)
    requires AllUnspent(view)
    decreases |ops|
  {
    ops == [] || (Legal(ops[0], view) && LegalRun(ops[1..], FlatStep(view, ops[0])))
  }

  function FlatRun(view: Utxo, ops: seq<Op>): (r: Utxo)
    requires AllUnspent(view) && LegalRun(ops, view)
    ensures AllUnspent(r)
    decreases |ops|
  {
    if ops == [] then view else FlatRun(FlatStep(view, ops[0]), ops[1..])
  }

  function FlatAnswers(view: Utxo, ops: seq<Op>): (r: seq<Option<Coin>>)
    requires AllUnspent(view) && LegalRun(ops, view)
    ensures |r| == |ops|
    decreases |ops|
  {
    if ops == [] then [] else [FlatAnswer(view, ops[0])] + FlatAnswers(FlatStep(view, ops[0]), ops[1..])
  }

  lemma RunNothing(view: Utxo)
    requires AllUnspent(view)
    ensures LegalRun([], view) && FlatRun(view, []) == view && FlatAnswers(view, []) == []
  {
  }

  lemma RunNext(view: Utxo, ops: seq<Op>)
    requires AllUnspent(view) && LegalRun(ops, view) && ops != []
    ensures Legal(ops[0], view) && LegalRun(ops[1..], FlatStep(view, ops[0]))
    ensures FlatRun(view, ops) == FlatRun(FlatStep(view, ops[0]), ops[1..])
    ensures FlatAnswers(view, ops) == [FlatAnswer(view, ops[0])] + FlatAnswers(FlatStep(view, ops[0]), ops[1..])
  {
  }
}
