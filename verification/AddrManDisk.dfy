/** The saved form of the address tables, what loading it builds, and the round trip. */
module AddrManDisk {
  import opened AddrManSpec

  /** The fields of an entry that are written out. */
  datatype Record = Record(service: Service, nTime: int, nServices: set<nat>, source: NetAddr, nLastSuccess: int, nAttempts: int)

  datatype Saved = Saved(
    nVersion: int, nNew: int, nTried: int, nUBuckets: int,
    news: seq<Record>, trieds: seq<Record>, buckets: seq<seq<int>>)

  function ToRecord(a: AddrInfo): Record {
    Record(a.service, a.nTime, a.nServices, a.source, a.nLastSuccess, a.nAttempts)
  }

  function FromRecord(r: Record, place: int): AddrInfo {
    AddrInfo(r.service, r.nTime, r.nServices, r.source, 0, 0, r.nLastSuccess, r.nAttempts, 0, false, place)
  }

  // ----- saving

  /** The ids below `n` that have references, ascending. */
  function NewOrder(info: map<Id, AddrInfo>, n: nat): (order: seq<Id>)
    ensures forall j | 0 <= j < |order| :: order[j] in info && info[order[j]].nRefCount != 0 && 0 <= order[j] < n
  {
    if n == 0 then [] else
    var before := NewOrder(info, n - 1);
    if n - 1 in info && info[n - 1].nRefCount != 0 then before + [n - 1] else before
  }

  /** The tried ids below `n`, ascending. */
  function TriedOrder(info: map<Id, AddrInfo>, n: nat): (order: seq<Id>)
    ensures forall j | 0 <= j < |order| :: order[j] in info && info[order[j]].fInTried && 0 <= order[j] < n
  {
    if n == 0 then [] else
    var before := TriedOrder(info, n - 1);
    if n - 1 in info && info[n - 1].fInTried then before + [n - 1] else before
  }

  /** The index under which an id with references is saved. */
  function Rank(info: map<Id, AddrInfo>, id: Id): int {
    if id < 0 then 0 else |NewOrder(info, id)|
  }

  function Records(info: map<Id, AddrInfo>, order: seq<Id>): (r: seq<Record>)
    requires forall j | 0 <= j < |order| :: order[j] in info
    ensures |r| == |order|
  {
    seq(|order|, j requires 0 <= j < |order| => ToRecord(info[order[j]]))
  }

  lemma SaveStart(info: map<Id, AddrInfo>)
    ensures Records(info, NewOrder(info, 0)) == [] && Records(info, TriedOrder(info, 0)) == []
  {
  }

  /** What the next id adds to the saved entries. */
  lemma SaveStep(info: map<Id, AddrInfo>, id: nat)
    ensures Rank(info, id) == |Records(info, NewOrder(info, id))|
    ensures Records(info, NewOrder(info, id + 1)) ==
            Records(info, NewOrder(info, id)) + if id in info && info[id].nRefCount != 0 then [ToRecord(info[id])] else []
    ensures Records(info, TriedOrder(info, id + 1)) ==
            Records(info, TriedOrder(info, id)) + if id in info && info[id].fInTried then [ToRecord(info[id])] else []
  {
  }

  /** The saved indexes of the first `i` cells of a new bucket; empty cells are skipped. */
  function BucketList(k: Book, b: int, i: nat): seq<int> {
    if i == 0 then [] else
    var before := BucketList(k, b, i - 1);
    if (b, i - 1) in k.newT then before + [Rank(k.info, k.newT[(b, i - 1)])] else before
  }

  function SavedOf(k: Book): Saved {
    var n: nat := if k.nIdCount < 0 then 0 else k.nIdCount;
    Saved(1, k.nNew, k.nTried, NEW_BUCKETS,
          Records(k.info, NewOrder(k.info, n)), Records(k.info, TriedOrder(k.info, n)),
          seq(NEW_BUCKETS, b => BucketList(k, b, BUCKET_SIZE)))
  }

  // ----- loading

  function LoadNewEntry(k: Book, r: Record): Book {
    var n := |k.random|;
    k.(info := k.info[n := FromRecord(r, n)], addr := k.addr[r.service := n], random := k.random + [n])
  }

  function LoadNews(k: Book, rs: seq<Record>): Book {
    if rs == [] then k else LoadNewEntry(LoadNews(k, rs[..|rs| - 1]), rs[|rs| - 1])
  }

  /** A tried entry whose slot is already taken is lost. */
  function LoadTriedEntry(k: Book, h: Hashes, r: Record): Book {
    var s := TriedSlot(h, r.service);
    if s in k.triedT then k.(nTried := k.nTried - 1)
    else k.(info := k.info[k.nIdCount := FromRecord(r, |k.random|).(fInTried := true)],
            addr := k.addr[r.service := k.nIdCount],
            random := k.random + [k.nIdCount],
            triedT := k.triedT[s := k.nIdCount],
            nIdCount := k.nIdCount + 1)
  }

  function LoadTrieds(k: Book, h: Hashes, rs: seq<Record>): Book {
    if rs == [] then k else LoadTriedEntry(LoadTrieds(k, h, rs[..|rs| - 1]), h, rs[|rs| - 1])
  }

  lemma NoTrieds(k: Book, h: Hashes)
    ensures LoadTrieds(k, h, []) == k
  {
  }

  lemma LoadTriedNext(k: Book, h: Hashes, rs: seq<Record>, n: nat)
    requires n < |rs|
    ensures LoadTrieds(k, h, rs[..n + 1]) == LoadTriedEntry(LoadTrieds(k, h, rs[..n]), h, rs[n])
  {
    assert rs[..n + 1][..n] == rs[..n];
  }

  function LoadRef(k: Book, h: Hashes, b: int, index: int): Book {
    if !(0 <= index < k.nNew && index in k.info) then k else
    var s := (b, Position(h, k.info[index].service, true, b));
    if s !in k.newT && k.info[index].nRefCount < BUCKETS_PER_ADDRESS
    then Referenced(k, s, index, k.info[index].nRefCount + 1) else k
  }

  function LoadBucket(k: Book, h: Hashes, b: int, indexes: seq<int>): Book {
    if indexes == [] then k
    else LoadRef(LoadBucket(k, h, b, indexes[..|indexes| - 1]), h, b, indexes[|indexes| - 1])
  }

  function LoadBuckets(k: Book, h: Hashes, buckets: seq<seq<int>>): Book {
    if buckets == [] then k
    else LoadBucket(LoadBuckets(k, h, buckets[..|buckets| - 1]), h, |buckets| - 1, buckets[|buckets| - 1])
  }

  /** Entries that a loaded book would prune: neither tried nor referenced. */
  function Orphans(k: Book): set<Id> { set id | id in k.info && !k.info[id].fInTried && k.info[id].nRefCount == 0 }

  function LoadedEntries(saved: Saved, h: Hashes): Book {
    var k1 := LoadNews(EMPTY.(nNew := saved.nNew, nTried := saved.nTried), saved.news);
    LoadTrieds(k1.(nIdCount := saved.nNew), h, saved.trieds)
  }

  /** The book that loading builds before it prunes. */
  function Loaded(saved: Saved, h: Hashes): Book {
    LoadBuckets(LoadedEntries(saved, h), h, saved.buckets)
  }

  // ----- the order in which entries are saved

  lemma {:induction false} NewOrderComplete(info: map<Id, AddrInfo>, n: nat, id: Id)
    requires id in info && info[id].nRefCount != 0 && 0 <= id < n
    ensures 0 <= Rank(info, id) < |NewOrder(info, n)| && NewOrder(info, n)[Rank(info, id)] == id
  {
    if id < n - 1 {
      NewOrderComplete(info, n - 1, id);
    }
  }

  lemma {:induction false} TriedOrderComplete(info: map<Id, AddrInfo>, n: nat, id: Id)
    requires id in info && info[id].fInTried && 0 <= id < n
    ensures id in TriedOrder(info, n)
  {
    if id < n - 1 {
      TriedOrderComplete(info, n - 1, id);
    }
  }

  lemma {:induction false} NewOrderDistinct(info: map<Id, AddrInfo>, n: nat)
    ensures forall i, j | 0 <= i < j < |NewOrder(info, n)| :: NewOrder(info, n)[i] != NewOrder(info, n)[j]
  {
    if n > 0 {
      NewOrderDistinct(info, n - 1);
    }
  }

  lemma {:induction false} TriedOrderDistinct(info: map<Id, AddrInfo>, n: nat)
    ensures forall i, j | 0 <= i < j < |TriedOrder(info, n)| :: TriedOrder(info, n)[i] != TriedOrder(info, n)[j]
  {
    if n > 0 {
      TriedOrderDistinct(info, n - 1);
    }
  }

  lemma {:induction false} NewOrderShort(info: map<Id, AddrInfo>, m: nat, n: nat)
    requires m < n && m in info && info[m].nRefCount != 0
    ensures |NewOrder(info, m)| < |NewOrder(info, n)|
  {
    if m < n - 1 { NewOrderShort(info, m, n - 1); }
  }

  lemma {:induction false} TriedOrderShort(info: map<Id, AddrInfo>, m: nat, n: nat)
    requires m < n && m in info && info[m].fInTried
    ensures |TriedOrder(info, m)| < |TriedOrder(info, n)|
  {
    if m < n - 1 { TriedOrderShort(info, m, n - 1); }
  }

  lemma {:induction false} OrderSize(order: seq<Id>, ids: set<Id>)
    requires forall i, j | 0 <= i < j < |order| :: order[i] != order[j]
    requires forall j | 0 <= j < |order| :: order[j] in ids
    requires forall id <- ids :: id in order
    ensures |order| == |ids|
  {
    if order != [] {
      var last := order[|order| - 1];
      OrderSize(order[..|order| - 1], ids - {last});
    } else {
      assert forall id <- ids :: id in order;
      assert ids == {};
    }
  }

  /** All ids in the order in which they are saved, which is the order of the ids they get when loaded. */
  function FullOrder(k: Book): seq<Id> {
    var n: nat := if k.nIdCount < 0 then 0 else k.nIdCount;
    NewOrder(k.info, n) + TriedOrder(k.info, n)
  }

  ghost predicate OrderOk(k: Book, order: seq<Id>) {
    && 0 <= k.nNew <= |order| && |order| == k.nNew + k.nTried
    && (forall j | 0 <= j < |order| :: order[j] in k.info && (k.info[order[j]].fInTried <==> k.nNew <= j))
    && (forall i, j | 0 <= i < j < |order| :: order[i] != order[j])
    && (forall id <- k.info :: id in order)
  }

  lemma FullOrderOk(k: Book, h: Hashes, dp: bool)
    requires Inv(k, h, dp)
    ensures OrderOk(k, FullOrder(k))
    ensures |NewOrder(k.info, k.nIdCount)| == k.nNew && |TriedOrder(k.info, k.nIdCount)| == k.nTried
  {
    var n := k.nIdCount;
    var news, trieds := NewOrder(k.info, n), TriedOrder(k.info, n);
    forall id <- k.info ensures id in news || id in trieds {
      assert KeyedAt(k, dp, id) && RefsAt(k, {}, id);
      if k.info[id].fInTried { TriedOrderComplete(k.info, n, id); } else { NewOrderComplete(k.info, n, id); }
    }
    forall j | 0 <= j < |news| ensures !k.info[news[j]].fInTried { assert RefsAt(k, {}, news[j]); }
    NewOrderDistinct(k.info, n);
    TriedOrderDistinct(k.info, n);
    forall id <- NewIds(k.info) ensures id in news { assert id in news || id in trieds; }
    forall id <- TriedIds(k.info) ensures id in trieds { assert id in news || id in trieds; }
    OrderSize(news, NewIds(k.info));
    OrderSize(trieds, TriedIds(k.info));
  }

  /** The three counts of entries agree. */
  lemma SizesAgree(k: Book, h: Hashes, dp: bool)
    requires Inv(k, h, dp)
    ensures |k.random| == k.nNew + k.nTried == |k.info.Keys|
  {
    assert NewIds(k.info) + TriedIds(k.info) == k.info.Keys;
    assert NewIds(k.info) !! TriedIds(k.info);
    forall i, j | 0 <= i < j < |k.random| ensures k.random[i] != k.random[j] { assert PlaceAt(k, i) && PlaceAt(k, j); }
    forall j | 0 <= j < |k.random| ensures k.random[j] in k.info.Keys { assert PlaceAt(k, j); }
    forall id <- k.info.Keys ensures id in k.random { assert RandomAt(k, id); }
    OrderSize(k.random, k.info.Keys);
  }

  lemma ServicesDistinct(k: Book, h: Hashes, dp: bool, order: seq<Id>, i: int, j: int)
    requires Inv(k, h, dp) && OrderOk(k, order) && 0 <= i < |order| && 0 <= j < |order| && i != j
    ensures k.info[order[i]].service != k.info[order[j]].service
  {
    assert KeyedAt(k, dp, order[i]) && KeyedAt(k, dp, order[j]);
    if i < j { assert order[i] != order[j]; } else { assert order[j] != order[i]; }
  }

  // ----- entries

  /** Entry `j` is the `j`-th of the original, with what is not saved forgotten: the last try, the last
      counted attempt, and (until the buckets are loaded) the references. */
  ghost predicate EntryLoaded(k': Book, k: Book, h: Hashes, order: seq<Id>, j: int)
    requires 0 <= j < |order| && order[j] in k.info
  {
    var a := k.info[order[j]];
    && j in k'.info
    && k'.info[j] == a.(nLastTry := 0, nLastCountAttempt := 0, nRefCount := k'.info[j].nRefCount, nRandomPos := j)
    && a.service in k'.addr && k'.addr[a.service] == j
    && (a.fInTried ==> TriedSlot(h, a.service) in k'.triedT && k'.triedT[TriedSlot(h, a.service)] == j)
  }

  /** The indexes hold the first `n` entries and nothing else. */
  ghost predicate FirstLoaded(k': Book, k: Book, h: Hashes, order: seq<Id>, n: int)
    requires OrderOk(k, order)
  {
    && 0 <= n <= |order| && k'.nNew == k.nNew && k'.nTried == k.nTried
    && |k'.random| == n && (forall j | 0 <= j < n :: k'.random[j] == j)
    && (forall id :: id in k'.info <==> 0 <= id < n)
    && (forall j | 0 <= j < n :: EntryLoaded(k', k, h, order, j))
    && (forall a <- k'.addr :: 0 <= k'.addr[a] < n && k.info[order[k'.addr[a]]].service == a)
    && (forall s <- k'.triedT :: 0 <= k'.triedT[s] < n && k.info[order[k'.triedT[s]]].fInTried
                                 && s == TriedSlot(h, k.info[order[k'.triedT[s]]].service))
  }

  predicate NoneReferenced(k': Book) {
    k'.newT == map[] && forall id <- k'.info :: k'.info[id].nRefCount == 0
  }

  lemma LoadNewStep(k': Book, k: Book, h: Hashes, dp: bool, order: seq<Id>, n: int)
    requires Inv(k, h, dp) && OrderOk(k, order) && FirstLoaded(k', k, h, order, n) && n < k.nNew
    ensures FirstLoaded(LoadNewEntry(k', ToRecord(k.info[order[n]])), k, h, order, n + 1)
  {
    hide Mid;
    forall j | 0 <= j < n ensures k.info[order[j]].service != k.info[order[n]].service { ServicesDistinct(k, h, dp, order, j, n); }
    NewAdded(k', k, h, order, n);
  }

  lemma NewAdded(k': Book, k: Book, h: Hashes, order: seq<Id>, n: int)
    requires OrderOk(k, order) && FirstLoaded(k', k, h, order, n) && 0 <= n < |order| && !k.info[order[n]].fInTried
    requires forall j | 0 <= j < n :: k.info[order[j]].service != k.info[order[n]].service
    ensures FirstLoaded(LoadNewEntry(k', ToRecord(k.info[order[n]])), k, h, order, n + 1)
  {
    var k1 := LoadNewEntry(k', ToRecord(k.info[order[n]]));
    forall j | 0 <= j < n + 1 ensures EntryLoaded(k1, k, h, order, j) {
      assert j < n ==> EntryLoaded(k', k, h, order, j);
    }
  }

  lemma TriedSlotFree(k': Book, k: Book, h: Hashes, dp: bool, order: seq<Id>, n: int)
    requires Inv(k, h, dp) && OrderOk(k, order) && FirstLoaded(k', k, h, order, n) && k.nNew <= n < |order|
    ensures TriedSlot(h, k.info[order[n]].service) !in k'.triedT
  {
    var s := TriedSlot(h, k.info[order[n]].service);
    assert PlacedAt(k, h, order[n]);
    assert s in k'.triedT ==> k'.triedT[s] < n && PlacedAt(k, h, order[k'.triedT[s]]);
  }

  lemma LoadTriedStep(k': Book, k: Book, h: Hashes, dp: bool, order: seq<Id>, n: int)
    requires Inv(k, h, dp) && OrderOk(k, order) && FirstLoaded(k', k, h, order, n)
    requires k.nNew <= n < |order| && k'.nIdCount == n
    ensures var k1 := LoadTriedEntry(k', h, ToRecord(k.info[order[n]]));
            FirstLoaded(k1, k, h, order, n + 1) && k1.nIdCount == n + 1
  {
    hide Mid;
    TriedSlotFree(k', k, h, dp, order, n);
    forall j | 0 <= j < n ensures k.info[order[j]].service != k.info[order[n]].service { ServicesDistinct(k, h, dp, order, j, n); }
    TriedAdded(k', k, h, order, n);
  }

  lemma TriedAdded(k': Book, k: Book, h: Hashes, order: seq<Id>, n: int)
    requires OrderOk(k, order) && FirstLoaded(k', k, h, order, n) && 0 <= n < |order| && k'.nIdCount == n
    requires k.info[order[n]].fInTried && TriedSlot(h, k.info[order[n]].service) !in k'.triedT
    requires forall j | 0 <= j < n :: k.info[order[j]].service != k.info[order[n]].service
    ensures var k1 := LoadTriedEntry(k', h, ToRecord(k.info[order[n]]));
            FirstLoaded(k1, k, h, order, n + 1) && k1.nIdCount == n + 1
  {
    var k1 := LoadTriedEntry(k', h, ToRecord(k.info[order[n]]));
    forall j | 0 <= j < n + 1 ensures EntryLoaded(k1, k, h, order, j) {
      assert j < n ==> EntryLoaded(k', k, h, order, j);
    }
  }

  lemma {:induction false} NewsLoaded(k: Book, h: Hashes, dp: bool, order: seq<Id>, rs: seq<Record>)
    requires Inv(k, h, dp) && OrderOk(k, order) && |rs| <= k.nNew
    requires forall j | 0 <= j < |rs| :: rs[j] == ToRecord(k.info[order[j]])
    ensures var k1 := LoadNews(EMPTY.(nNew := k.nNew, nTried := k.nTried), rs);
            FirstLoaded(k1, k, h, order, |rs|) && NoneReferenced(k1)
    decreases |rs|
  {
    if rs != [] {
      var n := |rs| - 1;
      NewsLoaded(k, h, dp, order, rs[..n]);
      LoadNewStep(LoadNews(EMPTY.(nNew := k.nNew, nTried := k.nTried), rs[..n]), k, h, dp, order, n);
    }
  }

  lemma {:induction false} TriedsLoaded(k': Book, k: Book, h: Hashes, dp: bool, order: seq<Id>, rs: seq<Record>)
    requires Inv(k, h, dp) && OrderOk(k, order) && |rs| <= k.nTried
    requires FirstLoaded(k', k, h, order, k.nNew) && NoneReferenced(k') && k'.nIdCount == k.nNew
    requires forall j | 0 <= j < |rs| :: rs[j] == ToRecord(k.info[order[k.nNew + j]])
    ensures var k1 := LoadTrieds(k', h, rs);
            FirstLoaded(k1, k, h, order, k.nNew + |rs|) && NoneReferenced(k1) && k1.nIdCount == k.nNew + |rs|
    decreases |rs|
  {
    hide Mid, FirstLoaded, LoadTriedEntry, NoneReferenced;
    if rs != [] {
      var n := |rs| - 1;
      TriedsLoaded(k', k, h, dp, order, rs[..n]);
      LoadTriedStep(LoadTrieds(k', h, rs[..n]), k, h, dp, order, k.nNew + n);
      TriedUnreferenced(LoadTrieds(k', h, rs[..n]), h, rs[n]);
    }
  }

  lemma TriedUnreferenced(k': Book, h: Hashes, r: Record)
    requires NoneReferenced(k')
    ensures NoneReferenced(LoadTriedEntry(k', h, r))
  {
  }

  // ----- references

  predicate Before(s: Slot, b: int, i: int) { s.0 < b || (s.0 == b && s.1 < i) }

  /** The references of an id in the cells before (b, i). */
  function RefsBefore(newT: map<Slot, Id>, id: Id, b: int, i: int): set<Slot> {
    set s | s in Refs(newT, id) && Before(s, b, i)
  }

  /** The new table holds exactly the original references before (b, i), under the new ids. */
  ghost predicate RefsLoaded(k': Book, k: Book, order: seq<Id>, b: int, i: int)
    requires OrderOk(k, order)
  {
    && (forall s :: s in k'.newT <==> s in k.newT && Before(s, b, i))
    && (forall s <- k'.newT :: k'.newT[s] == Rank(k.info, k.newT[s]))
    && (forall j | 0 <= j < |order| :: CountLoaded(k', k, order, b, i, j))
  }

  ghost predicate CountLoaded(k': Book, k: Book, order: seq<Id>, b: int, i: int, j: int)
    requires 0 <= j < |order|
  {
    j in k'.info && k'.info[j].nRefCount == |RefsBefore(k.newT, order[j], b, i)|
  }

  /** Everything but the references is in place. */
  ghost predicate AllLoaded(k': Book, k: Book, h: Hashes, order: seq<Id>) {
    OrderOk(k, order) && FirstLoaded(k', k, h, order, |order|) && k'.nIdCount == |order|
  }

  lemma RanksAgree(k: Book, h: Hashes, dp: bool, s: Slot)
    requires Inv(k, h, dp) && s in k.newT
    ensures 0 <= Rank(k.info, k.newT[s]) < k.nNew <= |FullOrder(k)|
    ensures FullOrder(k)[Rank(k.info, k.newT[s])] == k.newT[s]
  {
    var id := k.newT[s];
    assert NewAt(k, h, s) && KeyedAt(k, dp, id) && RefsAt(k, {}, id);
    FullOrderOk(k, h, dp);
    NewOrderComplete(k.info, k.nIdCount, id);
  }

  lemma EntryOf(k': Book, k: Book, h: Hashes, order: seq<Id>, j: int)
    requires AllLoaded(k', k, h, order) && 0 <= j < |order|
    ensures EntryLoaded(k', k, h, order, j) && k'.nNew == k.nNew
  {
  }

  /** When the cell is occupied in the original, loading its index adds exactly that reference. */
  lemma LoadRefStep(k': Book, k: Book, h: Hashes, dp: bool, b: int, i: int)
    requires Inv(k, h, dp) && AllLoaded(k', k, h, FullOrder(k)) && RefsLoaded(k', k, FullOrder(k), b, i)
    requires (b, i) in k.newT
    ensures var index := Rank(k.info, k.newT[(b, i)]);
            index in k'.info && k'.info[index].nRefCount < BUCKETS_PER_ADDRESS
            && LoadRef(k', h, b, index) == Referenced(k', (b, i), index, k'.info[index].nRefCount + 1)
  {
    hide Mid, FirstLoaded, OrderOk, FullOrder, Rank;
    var order, id := FullOrder(k), k.newT[(b, i)];
    var index := Rank(k.info, id);
    RanksAgree(k, h, dp, (b, i));
    OfNewSlot(k, h, dp, {}, 0, (b, i));
    OfId(k, h, dp, {}, 0, id);
    EntryOf(k', k, h, order, index);
    assert CountLoaded(k', k, order, b, i, index);
    var part, all := RefsBefore(k.newT, id, b, i), Refs(k.newT, id);
    assert (b, i) in all && (b, i) !in part && part <= all - {(b, i)};
    SubsetSize(part, all - {(b, i)});
  }

  lemma {:induction false} SubsetSize(a: set<Slot>, b: set<Slot>)
    requires a <= b
    ensures |a| <= |b|
  {
    if a != {} {
      var x :| x in a;
      SubsetSize(a - {x}, b - {x});
    }
  }

  lemma LoadRefKeepsEntries(k': Book, k: Book, h: Hashes, order: seq<Id>, s: Slot, index: Id, n: int)
    requires AllLoaded(k', k, h, order) && index in k'.info
    ensures AllLoaded(Referenced(k', s, index, n), k, h, order)
  {
    var k1 := Referenced(k', s, index, n);
    forall j | 0 <= j < |order| ensures EntryLoaded(k1, k, h, order, j) {
      assert EntryLoaded(k', k, h, order, j);
    }
  }

  lemma RefsBeforeStep(newT: map<Slot, Id>, id: Id, b: int, i: int)
    ensures |RefsBefore(newT, id, b, i + 1)|
            == |RefsBefore(newT, id, b, i)| + if (b, i) in newT && newT[(b, i)] == id then 1 else 0
  {
    var here: set<Slot> := if (b, i) in newT && newT[(b, i)] == id then {(b, i)} else {};
    assert RefsBefore(newT, id, b, i + 1) == RefsBefore(newT, id, b, i) + here;
  }

  lemma CountsStep(k': Book, k: Book, order: seq<Id>, b: int, i: int, index: int)
    requires OrderOk(k, order) && RefsLoaded(k', k, order, b, i) && (b, i) in k.newT
    requires 0 <= index < |order| && order[index] == k.newT[(b, i)] && index == Rank(k.info, k.newT[(b, i)])
    requires index in k'.info
    ensures RefsLoaded(Referenced(k', (b, i), index, k'.info[index].nRefCount + 1), k, order, b, i + 1)
  {
    hide Rank;
    var i1 := i + 1;
    var k1 := Referenced(k', (b, i), index, k'.info[index].nRefCount + 1);
    forall j | 0 <= j < |order| ensures CountLoaded(k1, k, order, b, i1, j) {
      assert CountLoaded(k', k, order, b, i, j);
      RefsBeforeStep(k.newT, order[j], b, i);
    }
  }

  lemma EmptyCellStep(k': Book, k: Book, order: seq<Id>, b: int, i: int)
    requires OrderOk(k, order) && RefsLoaded(k', k, order, b, i) && (b, i) !in k.newT
    ensures RefsLoaded(k', k, order, b, i + 1)
  {
    hide Rank;
    var i1 := i + 1;
    forall j | 0 <= j < |order| ensures CountLoaded(k', k, order, b, i1, j) {
      assert CountLoaded(k', k, order, b, i, j);
      RefsBeforeStep(k.newT, order[j], b, i);
    }
  }

  lemma LoadCellStep(k': Book, k: Book, h: Hashes, dp: bool, b: int, i: int)
    requires Inv(k, h, dp) && AllLoaded(k', k, h, FullOrder(k)) && RefsLoaded(k', k, FullOrder(k), b, i)
    ensures var k1 := if (b, i) in k.newT then LoadRef(k', h, b, Rank(k.info, k.newT[(b, i)])) else k';
            AllLoaded(k1, k, h, FullOrder(k)) && RefsLoaded(k1, k, FullOrder(k), b, i + 1)
  {
    hide Mid, FirstLoaded, RefsLoaded, LoadRef, Rank, FullOrder;
    var order := FullOrder(k);
    if (b, i) in k.newT {
      var index := Rank(k.info, k.newT[(b, i)]);
      LoadRefStep(k', k, h, dp, b, i);
      RanksAgree(k, h, dp, (b, i));
      LoadRefKeepsEntries(k', k, h, order, (b, i), index, k'.info[index].nRefCount + 1);
      CountsStep(k', k, order, b, i, index);
    } else {
      EmptyCellStep(k', k, order, b, i);
    }
  }

  lemma {:induction false} BucketLoaded(k': Book, k: Book, h: Hashes, dp: bool, b: int, i: nat)
    requires Inv(k, h, dp) && AllLoaded(k', k, h, FullOrder(k)) && RefsLoaded(k', k, FullOrder(k), b, 0)
    ensures var k1 := LoadBucket(k', h, b, BucketList(k, b, i));
            AllLoaded(k1, k, h, FullOrder(k)) && RefsLoaded(k1, k, FullOrder(k), b, i)
  {
    hide Mid, FirstLoaded, RefsLoaded, OrderOk, LoadRef, FullOrder, Rank;
    if i > 0 {
      BucketLoaded(k', k, h, dp, b, i - 1);
      var list, before := BucketList(k, b, i), BucketList(k, b, i - 1);
      LoadCellStep(LoadBucket(k', h, b, before), k, h, dp, b, i - 1);
      if (b, i - 1) in k.newT {
        assert list[..|list| - 1] == before;
      }
    }
  }

  lemma NextBucket(k': Book, k: Book, h: Hashes, dp: bool, order: seq<Id>, b: int)
    requires Inv(k, h, dp) && OrderOk(k, order) && RefsLoaded(k', k, order, b, BUCKET_SIZE)
    ensures RefsLoaded(k', k, order, b + 1, 0)
  {
    hide Mid, Rank;
    var b1 := b + 1;
    forall s <- k.newT ensures Before(s, b1, 0) <==> Before(s, b, BUCKET_SIZE) {
      OfNewSlot(k, h, dp, {}, 0, s);
    }
    forall j | 0 <= j < |order| ensures CountLoaded(k', k, order, b1, 0, j) {
      assert CountLoaded(k', k, order, b, BUCKET_SIZE, j);
      assert RefsBefore(k.newT, order[j], b1, 0) == RefsBefore(k.newT, order[j], b, BUCKET_SIZE);
    }
  }

  lemma {:induction false} BucketsLoaded(k': Book, k: Book, h: Hashes, dp: bool, buckets: seq<seq<int>>)
    requires Inv(k, h, dp) && AllLoaded(k', k, h, FullOrder(k)) && RefsLoaded(k', k, FullOrder(k), 0, 0)
    requires forall b | 0 <= b < |buckets| :: buckets[b] == BucketList(k, b, BUCKET_SIZE)
    ensures var k1 := LoadBuckets(k', h, buckets);
            AllLoaded(k1, k, h, FullOrder(k)) && RefsLoaded(k1, k, FullOrder(k), |buckets|, 0)
    decreases |buckets|
  {
    hide Mid, FirstLoaded, RefsLoaded, OrderOk, FullOrder, LoadBucket, BucketList;
    if buckets != [] {
      var b := |buckets| - 1;
      BucketsLoaded(k', k, h, dp, buckets[..b]);
      BucketLoaded(LoadBuckets(k', h, buckets[..b]), k, h, dp, b, BUCKET_SIZE);
      NextBucket(LoadBuckets(k', h, buckets), k, h, dp, FullOrder(k), b);
    }
  }

  // ----- the round trip

  /** The loaded book is the original with its ids renamed to their place in the saved order: the same
      tables, reference counts, counters and saved fields, and an index of all entries. */
  ghost predicate Restored(k': Book, k: Book, h: Hashes) {
    var order := FullOrder(k);
    && AllLoaded(k', k, h, order)
    && (forall s :: s in k'.newT <==> s in k.newT)
    && (forall s <- k.newT :: 0 <= k'.newT[s] < |order| && order[k'.newT[s]] == k.newT[s])
    && (forall s :: s in k'.triedT <==> s in k.triedT)
    && (forall s <- k.triedT :: 0 <= k'.triedT[s] < |order| && order[k'.triedT[s]] == k.triedT[s])
    && (forall j | 0 <= j < |order| :: j in k'.info && EntryRestored(k'.info[j], k.info[order[j]], j))
  }

  /** Field by field: what is kept, what starts over, and the new place. */
  ghost predicate EntryRestored(e: AddrInfo, a: AddrInfo, place: int) {
    && e.service == a.service && e.nTime == a.nTime && e.nServices == a.nServices && e.source == a.source
    && e.nLastSuccess == a.nLastSuccess && e.nAttempts == a.nAttempts
    && e.nRefCount == a.nRefCount && e.fInTried == a.fInTried
    && e.nLastTry == 0 && e.nLastCountAttempt == 0 && e.nRandomPos == place
  }

  /** A record holds the fields that are written out. */
  ghost predicate Describes(r: Record, a: AddrInfo) {
    && r.service == a.service && r.nTime == a.nTime && r.nServices == a.nServices && r.source == a.source
    && r.nLastSuccess == a.nLastSuccess && r.nAttempts == a.nAttempts
  }

  lemma EntriesRestored(k: Book, h: Hashes, dp: bool)
    requires Inv(k, h, dp)
    ensures AllLoaded(LoadedEntries(SavedOf(k), h), k, h, FullOrder(k))
    ensures NoneReferenced(LoadedEntries(SavedOf(k), h))
  {
    hide Mid, FirstLoaded, LoadNews, LoadTrieds, NewOrder, TriedOrder;
    OfLimbo(k, h, dp, {}, 0);
    FullOrderOk(k, h, dp);
    var saved, order := SavedOf(k), FullOrder(k);
    NewsLoaded(k, h, dp, order, saved.news);
    var k1 := LoadNews(EMPTY.(nNew := saved.nNew, nTried := saved.nTried), saved.news);
    FirstLoadedIgnores(k1, k, h, order, k.nNew);
    TriedsLoaded(k1.(nIdCount := saved.nNew), k, h, dp, order, saved.trieds);
  }

  lemma NoneLost(k: Book, h: Hashes, dp: bool)
    requires Inv(k, h, dp)
    ensures LoadedEntries(SavedOf(k), h).nTried == k.nTried
  {
    hide Mid, LoadedEntries, SavedOf, FullOrder;
    EntriesRestored(k, h, dp);
  }

  lemma FirstLoadedIgnores(k': Book, k: Book, h: Hashes, order: seq<Id>, n: int)
    requires OrderOk(k, order) && FirstLoaded(k', k, h, order, n)
    ensures FirstLoaded(k'.(nIdCount := n), k, h, order, n)
  {
    forall j | 0 <= j < n ensures EntryLoaded(k'.(nIdCount := n), k, h, order, j) {
      assert EntryLoaded(k', k, h, order, j);
    }
  }

  lemma NothingBefore(k': Book, k: Book, h: Hashes, dp: bool, order: seq<Id>)
    requires Inv(k, h, dp) && AllLoaded(k', k, h, order) && NoneReferenced(k')
    ensures RefsLoaded(k', k, order, 0, 0)
  {
    hide Mid, Rank;
    forall s <- k.newT ensures !Before(s, 0, 0) { OfNewSlot(k, h, dp, {}, 0, s); }
    forall j | 0 <= j < |order| ensures CountLoaded(k', k, order, 0, 0, j) {
      assert RefsBefore(k.newT, order[j], 0, 0) == {};
    }
  }

  lemma AllBefore(k': Book, k: Book, h: Hashes, dp: bool)
    requires Inv(k, h, dp) && AllLoaded(k', k, h, FullOrder(k)) && RefsLoaded(k', k, FullOrder(k), NEW_BUCKETS, 0)
    ensures Restored(k', k, h)
  {
    hide Mid, Rank, FullOrder, EntryRestored, EntryLoaded, CountLoaded;
    var order := FullOrder(k);
    NewRestored(k', k, h, dp);
    forall j | 0 <= j < |order| ensures j in k'.info && EntryRestored(k'.info[j], k.info[order[j]], j) {
      EntryBack(k', k, h, dp, order, j);
    }
    TriedRestored(k', k, h, dp, order);
  }

  lemma NewRestored(k': Book, k: Book, h: Hashes, dp: bool)
    requires Inv(k, h, dp) && OrderOk(k, FullOrder(k)) && RefsLoaded(k', k, FullOrder(k), NEW_BUCKETS, 0)
    ensures forall s <- k.newT :: Before(s, NEW_BUCKETS, 0)
    ensures forall s :: s in k'.newT <==> s in k.newT
    ensures forall s <- k.newT :: 0 <= k'.newT[s] < |FullOrder(k)| && FullOrder(k)[k'.newT[s]] == k.newT[s]
  {
    hide Mid, Rank, FullOrder, OrderOk, CountLoaded;
    forall s <- k.newT ensures Before(s, NEW_BUCKETS, 0) { OfNewSlot(k, h, dp, {}, 0, s); }
    forall s <- k.newT ensures 0 <= k'.newT[s] < |FullOrder(k)| && FullOrder(k)[k'.newT[s]] == k.newT[s] { RanksAgree(k, h, dp, s); }
  }

  lemma EntryBack(k': Book, k: Book, h: Hashes, dp: bool, order: seq<Id>, j: int)
    requires Inv(k, h, dp) && OrderOk(k, order) && 0 <= j < |order| && EntryLoaded(k', k, h, order, j)
    requires CountLoaded(k', k, order, NEW_BUCKETS, 0, j) && forall s <- k.newT :: Before(s, NEW_BUCKETS, 0)
    ensures EntryRestored(k'.info[j], k.info[order[j]], j)
  {
    hide Mid;
    OfId(k, h, dp, {}, 0, order[j]);
    assert RefsBefore(k.newT, order[j], NEW_BUCKETS, 0) == Refs(k.newT, order[j]);
  }

  lemma TriedRestored(k': Book, k: Book, h: Hashes, dp: bool, order: seq<Id>)
    requires Inv(k, h, dp) && AllLoaded(k', k, h, order)
    ensures forall s :: s in k'.triedT <==> s in k.triedT
    ensures forall s <- k.triedT :: 0 <= k'.triedT[s] < |order| && order[k'.triedT[s]] == k.triedT[s]
  {
    hide Mid;
    forall s <- k.triedT ensures s in k'.triedT && 0 <= k'.triedT[s] < |order| && order[k'.triedT[s]] == k.triedT[s] {
      OfTriedSlot(k, h, dp, {}, 0, s);
      var j :| 0 <= j < |order| && order[j] == k.triedT[s];
      assert EntryLoaded(k', k, h, order, j);
    }
    forall s <- k'.triedT ensures s in k.triedT {
      OfId(k, h, dp, {}, 0, order[k'.triedT[s]]);
    }
  }

  /** Loading what was saved from a consistent book restores it, loses no tried entry to a collision
      and leaves no new entry to prune. */
  lemma RoundTrip(k: Book, h: Hashes, dp: bool)
    requires Inv(k, h, dp)
    ensures Restored(Loaded(SavedOf(k), h), k, h)
    ensures Orphans(Loaded(SavedOf(k), h)) == {}
  {
    hide Mid, FirstLoaded, RefsLoaded, LoadNews, LoadTrieds, LoadBuckets, NewOrder, TriedOrder, BucketList, OrderOk;
    EntriesRestored(k, h, dp);
    var saved, k2 := SavedOf(k), LoadedEntries(SavedOf(k), h);
    NothingBefore(k2, k, h, dp, FullOrder(k));
    BucketsLoaded(k2, k, h, dp, saved.buckets);
    AllBefore(Loaded(saved, h), k, h, dp);
    NoOrphans(Loaded(saved, h), k, h, dp);
  }

  lemma RestoredKeys(k': Book, k: Book, h: Hashes)
    requires Restored(k', k, h)
    ensures k'.nIdCount >= 0 && forall id <- k'.info :: 0 <= id < k'.nIdCount
  {
  }

  lemma NoOrphans(k': Book, k: Book, h: Hashes, dp: bool)
    requires Inv(k, h, dp) && Restored(k', k, h)
    ensures Orphans(k') == {}
  {
    hide Mid, FullOrder;
    var order := FullOrder(k);
    forall j ensures j !in Orphans(k') {
      if j in k'.info {
        OfId(k, h, dp, {}, 0, order[j]);
        assert EntryLoaded(k', k, h, order, j);
      }
    }
  }

  /** Every entry was saved under port 0. */
  predicate PortsZero(k: Book) { forall id <- k.info :: k.info[id].service.port == 0 }

  /** Loading keys the address index without normalising the port, so a book whose look-ups ignore the
      port comes back consistent exactly when every port was zero to begin with. */
  lemma RestoredConsistentExactlyWhen(k: Book, h: Hashes, dp: bool)
    requires Inv(k, h, dp)
    ensures Inv(Loaded(SavedOf(k), h), h, dp) <==> dp || PortsZero(k)
  {
    hide Mid, Loaded, Restored;
    RoundTrip(k, h, dp);
    var k' := Loaded(SavedOf(k), h);
    if dp || PortsZero(k) {
      RestoredInv(k', k, h, dp);
    } else if Inv(k', h, dp) {
      RestoredPorts(k', k, h);
    }
  }

  lemma RestoredPorts(k': Book, k: Book, h: Hashes)
    requires Restored(k', k, h) && Inv(k', h, false)
    ensures PortsZero(k)
  {
    hide FullOrder;
    var order := FullOrder(k);
    forall id <- k.info ensures k.info[id].service.port == 0 {
      var j :| 0 <= j < |order| && order[j] == id;
      assert EntryLoaded(k', k, h, order, j) && KeyedAt(k', false, j);
    }
  }

  lemma RestoredIndexes(k': Book, k: Book, h: Hashes, dp: bool)
    requires Restored(k', k, h) && (dp || PortsZero(k))
    ensures RandomOk(k') && AddrOk(k', dp)
  {
    hide FullOrder;
    var order := FullOrder(k);
    forall j <- k'.info ensures RandomAt(k', j) && KeyedAt(k', dp, j) { assert EntryLoaded(k', k, h, order, j); }
    forall p | 0 <= p < |k'.random| ensures PlaceAt(k', p) { assert EntryLoaded(k', k, h, order, p); }
    forall a <- k'.addr ensures KeyAt(k', dp, a) { assert EntryLoaded(k', k, h, order, k'.addr[a]); }
  }

  lemma RestoredTables(k': Book, k: Book, h: Hashes, dp: bool)
    requires Inv(k, h, dp) && Restored(k', k, h)
    ensures TablesOk(k', h)
  {
    hide FullOrder, Mid;
    var order := FullOrder(k);
    forall j <- k'.info ensures PlacedAt(k', h, j) { assert EntryLoaded(k', k, h, order, j); }
    forall s <- k'.newT ensures NewAt(k', h, s) {
      assert EntryLoaded(k', k, h, order, k'.newT[s]);
      OfNewSlot(k, h, dp, {}, 0, s);
    }
    forall s <- k'.triedT ensures TriedAt(k', h, s) { assert EntryLoaded(k', k, h, order, k'.triedT[s]); }
  }

  lemma RestoredRefs(k': Book, k: Book, h: Hashes, dp: bool)
    requires Inv(k, h, dp) && Restored(k', k, h)
    ensures RefsOk(k', {})
  {
    hide FullOrder, Mid;
    var order := FullOrder(k);
    forall j <- k'.info ensures RefsAt(k', {}, j) {
      assert EntryLoaded(k', k, h, order, j);
      OfId(k, h, dp, {}, 0, order[j]);
      forall s ensures s in Refs(k'.newT, j) <==> s in Refs(k.newT, order[j]) { }
      assert Refs(k'.newT, j) == Refs(k.newT, order[j]);
    }
  }

  lemma RestoredCounts(k': Book, k: Book, h: Hashes)
    requires Restored(k', k, h)
    ensures CountsOk(k', 0)
  {
    hide FullOrder;
    var order := FullOrder(k);
    forall j <- k'.info ensures k'.info[j].fInTried <==> k.nNew <= j { assert EntryLoaded(k', k, h, order, j); }
    var news, trieds := seq(k.nNew, i => i), seq(k.nTried, i => k.nNew + i);
    forall id <- NewIds(k'.info) ensures id in news { assert news[id] == id; }
    forall id <- TriedIds(k'.info) ensures id in trieds { assert trieds[id - k.nNew] == id; }
    OrderSize(news, NewIds(k'.info));
    OrderSize(trieds, TriedIds(k'.info));
  }

  lemma RestoredInv(k': Book, k: Book, h: Hashes, dp: bool)
    requires Inv(k, h, dp) && Restored(k', k, h) && (dp || PortsZero(k))
    ensures Inv(k', h, dp)
  {
    hide Restored, RandomOk, AddrOk, TablesOk, RefsOk, CountsOk;
    RestoredIndexes(k', k, h, dp);
    RestoredTables(k', k, h, dp);
    RestoredRefs(k', k, h, dp);
    RestoredCounts(k', k, h);
  }

  /** A book with a single new address on a port of its own, which a reload makes unfindable. */
  lemma LoadingForgetsPorts(h: Hashes, a: AddrInfo) returns (k: Book)
    requires a.service.port != 0 && a.nRefCount == 0 && !a.fInTried
    ensures Inv(k, h, false) && !Inv(Loaded(SavedOf(k), h), h, false)
  {
    hide Mid, Loaded, SavedOf;
    EmptyOk(h, false);
    CreateKeeps(EMPTY, h, false, a);
    var k1 := Created(EMPTY, false, a);
    RecountKeeps(k1, h, false, {0}, 1, 1);
    var k2, s := k1.(nNew := 1), NewSlot(h, a.service, a.source);
    ReferenceKeeps(k2, h, false, {0}, 0, s, 0);
    assert {0} - {0} == {};
    k := Referenced(k2, s, 0, 1);
    assert k.info[0].service.port != 0;
    RestoredConsistentExactlyWhen(k, h, false);
  }

  // ----- the counters stay within the limits that loading enforces

  function Code(s: Slot): int { s.0 * BUCKET_SIZE + s.1 }

  predicate InRange(s: Slot, buckets: int) { 0 <= s.0 < buckets && 0 <= s.1 < BUCKET_SIZE }

  lemma {:induction false} SlotsFit(slots: set<Slot>, buckets: nat)
    requires forall s <- slots :: InRange(s, buckets)
    ensures |slots| <= buckets * BUCKET_SIZE
  {
    var codes := set s | s in slots :: Code(s);
    CodesSize(slots);
    forall c <- codes ensures 0 <= c < buckets * BUCKET_SIZE {
      var s :| s in slots && Code(s) == c;
      assert InRange(s, buckets);
    }
    IntsFit(codes, buckets * BUCKET_SIZE);
  }

  lemma {:induction false} CodesSize(slots: set<Slot>)
    requires forall s <- slots :: 0 <= s.1 < BUCKET_SIZE
    ensures |set s | s in slots :: Code(s)| == |slots|
    decreases |slots|
  {
    var codes := set s | s in slots :: Code(s);
    if slots != {} {
      var x :| x in slots;
      CodesSize(slots - {x});
      var rest := set s | s in slots - {x} :: Code(s);
      assert codes == rest + {Code(x)};
      assert Code(x) !in rest;
    }
  }

  lemma {:induction false} IntsFit(ints: set<int>, n: nat)
    requires forall i <- ints :: 0 <= i < n
    ensures |ints| <= n
  {
    if n > 0 {
      IntsFit(ints - {n - 1}, n - 1);
    } else {
      assert forall i :: i !in ints;
      assert ints == {};
    }
  }

  lemma {:induction false} ValuesFit(table: map<Slot, Id>, slots: set<Slot>, ids: set<Id>)
    requires slots <= table.Keys
    requires forall id <- ids :: exists s :: s in slots && table[s] == id
    ensures |ids| <= |slots|
    decreases |ids|
  {
    if id :| id in ids {
      var s :| s in slots && table[s] == id;
      forall other <- ids - {id} ensures exists t :: t in slots - {s} && table[t] == other {
        var t :| t in slots && table[t] == other;
        assert t in slots - {s};
      }
      ValuesFit(table, slots - {s}, ids - {id});
    } else {
      assert forall x :: x !in ids;
      assert ids == {};
    }
  }

  lemma CountsFit(k: Book, h: Hashes, dp: bool)
    requires Inv(k, h, dp)
    ensures 0 <= k.nNew <= NEW_BUCKETS * BUCKET_SIZE && k.nTried <= TRIED_BUCKETS * BUCKET_SIZE
  {
    forall id <- NewIds(k.info) ensures exists s :: s in k.newT && k.newT[s] == id {
      assert RefsAt(k, {}, id);
      var s :| s in Refs(k.newT, id);
    }
    forall id <- TriedIds(k.info) ensures exists s :: s in k.triedT && k.triedT[s] == id { assert PlacedAt(k, h, id); }
    ValuesFit(k.newT, k.newT.Keys, NewIds(k.info));
    ValuesFit(k.triedT, k.triedT.Keys, TriedIds(k.info));
    forall s <- k.newT ensures InRange(s, NEW_BUCKETS) { assert NewAt(k, h, s); }
    forall s <- k.triedT ensures InRange(s, TRIED_BUCKETS) { assert TriedAt(k, h, s); }
    SlotsFit(k.newT.Keys, NEW_BUCKETS);
    SlotsFit(k.triedT.Keys, TRIED_BUCKETS);
  }
}
