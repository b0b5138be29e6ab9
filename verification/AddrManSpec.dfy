/** The address manager's tables as values, the invariant that ties its six redundant structures
    together, and what each primitive update does to that invariant. */
module AddrManSpec {

  const NEW_BUCKETS := 1024
  const TRIED_BUCKETS := 256
  const BUCKET_SIZE := 64
  const BUCKETS_PER_ADDRESS := 8

  datatype Service = Service(ip: int, port: int)

  type NetAddr = int

  type Slot = (int, int) // bucket and position

  type Id = int

  /** The salted bucket hashes; any functions will do, the tables reduce them to their range. */
  datatype Hashes = Hashes(
    tried: Service -> nat,
    untried: (Service, NetAddr) -> nat,
    place: (Service, bool, int) -> nat)

  function TriedBucket(h: Hashes, a: Service): int { h.tried(a) % TRIED_BUCKETS }

  function NewBucket(h: Hashes, a: Service, src: NetAddr): int { h.untried(a, src) % NEW_BUCKETS }

  function Position(h: Hashes, a: Service, isNew: bool, bucket: int): (i: int)
    ensures 0 <= i < BUCKET_SIZE
  {
    h.place(a, isNew, bucket) % BUCKET_SIZE
  }

  function NewSlot(h: Hashes, a: Service, src: NetAddr): Slot {
    var b := NewBucket(h, a, src);
    (b, Position(h, a, true, b))
  }

  function TriedSlot(h: Hashes, a: Service): Slot {
    var b := TriedBucket(h, a);
    (b, Position(h, a, false, b))
  }

  /** A known address with its statistics. */
  datatype AddrInfo = AddrInfo(
    service: Service, nTime: int, nServices: set<nat>, source: NetAddr,
    nLastTry: int, nLastCountAttempt: int, nLastSuccess: int, nAttempts: int,
    nRefCount: int, fInTried: bool, nRandomPos: int)

  /** The table contents; `newT` and `triedT` list the occupied slots. */
  datatype Book = Book(
    info: map<Id, AddrInfo>, addr: map<Service, Id>, random: seq<Id>,
    newT: map<Slot, Id>, triedT: map<Slot, Id>,
    nNew: int, nTried: int, nIdCount: int)

  const EMPTY := Book(map[], map[], [], map[], map[], 0, 0, 0)

  /** The key under which an address is looked up. */
  function Norm(discriminatePorts: bool, a: Service): Service {
    if discriminatePorts then a else Service(a.ip, 0)
  }

  function NewIds(info: map<Id, AddrInfo>): set<Id> { set id | id in info && !info[id].fInTried }

  function TriedIds(info: map<Id, AddrInfo>): set<Id> { set id | id in info && info[id].fInTried }

  /** The new-table slots that hold `id`. */
  function Refs(newT: map<Slot, Id>, id: Id): set<Slot> { set s | s in newT && newT[s] == id }

  // ----- the invariant, entry by entry

  predicate RandomAt(k: Book, id: Id)
    requires id in k.info
  {
    0 <= k.info[id].nRandomPos < |k.random| && k.random[k.info[id].nRandomPos] == id
  }

  predicate PlaceAt(k: Book, p: int)
    requires 0 <= p < |k.random|
  {
    k.random[p] in k.info && k.info[k.random[p]].nRandomPos == p
  }

  predicate KeyedAt(k: Book, dp: bool, id: Id)
    requires id in k.info
  {
    var a := Norm(dp, k.info[id].service);
    a in k.addr && k.addr[a] == id && 0 <= id < k.nIdCount
  }

  predicate KeyAt(k: Book, dp: bool, a: Service)
    requires a in k.addr
  {
    k.addr[a] in k.info && Norm(dp, k.info[k.addr[a]].service) == a
  }

  predicate NewAt(k: Book, h: Hashes, s: Slot)
    requires s in k.newT
  {
    && 0 <= s.0 < NEW_BUCKETS
    && k.newT[s] in k.info
    && !k.info[k.newT[s]].fInTried
    && s.1 == Position(h, k.info[k.newT[s]].service, true, s.0)
  }

  predicate TriedAt(k: Book, h: Hashes, s: Slot)
    requires s in k.triedT
  {
    && k.triedT[s] in k.info
    && k.info[k.triedT[s]].fInTried
    && s == TriedSlot(h, k.info[k.triedT[s]].service)
  }

  predicate PlacedAt(k: Book, h: Hashes, id: Id)
    requires id in k.info
  {
    k.info[id].fInTried ==>
      TriedSlot(h, k.info[id].service) in k.triedT && k.triedT[TriedSlot(h, k.info[id].service)] == id
  }

  predicate RefsAt(k: Book, limbo: set<Id>, id: Id)
    requires id in k.info
  {
    && k.info[id].nRefCount == |Refs(k.newT, id)| <= BUCKETS_PER_ADDRESS
    && (k.info[id].nRefCount == 0 <==> k.info[id].fInTried || id in limbo)
  }

  /** `random` and `nRandomPos` are inverse to each other. */
  predicate RandomOk(k: Book) {
    && (forall id <- k.info :: RandomAt(k, id))
    && (forall p | 0 <= p < |k.random| :: PlaceAt(k, p))
  }

  /** `addr` is a bijection with the entries. */
  predicate AddrOk(k: Book, dp: bool) {
    && (forall id <- k.info :: KeyedAt(k, dp, id))
    && (forall a <- k.addr :: KeyAt(k, dp, a))
  }

  /** Every occupant sits in a slot computed for it; tried entries sit in exactly one. */
  predicate TablesOk(k: Book, h: Hashes) {
    && (forall s <- k.newT :: NewAt(k, h, s))
    && (forall s <- k.triedT :: TriedAt(k, h, s))
    && (forall id <- k.info :: PlacedAt(k, h, id))
  }

  /** Reference counts are exact: 1 to 8 for entries in the new table, 0 for tried ones. */
  predicate RefsOk(k: Book, limbo: set<Id>) {
    && (forall id <- k.info :: RefsAt(k, limbo, id))
    && (forall id <- limbo :: id in k.info && !k.info[id].fInTried)
  }

  predicate CountsOk(k: Book, uncounted: int) {
    k.nNew == |NewIds(k.info)| - uncounted && k.nTried == |TriedIds(k.info)| && k.nIdCount >= 0
  }

  /** The invariant in the middle of an operation: the entries in `limbo` are in neither table yet,
      and `uncounted` of the not-tried entries are missing from `nNew`. */
  predicate Mid(k: Book, h: Hashes, dp: bool, limbo: set<Id>, uncounted: int) {
    RandomOk(k) && AddrOk(k, dp) && TablesOk(k, h) && RefsOk(k, limbo) && CountsOk(k, uncounted)
  }

  /** The invariant between operations. */
  predicate Inv(k: Book, h: Hashes, dp: bool) {
    Mid(k, h, dp, {}, 0)
  }

  lemma EmptyOk(h: Hashes, dp: bool)
    ensures Inv(EMPTY, h, dp)
  {
    assert NewIds(EMPTY.info) == {} && TriedIds(EMPTY.info) == {};
  }

  // ----- what the invariant says of one id, place, key or slot

  lemma OfId(k: Book, h: Hashes, dp: bool, limbo: set<Id>, uncounted: int, id: Id)
    requires Mid(k, h, dp, limbo, uncounted) && id in k.info
    ensures RandomOk(k) && RandomAt(k, id) && KeyedAt(k, dp, id) && PlacedAt(k, h, id) && RefsAt(k, limbo, id)
  {
  }

  lemma OfPlace(k: Book, h: Hashes, dp: bool, limbo: set<Id>, uncounted: int, p: int)
    requires Mid(k, h, dp, limbo, uncounted) && 0 <= p < |k.random|
    ensures RandomOk(k) && PlaceAt(k, p)
  {
  }

  lemma OfKey(k: Book, h: Hashes, dp: bool, limbo: set<Id>, uncounted: int, a: Service)
    requires Mid(k, h, dp, limbo, uncounted) && a in k.addr
    ensures KeyAt(k, dp, a) && k.addr[a] >= 0
  {
    assert KeyAt(k, dp, a);
    assert KeyedAt(k, dp, k.addr[a]);
  }

  lemma OfNewSlot(k: Book, h: Hashes, dp: bool, limbo: set<Id>, uncounted: int, s: Slot)
    requires Mid(k, h, dp, limbo, uncounted) && s in k.newT
    ensures NewAt(k, h, s) && k.newT[s] !in limbo
  {
    assert NewAt(k, h, s);
    assert RefsAt(k, limbo, k.newT[s]) && s in Refs(k.newT, k.newT[s]);
  }

  lemma OfTriedSlot(k: Book, h: Hashes, dp: bool, limbo: set<Id>, uncounted: int, s: Slot)
    requires Mid(k, h, dp, limbo, uncounted) && s in k.triedT
    ensures TriedAt(k, h, s)
  {
  }

  lemma OfLimbo(k: Book, h: Hashes, dp: bool, limbo: set<Id>, uncounted: int)
    requires Mid(k, h, dp, limbo, uncounted)
    ensures forall id <- limbo :: id in k.info && !k.info[id].fInTried
    ensures k.nIdCount >= 0
  {
  }

  lemma LimboUnreferenced(k: Book, h: Hashes, dp: bool, limbo: set<Id>, uncounted: int, id: Id)
    requires Mid(k, h, dp, limbo, uncounted) && id in limbo
    ensures id in k.info && !k.info[id].fInTried && k.info[id].nRefCount == 0
  {
    assert RefsAt(k, limbo, id);
  }

  // ----- updates that leave the tables alone

  /** The fields that the tables and counts depend on are the same in both. */
  predicate SameEntry(a: map<Id, AddrInfo>, b: map<Id, AddrInfo>, id: Id) {
    && (id in a <==> id in b)
    && (id in a ==> && b[id].service == a[id].service
                    && b[id].nRefCount == a[id].nRefCount
                    && b[id].fInTried == a[id].fInTried)
  }

  ghost predicate Alike(k: Book, k': Book) {
    && (forall id :: SameEntry(k.info, k'.info, id))
    && k' == k.(info := k'.info, random := k'.random)
  }

  lemma AlikeCounts(k: Book, k': Book, uncounted: int)
    requires Alike(k, k') && CountsOk(k, uncounted)
    ensures CountsOk(k', uncounted)
  {
    forall id
      ensures id in NewIds(k'.info) <==> id in NewIds(k.info)
      ensures id in TriedIds(k'.info) <==> id in TriedIds(k.info)
    {
      assert SameEntry(k.info, k'.info, id);
    }
    assert NewIds(k'.info) == NewIds(k.info);
    assert TriedIds(k'.info) == TriedIds(k.info);
  }

  lemma AlikeIds(k: Book, k': Book, h: Hashes, dp: bool, limbo: set<Id>)
    requires Alike(k, k') && AddrOk(k, dp) && TablesOk(k, h) && RefsOk(k, limbo)
    ensures AddrOk(k', dp) && RefsOk(k', limbo) && forall id <- k'.info :: PlacedAt(k', h, id)
  {
    forall id <- k'.info
      ensures KeyedAt(k', dp, id) && PlacedAt(k', h, id) && RefsAt(k', limbo, id)
    {
      assert SameEntry(k.info, k'.info, id);
      assert KeyedAt(k, dp, id) && PlacedAt(k, h, id) && RefsAt(k, limbo, id);
    }
    forall a <- k'.addr ensures KeyAt(k', dp, a) {
      assert KeyAt(k, dp, a) && SameEntry(k.info, k'.info, k.addr[a]);
    }
    forall id <- limbo ensures id in k'.info && !k'.info[id].fInTried {
      assert SameEntry(k.info, k'.info, id);
    }
  }

  lemma AlikeTables(k: Book, k': Book, h: Hashes)
    requires Alike(k, k') && TablesOk(k, h)
    ensures forall s <- k'.newT :: NewAt(k', h, s)
    ensures forall s <- k'.triedT :: TriedAt(k', h, s)
  {
    forall s <- k'.newT ensures NewAt(k', h, s) {
      assert NewAt(k, h, s) && SameEntry(k.info, k'.info, k.newT[s]);
    }
    forall s <- k'.triedT ensures TriedAt(k', h, s) {
      assert TriedAt(k, h, s) && SameEntry(k.info, k'.info, k.triedT[s]);
    }
  }

  /** An update that leaves addresses, reference counts and table membership alone keeps the invariant. */
  lemma AlikeKeeps(k: Book, k': Book, h: Hashes, dp: bool, limbo: set<Id>, uncounted: int)
    requires Mid(k, h, dp, limbo, uncounted) && Alike(k, k') && RandomOk(k')
    ensures Mid(k', h, dp, limbo, uncounted)
  {
    AlikeCounts(k, k', uncounted);
    AlikeIds(k, k', h, dp, limbo);
    AlikeTables(k, k', h);
  }

  /** Changing only the statistics of one entry. */
  function Touched(k: Book, id: Id, a: AddrInfo): Book { k.(info := k.info[id := a]) }

  predicate SameRole(a: AddrInfo, b: AddrInfo) {
    a.service == b.service && a.nRefCount == b.nRefCount && a.fInTried == b.fInTried && a.nRandomPos == b.nRandomPos
  }

  lemma TouchKeeps(k: Book, h: Hashes, dp: bool, limbo: set<Id>, uncounted: int, id: Id, a: AddrInfo)
    requires Mid(k, h, dp, limbo, uncounted) && id in k.info && SameRole(k.info[id], a)
    ensures Mid(Touched(k, id, a), h, dp, limbo, uncounted)
  {
    var k' := Touched(k, id, a);
    forall i <- k'.info ensures RandomAt(k', i) { assert RandomAt(k, i); }
    forall p | 0 <= p < |k'.random| ensures PlaceAt(k', p) { assert PlaceAt(k, p); }
    AlikeKeeps(k, k', h, dp, limbo, uncounted);
  }

  /** Two entries of `random` change places. */
  function Swapped(k: Book, p: int, q: int): Book
    requires RandomOk(k) && 0 <= p < |k.random| && 0 <= q < |k.random|
  {
    assert PlaceAt(k, p) && PlaceAt(k, q);
    var a, b := k.random[p], k.random[q];
    if p == q then k
    else k.(info := k.info[a := k.info[a].(nRandomPos := q)][b := k.info[b].(nRandomPos := p)],
            random := k.random[p := b][q := a])
  }

  lemma SwapRandomOk(k: Book, p: int, q: int)
    requires RandomOk(k) && 0 <= p < |k.random| && 0 <= q < |k.random|
    ensures RandomOk(Swapped(k, p, q)) && Alike(k, Swapped(k, p, q)) && |Swapped(k, p, q).random| == |k.random|
  {
    assert PlaceAt(k, p) && PlaceAt(k, q);
    var k' := Swapped(k, p, q);
    forall id <- k'.info ensures RandomAt(k', id) { assert RandomAt(k, id); }
    forall i | 0 <= i < |k'.random| ensures PlaceAt(k', i) { assert PlaceAt(k, i); }
  }

  lemma SwapKeeps(k: Book, h: Hashes, dp: bool, limbo: set<Id>, uncounted: int, p: int, q: int)
    requires Mid(k, h, dp, limbo, uncounted) && 0 <= p < |k.random| && 0 <= q < |k.random|
    ensures Mid(Swapped(k, p, q), h, dp, limbo, uncounted)
  {
    SwapRandomOk(k, p, q);
    AlikeKeeps(k, Swapped(k, p, q), h, dp, limbo, uncounted);
  }

  // ----- Create

  function Created(k: Book, dp: bool, a: AddrInfo): Book {
    var id := k.nIdCount;
    k.(info := k.info[id := a.(nRandomPos := |k.random|)],
       addr := k.addr[Norm(dp, a.service) := id],
       random := k.random + [id],
       nIdCount := id + 1)
  }

  lemma CreateCounts(k: Book, dp: bool, a: AddrInfo)
    requires CountsOk(k, 0) && k.nIdCount !in k.info && !a.fInTried
    ensures CountsOk(Created(k, dp, a), 1)
  {
    var k', id := Created(k, dp, a), k.nIdCount;
    assert NewIds(k'.info) == NewIds(k.info) + {id};
    assert TriedIds(k'.info) == TriedIds(k.info);
  }

  lemma CreateIndexes(k: Book, dp: bool, a: AddrInfo)
    requires RandomOk(k) && AddrOk(k, dp) && k.nIdCount >= 0 && Norm(dp, a.service) !in k.addr
    ensures k.nIdCount !in k.info
    ensures RandomOk(Created(k, dp, a)) && AddrOk(Created(k, dp, a), dp)
  {
    var k', new' := Created(k, dp, a), k.nIdCount;
    assert new' in k.info ==> KeyedAt(k, dp, new');
    forall id <- k'.info ensures RandomAt(k', id) && KeyedAt(k', dp, id) {
      if id != new' { assert RandomAt(k, id) && KeyedAt(k, dp, id); }
    }
    forall p | 0 <= p < |k'.random| ensures PlaceAt(k', p) {
      if p < |k.random| { assert PlaceAt(k, p); }
    }
    forall b <- k'.addr ensures KeyAt(k', dp, b) {
      if b in k.addr { assert KeyAt(k, dp, b); }
    }
  }

  lemma CreateTables(k: Book, h: Hashes, dp: bool, a: AddrInfo)
    requires TablesOk(k, h) && RefsOk(k, {}) && k.nIdCount !in k.info && a.nRefCount == 0 && !a.fInTried
    ensures TablesOk(Created(k, dp, a), h) && RefsOk(Created(k, dp, a), {k.nIdCount})
  {
    var k', new' := Created(k, dp, a), k.nIdCount;
    forall s <- k'.newT ensures NewAt(k', h, s) { assert NewAt(k, h, s); }
    forall s <- k'.triedT ensures TriedAt(k', h, s) { assert TriedAt(k, h, s); }
    forall s ensures s !in Refs(k.newT, new') { if s in k.newT { assert NewAt(k, h, s); } }
    assert Refs(k.newT, new') == {};
    forall id <- k'.info ensures PlacedAt(k', h, id) && RefsAt(k', {new'}, id) {
      if id != new' { assert PlacedAt(k, h, id) && RefsAt(k, {}, id); }
    }
  }

  /** A new entry starts in limbo, under a fresh id. */
  lemma CreateKeeps(k: Book, h: Hashes, dp: bool, a: AddrInfo)
    requires Inv(k, h, dp)
    requires Norm(dp, a.service) !in k.addr && a.nRefCount == 0 && !a.fInTried
    ensures k.nIdCount !in k.info
    ensures Mid(Created(k, dp, a), h, dp, {k.nIdCount}, 1)
  {
    CreateIndexes(k, dp, a);
    CreateCounts(k, dp, a);
    CreateTables(k, h, dp, a);
  }

  // ----- Delete

  /** Dropping an entry that sits last in `random` and in no table. */
  function Dropped(k: Book, dp: bool, id: Id): Book
    requires id in k.info && |k.random| > 0
  {
    k.(random := k.random[..|k.random| - 1],
       addr := k.addr - {Norm(dp, k.info[id].service)},
       info := k.info - {id},
       nNew := k.nNew - 1)
  }

  lemma DropIndexes(k: Book, dp: bool, id: Id)
    requires RandomOk(k) && AddrOk(k, dp) && id in k.info && k.info[id].nRandomPos == |k.random| - 1 >= 0
    ensures RandomOk(Dropped(k, dp, id)) && AddrOk(Dropped(k, dp, id), dp)
  {
    var k' := Dropped(k, dp, id);
    assert RandomAt(k, id) && KeyedAt(k, dp, id);
    forall i <- k'.info ensures RandomAt(k', i) && KeyedAt(k', dp, i) {
      assert RandomAt(k, i) && KeyedAt(k, dp, i);
    }
    forall p | 0 <= p < |k'.random| ensures PlaceAt(k', p) { assert PlaceAt(k, p); }
    forall a <- k'.addr ensures KeyAt(k', dp, a) { assert KeyAt(k, dp, a); }
  }

  lemma DropCounts(k: Book, dp: bool, uncounted: int, id: Id)
    requires CountsOk(k, uncounted) && id in k.info && !k.info[id].fInTried && |k.random| > 0
    ensures CountsOk(Dropped(k, dp, id), uncounted)
  {
    var k' := Dropped(k, dp, id);
    assert NewIds(k'.info) == NewIds(k.info) - {id};
    assert TriedIds(k'.info) == TriedIds(k.info);
  }

  lemma NoRefs(k: Book, limbo: set<Id>, id: Id, s: Slot)
    requires RefsOk(k, limbo) && id in limbo && s in k.newT
    ensures k.newT[s] != id
  {
    assert RefsAt(k, limbo, id);
    assert k.newT[s] == id ==> s in Refs(k.newT, id);
  }

  lemma DropTables(k: Book, h: Hashes, dp: bool, limbo: set<Id>, id: Id)
    requires TablesOk(k, h) && RefsOk(k, limbo) && id in limbo && |k.random| > 0
    ensures TablesOk(Dropped(k, dp, id), h) && RefsOk(Dropped(k, dp, id), limbo - {id})
  {
    var k' := Dropped(k, dp, id);
    forall s <- k'.newT ensures NewAt(k', h, s) { assert NewAt(k, h, s); NoRefs(k, limbo, id, s); }
    forall s <- k'.triedT ensures TriedAt(k', h, s) { assert TriedAt(k, h, s); }
    forall i <- k'.info ensures PlacedAt(k', h, i) && RefsAt(k', limbo - {id}, i) {
      assert PlacedAt(k, h, i) && RefsAt(k, limbo, i);
    }
  }

  /** `Delete`: the entry is swapped to the end of `random` and dropped from every index. */
  function Deleted(k: Book, dp: bool, id: Id): Book
    requires RandomOk(k) && id in k.info
  {
    assert RandomAt(k, id);
    SwapRandomOk(k, k.info[id].nRandomPos, |k.random| - 1);
    assert SameEntry(k.info, Swapped(k, k.info[id].nRandomPos, |k.random| - 1).info, id);
    Dropped(Swapped(k, k.info[id].nRandomPos, |k.random| - 1), dp, id)
  }

  lemma DropKeeps(k: Book, h: Hashes, dp: bool, limbo: set<Id>, uncounted: int, id: Id)
    requires Mid(k, h, dp, limbo, uncounted) && id in limbo && id in k.info && k.info[id].nRandomPos == |k.random| - 1 >= 0
    ensures Mid(Dropped(k, dp, id), h, dp, limbo - {id}, uncounted)
  {
    LimboUnreferenced(k, h, dp, limbo, uncounted, id);
    DropIndexes(k, dp, id);
    DropCounts(k, dp, uncounted, id);
    DropTables(k, h, dp, limbo, id);
  }

  lemma DeleteKeeps(k: Book, h: Hashes, dp: bool, limbo: set<Id>, uncounted: int, id: Id)
    requires Mid(k, h, dp, limbo, uncounted) && id in limbo
    ensures Mid(Deleted(k, dp, id), h, dp, limbo - {id}, uncounted)
  {
    LimboUnreferenced(k, h, dp, limbo, uncounted, id);
    OfId(k, h, dp, limbo, uncounted, id);
    hide Mid, RandomOk, Dropped;
    var p, q := k.info[id].nRandomPos, |k.random| - 1;
    OfPlace(k, h, dp, limbo, uncounted, q);
    SwapKeeps(k, h, dp, limbo, uncounted, p, q);
    SwapRandomOk(k, p, q);
    assert SameEntry(k.info, Swapped(k, p, q).info, id);
    DropKeeps(Swapped(k, p, q), h, dp, limbo, uncounted, id);
  }

  /** An entry is untouched, except that it may have moved within `random`. */
  predicate Kept(a: map<Id, AddrInfo>, b: map<Id, AddrInfo>, id: Id) {
    id in a && id in b && b[id] == a[id].(nRandomPos := b[id].nRandomPos)
  }

  /** The entry loses one reference and nothing else, or is gone if it had no other. */
  predicate OneLess(a: map<Id, AddrInfo>, b: map<Id, AddrInfo>, id: Id) {
    && id in a && (id in b <==> a[id].nRefCount > 1)
    && (id in b ==> b[id] == a[id].(nRefCount := a[id].nRefCount - 1, nRandomPos := b[id].nRandomPos))
  }

  /** Freeing a slot costs its occupant one reference; no other entry outside `mine` changes. */
  ghost predicate Freed(k: Book, info: map<Id, AddrInfo>, s: Slot, mine: set<Id>) {
    forall id <- k.info :: id !in mine ==>
      if s in k.newT && k.newT[s] == id then OneLess(k.info, info, id) else Kept(k.info, info, id)
  }

  /** No entry outside `mine` changes. */
  ghost predicate AllKept(k: Book, info: map<Id, AddrInfo>, mine: set<Id>) {
    forall id <- k.info :: id !in mine ==> Kept(k.info, info, id)
  }

  /** Freeing a slot and then giving it to an entry that was not in it. */
  lemma FreedFor(k: Book, info: map<Id, AddrInfo>, s: Slot, id: Id)
    requires Freed(k, info, s, {}) && id in k.info && !(s in k.newT && k.newT[s] == id)
    ensures Kept(k.info, info, id) && Freed(k, info[id := info[id].(nRefCount := info[id].nRefCount + 1)], s, {id})
  {
  }

  /** What happens around a newcomer happens to the book without it. */
  lemma AroundNewcomer(k: Book, was: Book, info: map<Id, AddrInfo>, s: Slot, id: Id)
    requires id !in k.info && was.info.Keys == k.info.Keys + {id} && was.newT == k.newT && info.Keys <= was.info.Keys
    requires forall x <- k.info :: x in was.info && was.info[x] == k.info[x]
    ensures Freed(was, info, s, {id}) ==> Freed(k, info, s, {})
    ensures AllKept(was, info, {id}) && id !in info ==> AllKept(k, info, {}) && info.Keys == k.info.Keys
  {
    if AllKept(was, info, {id}) && id !in info {
      forall x <- k.info ensures x in info { assert Kept(was.info, info, x); }
    }
  }

  /** What happens around an entry that was just touched happens to the book before that. */
  lemma AroundTouched(k: Book, was: Book, info: map<Id, AddrInfo>, s: Slot, id: Id)
    requires id in k.info && id in was.info && was.info == k.info[id := was.info[id]] && was.newT == k.newT
    ensures Freed(was, info, s, {id}) ==> Freed(k, info, s, {id})
    ensures AllKept(was, info, {id}) ==> AllKept(k, info, {id})
    ensures info == was.info ==> AllKept(k, info, {id})
  {
  }

  lemma AllKeptSelf(k: Book)
    ensures AllKept(k, k.info, {})
  {
  }

  lemma AllKeptTrans(k: Book, k': Book, info: map<Id, AddrInfo>)
    requires AllKept(k, k'.info, {}) && forall id <- k'.info :: Kept(k'.info, info, id)
    ensures AllKept(k, info, {})
  {
  }

  lemma LossesAround(a: map<Service, Id>, key: Service, id: Id, b: map<Service, Id>)
    requires key !in a && LosesAtMostOne(a[key := id], b)
    ensures LosesAtMostOne(a, b)
  {
    var lost :| LosesOnly(a[key := id], b, lost);
    assert LosesOnly(a, b, lost);
  }

  lemma DeleteKeepsOthers(k: Book, dp: bool, id: Id, other: Id)
    requires RandomOk(k) && id in k.info && other in k.info && other != id
    ensures Kept(k.info, Deleted(k, dp, id).info, other)
  {
    assert RandomAt(k, id) && PlaceAt(k, k.info[id].nRandomPos) && PlaceAt(k, |k.random| - 1);
  }

  lemma DeleteDropsKey(k: Book, h: Hashes, dp: bool, limbo: set<Id>, uncounted: int, id: Id)
    requires Mid(k, h, dp, limbo, uncounted) && id in k.info
    ensures Deleted(k, dp, id).addr == k.addr - {Norm(dp, k.info[id].service)}
    ensures Deleted(k, dp, id).info.Keys == k.info.Keys - {id}
    ensures Deleted(k, dp, id).newT == k.newT && Deleted(k, dp, id).triedT == k.triedT
  {
    assert RandomAt(k, id) && PlaceAt(k, k.info[id].nRandomPos) && PlaceAt(k, |k.random| - 1);
    var p, q := k.info[id].nRandomPos, |k.random| - 1;
    SwapRandomOk(k, p, q);
    assert SameEntry(k.info, Swapped(k, p, q).info, id);
    assert Swapped(k, p, q).info.Keys == k.info.Keys;
  }

  /** The address is known, with this very port. */
  predicate Knows(k: Book, dp: bool, a: Service) {
    var key := Norm(dp, a);
    key in k.addr && k.addr[key] in k.info && k.info[k.addr[key]].service == a
  }

  function Entry(k: Book, dp: bool, a: Service): AddrInfo
    requires Knows(k, dp, a)
  {
    k.info[k.addr[Norm(dp, a)]]
  }

  /** Every address but at most one is still known, under the same id. */
  ghost predicate LosesAtMostOne(a: map<Service, Id>, b: map<Service, Id>) {
    exists lost :: LosesOnly(a, b, lost)
  }

  lemma LosesNothing(a: map<Service, Id>)
    ensures LosesAtMostOne(a, a)
  {
    assert LosesOnly(a, a, Service(0, 0));
  }

  predicate Within(a: map<Service, Id>, b: map<Service, Id>) {
    forall x <- a :: x in b && b[x] == a[x]
  }

  predicate LosesOnly(a: map<Service, Id>, b: map<Service, Id>, lost: Service) {
    forall x <- a :: x == lost || (x in b && b[x] == a[x])
  }

  lemma AlikeSelf(k: Book)
    ensures Alike(k, k)
  {
  }

  lemma AlikeTrans(a: Book, b: Book, c: Book)
    requires Alike(a, b) && Alike(b, c)
    ensures Alike(a, c)
  {
    forall id ensures SameEntry(a.info, c.info, id) {
      assert SameEntry(a.info, b.info, id) && SameEntry(b.info, c.info, id);
    }
  }

  /** No id occurs twice in `random`. */
  lemma NotBefore(k: Book, n: int)
    requires RandomOk(k) && 0 <= n < |k.random|
    ensures k.random[n] !in k.random[..n]
  {
    assert PlaceAt(k, n);
    forall p | 0 <= p < n ensures k.random[p] != k.random[n] { assert PlaceAt(k, p); }
  }

  /** A key is known after an operation exactly when its entry survived it. */
  lemma KeyKnown(k: Book, k': Book, h: Hashes, dp: bool, id: Id)
    requires Inv(k', h, dp) && id in k.info
    requires id in k'.info ==> k'.info[id].service == k.info[id].service
    requires Norm(dp, k.info[id].service) in k'.addr ==> k'.addr[Norm(dp, k.info[id].service)] == id
    ensures id in k'.info <==> Norm(dp, k.info[id].service) in k'.addr
  {
    var a := Norm(dp, k.info[id].service);
    if a in k'.addr { assert KeyAt(k', dp, a); }
    if id in k'.info { assert KeyedAt(k', dp, id); }
  }

  lemma RefsPlaced(k: Book, h: Hashes, dp: bool, limbo: set<Id>, uncounted: int, id: Id)
    requires Mid(k, h, dp, limbo, uncounted) && id in k.info
    ensures forall s <- Refs(k.newT, id) :: s.1 == Position(h, k.info[id].service, true, s.0)
  {
    hide Mid, Position;
    forall s <- Refs(k.newT, id) ensures s.1 == Position(h, k.info[id].service, true, s.0) {
      OfNewSlot(k, h, dp, limbo, uncounted, s);
    }
  }

  // ----- moving entries between the tables

  predicate SameIndex(a: map<Id, AddrInfo>, b: map<Id, AddrInfo>, id: Id) {
    (id in a <==> id in b) && (id in a ==> b[id].service == a[id].service && b[id].nRandomPos == a[id].nRandomPos)
  }

  /** Moving an entry between tables touches neither `random` nor `addr`. */
  lemma IndexesKeep(k: Book, k': Book, dp: bool)
    requires RandomOk(k) && AddrOk(k, dp)
    requires k'.random == k.random && k'.addr == k.addr && k'.nIdCount == k.nIdCount
    requires forall id :: SameIndex(k.info, k'.info, id)
    ensures RandomOk(k') && AddrOk(k', dp)
  {
    forall i <- k'.info ensures RandomAt(k', i) && KeyedAt(k', dp, i) {
      assert SameIndex(k.info, k'.info, i) && RandomAt(k, i) && KeyedAt(k, dp, i);
    }
    forall p | 0 <= p < |k'.random| ensures PlaceAt(k', p) {
      assert PlaceAt(k, p) && SameIndex(k.info, k'.info, k.random[p]);
    }
    forall a <- k'.addr ensures KeyAt(k', dp, a) {
      assert KeyAt(k, dp, a) && SameIndex(k.info, k'.info, k.addr[a]);
    }
  }

  /** One slot of the new table is emptied and its occupant loses that reference. */
  function Unreferenced(k: Book, s: Slot): Book
    requires s in k.newT && k.newT[s] in k.info
  {
    var id := k.newT[s];
    k.(info := k.info[id := k.info[id].(nRefCount := k.info[id].nRefCount - 1)], newT := k.newT - {s})
  }

  lemma RefsRemoved(newT: map<Slot, Id>, s: Slot, id: Id)
    requires s in newT
    ensures Refs(newT - {s}, id) == Refs(newT, id) - {s}
    ensures |Refs(newT - {s}, id)| == |Refs(newT, id)| - if newT[s] == id then 1 else 0
  {
    assert Refs(newT - {s}, id) == Refs(newT, id) - {s};
  }

  lemma RefsAdded(newT: map<Slot, Id>, s: Slot, x: Id, id: Id)
    requires s !in newT
    ensures Refs(newT[s := x], id) == Refs(newT, id) + if x == id then {s} else {}
    ensures |Refs(newT[s := x], id)| == |Refs(newT, id)| + if x == id then 1 else 0
  {
    assert Refs(newT[s := x], id) == Refs(newT, id) + if x == id then {s} else {};
  }

  function LimboAfter(k: Book, limbo: set<Id>, s: Slot): set<Id>
    requires s in k.newT && k.newT[s] in k.info
  {
    if k.info[k.newT[s]].nRefCount == 1 then limbo + {k.newT[s]} else limbo
  }

  lemma UnreferenceRefs(k: Book, h: Hashes, limbo: set<Id>, s: Slot)
    requires RefsOk(k, limbo) && s in k.newT && NewAt(k, h, s)
    ensures k.info[k.newT[s]].nRefCount > 0
    ensures RefsOk(Unreferenced(k, s), LimboAfter(k, limbo, s))
  {
    var id, k', limbo' := k.newT[s], Unreferenced(k, s), LimboAfter(k, limbo, s);
    assert RefsAt(k, limbo, id) && s in Refs(k.newT, id);
    forall i <- k'.info ensures RefsAt(k', limbo', i) {
      assert RefsAt(k, limbo, i);
      RefsRemoved(k.newT, s, i);
    }
  }

  lemma UnreferenceTables(k: Book, h: Hashes, s: Slot)
    requires TablesOk(k, h) && s in k.newT && NewAt(k, h, s)
    ensures TablesOk(Unreferenced(k, s), h)
  {
    var k' := Unreferenced(k, s);
    forall i <- k'.info ensures PlacedAt(k', h, i) { assert PlacedAt(k, h, i); }
    forall t <- k'.newT ensures NewAt(k', h, t) { assert NewAt(k, h, t); }
    forall t <- k'.triedT ensures TriedAt(k', h, t) { assert TriedAt(k, h, t); }
  }

  /** The entry joins the limbo when that was its last reference. */
  lemma UnreferenceKeeps(k: Book, h: Hashes, dp: bool, limbo: set<Id>, uncounted: int, s: Slot)
    requires Mid(k, h, dp, limbo, uncounted) && s in k.newT
    ensures k.newT[s] in k.info && k.info[k.newT[s]].nRefCount > 0
    ensures Mid(Unreferenced(k, s), h, dp, LimboAfter(k, limbo, s), uncounted)
  {
    assert NewAt(k, h, s);
    var k' := Unreferenced(k, s);
    UnreferenceRefs(k, h, limbo, s);
    UnreferenceTables(k, h, s);
    IndexesKeep(k, k', dp);
    assert NewIds(k'.info) == NewIds(k.info) && TriedIds(k'.info) == TriedIds(k.info);
  }

  /** A free slot of the new table is given to an entry, with `n` as its new reference count. */
  function Referenced(k: Book, s: Slot, id: Id, n: int): Book
    requires id in k.info
  {
    k.(info := k.info[id := k.info[id].(nRefCount := n)], newT := k.newT[s := id])
  }

  lemma ReferenceKeeps(k: Book, h: Hashes, dp: bool, limbo: set<Id>, uncounted: int, s: Slot, id: Id)
    requires Mid(k, h, dp, limbo, uncounted) && s !in k.newT
    requires id in k.info && !k.info[id].fInTried && k.info[id].nRefCount < BUCKETS_PER_ADDRESS
    requires 0 <= s.0 < NEW_BUCKETS && s.1 == Position(h, k.info[id].service, true, s.0)
    ensures Mid(Referenced(k, s, id, k.info[id].nRefCount + 1), h, dp, limbo - {id}, uncounted)
  {
    var k' := Referenced(k, s, id, k.info[id].nRefCount + 1);
    forall i <- k'.info
      ensures PlacedAt(k', h, i) && RefsAt(k', limbo - {id}, i)
    {
      assert PlacedAt(k, h, i) && RefsAt(k, limbo, i);
      RefsAdded(k.newT, s, id, i);
    }
    IndexesKeep(k, k', dp);
    forall t <- k'.newT ensures NewAt(k', h, t) { if t != s { assert NewAt(k, h, t); } }
    forall t <- k'.triedT ensures TriedAt(k', h, t) { assert TriedAt(k, h, t); }
    assert NewIds(k'.info) == NewIds(k.info) && TriedIds(k'.info) == TriedIds(k.info);
  }

  /** The occupant of a tried slot leaves the tried table. */
  function Evicted(k: Book, s: Slot): Book
    requires s in k.triedT && k.triedT[s] in k.info
  {
    var id := k.triedT[s];
    k.(info := k.info[id := k.info[id].(fInTried := false)], triedT := k.triedT - {s}, nTried := k.nTried - 1)
  }

  lemma EvictCounts(k: Book, uncounted: int, s: Slot)
    requires CountsOk(k, uncounted) && s in k.triedT && k.triedT[s] in k.info && k.info[k.triedT[s]].fInTried
    ensures CountsOk(Evicted(k, s), uncounted + 1)
  {
    var id, k' := k.triedT[s], Evicted(k, s);
    assert NewIds(k'.info) == NewIds(k.info) + {id} && TriedIds(k'.info) == TriedIds(k.info) - {id};
  }

  lemma EvictTables(k: Book, h: Hashes, limbo: set<Id>, s: Slot)
    requires TablesOk(k, h) && RefsOk(k, limbo) && s in k.triedT && k.triedT[s] in k.info && TriedAt(k, h, s)
    ensures TablesOk(Evicted(k, s), h)
  {
    var id, k' := k.triedT[s], Evicted(k, s);
    assert RefsAt(k, limbo, id);
    assert Refs(k.newT, id) == {};
    forall i <- k'.info ensures PlacedAt(k', h, i) { assert PlacedAt(k, h, i); }
    forall t <- k'.newT ensures NewAt(k', h, t) { assert NewAt(k, h, t) && (k.newT[t] == id ==> t in Refs(k.newT, id)); }
    forall t <- k'.triedT ensures TriedAt(k', h, t) {
      assert TriedAt(k, h, t);
      assert k.triedT[t] == id ==> t == s;
    }
  }

  lemma EvictKeeps(k: Book, h: Hashes, dp: bool, limbo: set<Id>, uncounted: int, s: Slot)
    requires Mid(k, h, dp, limbo, uncounted) && s in k.triedT
    ensures k.triedT[s] in k.info && k.triedT[s] !in limbo
    ensures Mid(Evicted(k, s), h, dp, limbo + {k.triedT[s]}, uncounted + 1)
  {
    var id := k.triedT[s];
    assert TriedAt(k, h, s) && RefsAt(k, limbo, id);
    var k' := Evicted(k, s);
    forall i <- k'.info ensures RefsAt(k', limbo + {id}, i) { assert RefsAt(k, limbo, i); }
    IndexesKeep(k, k', dp);
    EvictTables(k, h, limbo, s);
    EvictCounts(k, uncounted, s);
  }

  /** An entry in limbo takes its free tried slot. */
  function Promoted(k: Book, s: Slot, id: Id): Book
    requires id in k.info
  {
    k.(info := k.info[id := k.info[id].(fInTried := true)], triedT := k.triedT[s := id], nTried := k.nTried + 1)
  }

  lemma PromoteKeeps(k: Book, h: Hashes, dp: bool, limbo: set<Id>, uncounted: int, id: Id)
    requires Mid(k, h, dp, limbo, uncounted) && id in limbo
    requires TriedSlot(h, k.info[id].service) !in k.triedT
    ensures Mid(Promoted(k, TriedSlot(h, k.info[id].service), id), h, dp, limbo - {id}, uncounted - 1)
  {
    var s := TriedSlot(h, k.info[id].service);
    var k' := Promoted(k, s, id);
    assert RefsAt(k, limbo, id);
    forall i <- k'.info
      ensures PlacedAt(k', h, i) && RefsAt(k', limbo - {id}, i)
    {
      assert PlacedAt(k, h, i) && RefsAt(k, limbo, i);
    }
    IndexesKeep(k, k', dp);
    forall t <- k'.newT ensures NewAt(k', h, t) { assert NewAt(k, h, t); NoRefs(k, limbo, id, t); }
    forall t <- k'.triedT ensures TriedAt(k', h, t) { if t != s { assert TriedAt(k, h, t); } }
    assert NewIds(k'.info) == NewIds(k.info) - {id} && TriedIds(k'.info) == TriedIds(k.info) + {id};
  }

  /** Only `nNew` moves. */
  lemma RecountKeeps(k: Book, h: Hashes, dp: bool, limbo: set<Id>, uncounted: int, n: int)
    requires Mid(k, h, dp, limbo, uncounted)
    ensures Mid(k.(nNew := k.nNew + n), h, dp, limbo, uncounted - n)
  {
    var k' := k.(nNew := k.nNew + n);
    forall i <- k'.info
      ensures PlacedAt(k', h, i) && RefsAt(k', limbo, i)
    {
      assert PlacedAt(k, h, i) && RefsAt(k, limbo, i);
    }
    IndexesKeep(k, k', dp);
    forall t <- k'.newT ensures NewAt(k', h, t) { assert NewAt(k, h, t); }
    forall t <- k'.triedT ensures TriedAt(k', h, t) { assert TriedAt(k, h, t); }
  }
}
