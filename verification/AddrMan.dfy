/** The stochastic address manager: buckets of new and tried addresses with their indexes, updated in place. */
module AddrMan {
  import opened Wrappers
  import opened AddrManDisk
  import opened AddrManSpec
  import ArithSpec

  const HORIZON_DAYS := 30
  const RETRIES := 3
  const MAX_FAILURES := 10
  const MIN_FAIL_DAYS := 7
  const GETADDR_MAX_PCT := 23
  const GETADDR_MAX := 2500
  const DAY := 24 * 60 * 60

  lemma PlaceIrrelevant(a: AddrInfo, place: int, nNow: int)
    ensures IsTerrible(a.(nRandomPos := place), nNow) == IsTerrible(a, nNow)
  {
  }

  predicate IsTerrible(a: AddrInfo, nNow: int) {
    if a.nLastTry != 0 && a.nLastTry >= nNow - 60 then false
    else if a.nTime > nNow + 10 * 60 then true
    else if a.nTime == 0 || nNow - a.nTime > HORIZON_DAYS * DAY then true
    else if a.nLastSuccess == 0 && a.nAttempts >= RETRIES then true
    else nNow - a.nLastSuccess > MIN_FAIL_DAYS * DAY && a.nAttempts >= MAX_FAILURES
  }

  /** An entry tried within the last minute is given out whatever else is known of it; one that was not is
      terrible when its time is missing, ten minutes ahead or over thirty days old; otherwise its failures decide. */
  lemma TerribleExactlyWhen(a: AddrInfo, nNow: int)
    ensures a.nLastTry != 0 && a.nLastTry >= nNow - 60 ==> !IsTerrible(a, nNow)
    ensures a.nLastTry == 0 || a.nLastTry < nNow - 60 ==>
              (a.nTime == 0 || a.nTime < nNow - 2_592_000 || nNow + 600 < a.nTime ==> IsTerrible(a, nNow))
    ensures (a.nLastTry == 0 || a.nLastTry < nNow - 60) && a.nTime != 0 && nNow - 2_592_000 <= a.nTime <= nNow + 600 ==>
              (IsTerrible(a, nNow) <==>
                 (a.nAttempts >= 3 && a.nLastSuccess == 0) || (a.nAttempts >= 10 && a.nLastSuccess < nNow - 604_800))
  {
  }

  /** `cells` is a bucket table and `occupied` lists its cells that hold an id. */
  ghost predicate Lists(cells: array2<int>, buckets: int, occupied: map<Slot, Id>)
    reads cells
  {
    && cells.Length0 == buckets && cells.Length1 == BUCKET_SIZE
    && (forall s <- occupied :: 0 <= s.0 < buckets && 0 <= s.1 < BUCKET_SIZE && occupied[s] >= 0)
    && (forall b, i | 0 <= b < buckets && 0 <= i < BUCKET_SIZE ::
          cells[b, i] == if (b, i) in occupied then occupied[(b, i)] else -1)
  }

  method Cell(cells: array2<int>, b: int, i: int, ghost buckets: int, ghost occupied: map<Slot, Id>) returns (id: Id)
    requires Lists(cells, buckets, occupied) && 0 <= b < buckets && 0 <= i < BUCKET_SIZE
    ensures id == if (b, i) in occupied then occupied[(b, i)] else -1
    ensures id >= -1 && (id == -1 <==> (b, i) !in occupied)
  {
    id := cells[b, i];
  }

  method Put(cells: array2<int>, b: int, i: int, id: Id, ghost buckets: int, ghost occupied: map<Slot, Id>)
    requires Lists(cells, buckets, occupied) && 0 <= b < buckets && 0 <= i < BUCKET_SIZE && id >= -1
    modifies cells
    ensures Lists(cells, buckets, if id == -1 then occupied - {(b, i)} else occupied[(b, i) := id])
  {
    cells[b, i] := id;
  }

  /** A known address heard of again: its time moves only after a while, and services accumulate. */
  function Refreshed(a: AddrInfo, nTime: int, nServices: set<nat>, nTimePenalty: int, nNow: int): AddrInfo {
    var nUpdateInterval := if nNow - nTime < DAY then 60 * 60 else DAY;
    a.(nTime := if nTime != 0 && (a.nTime == 0 || a.nTime < nTime - nUpdateInterval - nTimePenalty) then Max(0, nTime - nTimePenalty) else a.nTime,
       nServices := a.nServices + nServices)
  }

  /** What must hold of a refreshed entry before another reference is drawn for. */
  predicate MoreWanted(a: AddrInfo, nTime: int) {
    nTime != 0 && (a.nTime == 0 || a.nTime < nTime) && !a.fInTried && a.nRefCount != BUCKETS_PER_ADDRESS
  }

  /** The slot goes to the entry: it is empty, or its occupant is terrible, or can spare it for one that has none. */
  predicate SlotTaken(k: Book, id: Id, s: Slot, nNow: int)
    requires id in k.info
  {
    s in k.newT && k.newT[s] in k.info ==>
      k.newT[s] != id && (IsTerrible(k.info[k.newT[s]], nNow) || (k.info[k.newT[s]].nRefCount > 1 && k.info[id].nRefCount == 0))
  }

  /** A newcomer may take the slot from whoever is in it. */
  predicate SlotReplaceable(k: Book, s: Slot, nNow: int) {
    s in k.newT && k.newT[s] in k.info ==> IsTerrible(k.info[k.newT[s]], nNow) || k.info[k.newT[s]].nRefCount > 1
  }

  /** What hearing again of a known address does to its entry and to the new table, when `r` was drawn. */
  ghost predicate Announced(k: Book, k': Book, h: Hashes, id: Id, nTime: int, nServices: set<nat>, source: NetAddr, penalty: int, nNow: int, r: nat) {
    && id in k.info && id in k'.info
    && var e := Refreshed(k.info[id], nTime, nServices, penalty, nNow);
       var slot := NewSlot(h, e.service, source);
       var placed := MoreWanted(e, nTime) && r == 0 && SlotTaken(k, id, slot, nNow);
       && e.nRefCount >= 0 && r < ArithSpec.Pow2(e.nRefCount)
       && k'.info[id] == e.(nRefCount := if placed then e.nRefCount + 1 else e.nRefCount, nRandomPos := k'.info[id].nRandomPos)
       && k'.newT == (if placed then k.newT[slot := id] else k.newT) && k'.triedT == k.triedT
       && k'.info.Keys <= k.info.Keys && if placed then Freed(k, k'.info, slot, {id}) else AllKept(k, k'.info, {id})
  }

  /** The bucket probed in round `n` when probing starts at `start`. */
  function Probe(n: nat, start: nat): int { (n + start) % NEW_BUCKETS }

  /** The new table without the references of one entry. */
  function Without(newT: map<Slot, Id>, id: Id): map<Slot, Id> { map s | s in newT && newT[s] != id :: newT[s] }

  /** The new table with the entry out of one bucket, and out of the first `n`. */
  function OutOf(newT: map<Slot, Id>, id: Id, bucket: int): map<Slot, Id> {
    map s | s in newT && !(newT[s] == id && s.0 == bucket) :: newT[s]
  }

  function OutOfFirst(newT: map<Slot, Id>, id: Id, n: int): map<Slot, Id> {
    map s | s in newT && !(newT[s] == id && s.0 < n) :: newT[s]
  }

  lemma OnlyAt(newT: map<Slot, Id>, id: Id, bucket: int, pos: int)
    requires forall s <- Refs(newT, id) :: s.0 == bucket ==> s.1 == pos
    ensures OutOf(newT, id, bucket) == if (bucket, pos) in newT && newT[(bucket, pos)] == id then newT - {(bucket, pos)} else newT
  {
    forall s <- newT ensures s !in OutOf(newT, id, bucket) <==> newT[s] == id && s == (bucket, pos) {
      assert newT[s] == id ==> s in Refs(newT, id);
    }
  }

  lemma OutOfNone(newT: map<Slot, Id>, id: Id)
    requires forall s <- Refs(newT, id) :: 0 <= s.0
    ensures OutOfFirst(newT, id, 0) == newT
  {
    forall s <- newT ensures s in OutOfFirst(newT, id, 0) { assert newT[s] == id ==> s in Refs(newT, id); }
  }

  lemma OutOfNext(newT: map<Slot, Id>, id: Id, n: int)
    ensures OutOf(OutOfFirst(newT, id, n), id, n) == OutOfFirst(newT, id, n + 1)
  {
  }

  lemma OutOfAll(newT: map<Slot, Id>, id: Id)
    requires forall s <- Refs(newT, id) :: s.0 < NEW_BUCKETS
    ensures OutOfFirst(newT, id, NEW_BUCKETS) == Without(newT, id) && Refs(Without(newT, id), id) == {}
  {
    forall s <- newT ensures s in OutOfFirst(newT, id, NEW_BUCKETS) <==> newT[s] != id {
      assert newT[s] == id ==> s in Refs(newT, id);
    }
  }

  /** What moving an entry to the tried table does: it leaves every new bucket for its tried slot; an entry
      found there goes back to the new slot of its own source, whose occupant loses one reference; no other
      entry changes. */
  ghost predicate MadeTried(k: Book, k': Book, h: Hashes, id: Id) {
    && id in k.info && id in k'.info
    && k'.info[id] == k.info[id].(nRefCount := 0, fInTried := true, nRandomPos := k'.info[id].nRandomPos)
    && var slot, rest := TriedSlot(h, k.info[id].service), Without(k.newT, id);
       && k'.triedT == k.triedT[slot := id] && k'.info.Keys <= k.info.Keys
       && if slot !in k.triedT then
            k'.newT == rest && AllKept(k, k'.info, {id})
          else
            var ev := k.triedT[slot];
            && ev in k.info && ev in k'.info && ev != id
            && k'.info[ev] == k.info[ev].(fInTried := false, nRefCount := 1, nRandomPos := k'.info[ev].nRandomPos)
            && var s := NewSlot(h, k.info[ev].service, k.info[ev].source);
               k'.newT == rest[s := ev] && Freed(k.(newT := rest), k'.info, s, {id, ev})
  }

  /** The book `mid`, without the entry's references, and `last`, with its tried slot free, on the way there. */
  lemma TriedAtLast(k: Book, mid: Book, last: Book, h: Hashes, id: Id)
    requires id in k.info && id in last.info && mid.info == k.info[id := k.info[id].(nRefCount := 0)]
    requires mid.newT == Without(k.newT, id) && mid.triedT == k.triedT
    requires Kept(mid.info, last.info, id) && last.info.Keys <= mid.info.Keys
    requires var slot := TriedSlot(h, k.info[id].service);
             && last.triedT == mid.triedT - {slot}
             && if slot !in k.triedT then last.info == mid.info && last.newT == mid.newT
                else
                  var ev := k.triedT[slot];
                  && ev in mid.info && ev in last.info && ev != id
                  && last.info[ev] == mid.info[ev].(fInTried := false, nRefCount := 1, nRandomPos := last.info[ev].nRandomPos)
                  && var s := NewSlot(h, last.info[ev].service, last.info[ev].source);
                     last.newT == mid.newT[s := ev] && Freed(mid, last.info, s, {ev})
    ensures MadeTried(k, Promoted(last, TriedSlot(h, k.info[id].service), id), h, id)
  {
    hide Without, TriedSlot, NewSlot;
    var slot := TriedSlot(h, k.info[id].service);
    var k' := Promoted(last, slot, id);
    assert k'.triedT == k.triedT[slot := id];
    if slot in k.triedT {
      var ev := k.triedT[slot];
      var s := NewSlot(h, k.info[ev].service, k.info[ev].source);
      forall x <- k.info | x != id && x != ev
        ensures if s in mid.newT && mid.newT[s] == x then OneLess(k.info, k'.info, x) else Kept(k.info, k'.info, x)
      {
        assert x in mid.info && mid.info[x] == k.info[x];
        assert x in k'.info <==> x in last.info;
      }
    }
  }

  function Buckets(newT: map<Slot, Id>, id: Id): set<int> { set s | s in Refs(newT, id) :: s.0 }

  lemma ProbeReaches(bucket: int, start: nat)
    requires 0 <= bucket < NEW_BUCKETS && start < NEW_BUCKETS
    ensures exists m: nat :: m < NEW_BUCKETS && Probe(m, start) == bucket
  {
    var m: nat := if start <= bucket then bucket - start else bucket - start + NEW_BUCKETS;
    assert Probe(m, start) == bucket;
  }

  datatype Op =
    | OpAdd(a: Service, nTime: int, nServices: set<nat>, source: NetAddr, penalty: int, nNow: int)
    | OpGood(a: Service, nTime: int)
    | OpAttempt(a: Service, fCountFailure: bool, nTime: int)
    | OpConnected(a: Service, nTime: int)
    | OpServices(a: Service, nServices: set<nat>)
    | OpGetAddr(nNow: int)

  ghost predicate HeardAgain(k: Book, k': Book, h: Hashes, id: Id, nTime: int, nServices: set<nat>, source: NetAddr, penalty: int, nNow: int) {
    exists r: nat :: Announced(k, k', h, id, nTime, nServices, source, penalty, nNow, r)
  }

  /** An unknown address is stored in its slot or dropped, depending on who is in that slot. */
  ghost predicate Introduced(k: Book, k': Book, h: Hashes, dp: bool, a: Service, nTime: int, nServices: set<nat>, source: NetAddr, penalty: int, nNow: int) {
    && LosesAtMostOne(k.addr, k'.addr) && k'.triedT == k.triedT
    && if SlotReplaceable(k, NewSlot(h, a, source), nNow) then
         && Freed(k, k'.info, NewSlot(h, a, source), {})
         && Knows(k', dp, a) && k'.info.Keys <= k.info.Keys + {k'.addr[Norm(dp, a)]} && k'.newT == k.newT[NewSlot(h, a, source) := k'.addr[Norm(dp, a)]]
         && var e := Entry(k', dp, a);
            e == AddrInfo(a, Max(0, nTime - penalty), nServices, source, 0, 0, 0, 0, 1, false, e.nRandomPos)
       else
         k'.addr == k.addr && k'.newT == k.newT && AllKept(k, k'.info, {}) && k'.info.Keys == k.info.Keys
  }

  /** What an operation does to the tables. */
  ghost predicate Did(op: Op, k: Book, k': Book, h: Hashes, routable: Service -> bool, dp: bool) {
    match op
    case OpAdd(a, nTime, nServices, source, penalty, nNow) =>
      var pen := if a.ip == source then 0 else penalty;
      if !routable(a) then k' == k
      else if Norm(dp, a) in k.addr then
        HeardAgain(k, k', h, k.addr[Norm(dp, a)], nTime, nServices, source, pen, nNow)
      else Introduced(k, k', h, dp, a, nTime, nServices, source, pen, nNow)
    case OpGood(a, nTime) =>
      if !Knows(k, dp, a) then k' == k
      else
        && Knows(k', dp, a) && LosesAtMostOne(k.addr, k'.addr)
        && var e := Entry(k', dp, a);
           e == Entry(k, dp, a).(nLastSuccess := nTime, nLastTry := nTime, nAttempts := 0,
                                 fInTried := true, nRefCount := 0, nRandomPos := e.nRandomPos)
           && var id := k.addr[Norm(dp, a)];
              var touched := Touched(k, id, Entry(k, dp, a).(nLastSuccess := nTime, nLastTry := nTime, nAttempts := 0));
              if Entry(k, dp, a).fInTried then k' == touched else MadeTried(touched, k', h, id)
    case OpAttempt(a, fCountFailure, nTime) =>
      if !Knows(k, dp, a) then k' == k
      else
        && Knows(k', dp, a) && k' == Touched(k, k.addr[Norm(dp, a)], Entry(k', dp, a))
        && var e, e' := Entry(k, dp, a), Entry(k', dp, a);
           || e' == e.(nLastTry := nTime)
           || (fCountFailure && e' == e.(nLastTry := nTime, nLastCountAttempt := nTime, nAttempts := e.nAttempts + 1))
    case OpConnected(a, nTime) =>
      if !Knows(k, dp, a) then k' == k
      else
        && Knows(k', dp, a) && k' == Touched(k, k.addr[Norm(dp, a)], Entry(k', dp, a))
        && var e := Entry(k, dp, a);
           Entry(k', dp, a) == if nTime - e.nTime > 20 * 60 then e.(nTime := nTime) else e
    case OpServices(a, nServices) =>
      if !Knows(k, dp, a) then k' == k
      else
        && Knows(k', dp, a) && k' == Touched(k, k.addr[Norm(dp, a)], Entry(k', dp, a))
        && Entry(k', dp, a) == Entry(k, dp, a).(nServices := nServices)
    case OpGetAddr(_) => Alike(k, k') && AllKept(k, k'.info, {})
  }

  /** The tables along a run, each the result of its operation on the one before. */
  ghost predicate IsTrace(ops: seq<Op>, trace: seq<Book>, h: Hashes, routable: Service -> bool, dp: bool) {
    |trace| == |ops| + 1 && forall i | 0 <= i < |ops| :: Did(ops[i], trace[i], trace[i + 1], h, routable, dp)
  }

  class CAddrMan {
    const h: Hashes
    const routable: Service -> bool
    const discriminatePorts: bool

    var nIdCount: int
    var mapInfo: map<Id, AddrInfo>
    var mapAddr: map<Service, Id>
    var vRandom: seq<Id>
    var nTried: int
    var nNew: int
    var nLastGood: int
    const vvTried: array2<int>
    const vvNew: array2<int>

    ghost var newT: map<Slot, Id>
    ghost var triedT: map<Slot, Id>

    ghost function State(): Book
      reads this
    {
      Book(mapInfo, mapAddr, vRandom, newT, triedT, nNew, nTried, nIdCount)
    }

    ghost predicate During(limbo: set<Id>, uncounted: int)
      reads this, vvNew, vvTried
    {
      vvNew != vvTried && Lists(vvNew, NEW_BUCKETS, newT) && Lists(vvTried, TRIED_BUCKETS, triedT)
      && Mid(State(), h, discriminatePorts, limbo, uncounted)
    }

    ghost predicate Valid()
      reads this, vvNew, vvTried
    {
      During({}, 0)
    }

    constructor (h: Hashes, routable: Service -> bool, discriminatePorts: bool)
      ensures Valid() && State() == EMPTY && fresh(vvNew) && fresh(vvTried)
      ensures this.h == h && this.routable == routable && this.discriminatePorts == discriminatePorts
    {
      this.h, this.routable, this.discriminatePorts := h, routable, discriminatePorts;
      nIdCount, mapInfo, mapAddr, vRandom, nTried, nNew, nLastGood := 0, map[], map[], [], 0, 0, 1;
      vvNew := new int[NEW_BUCKETS, BUCKET_SIZE]((_, _) => -1);
      vvTried := new int[TRIED_BUCKETS, BUCKET_SIZE]((_, _) => -1);
      newT, triedT := map[], map[];
      new;
      EmptyOk(h, discriminatePorts);
    }

    /** The id of the entry with this address (up to its port, unless ports discriminate), or -1. */
    method Find(a: Service) returns (id: Id)
      requires Valid()
      ensures id == -1 <==> Norm(discriminatePorts, a) !in mapAddr
      ensures id != -1 ==> && id in mapInfo && id >= 0 && mapAddr[Norm(discriminatePorts, a)] == id
                           && Norm(discriminatePorts, mapInfo[id].service) == Norm(discriminatePorts, a)
    {
      hide Mid, Lists;
      var a2 := Norm(discriminatePorts, a);
      if a2 !in mapAddr {
        return -1;
      }
      OfKey(State(), h, discriminatePorts, {}, 0, a2);
      id := mapAddr[a2];
    }

    method Create(a: Service, nTime: int, nServices: set<nat>, source: NetAddr) returns (id: Id)
      requires Valid() && Norm(discriminatePorts, a) !in mapAddr
      modifies this`nIdCount, this`mapInfo, this`mapAddr, this`vRandom
      ensures During({id}, 1) && id == old(nIdCount) && id !in old(mapInfo)
      ensures State() == Created(old(State()), discriminatePorts,
                                 AddrInfo(a, nTime, nServices, source, 0, 0, 0, 0, 0, false, -1))
    {
      hide Mid, Lists;
      CreateKeeps(State(), h, discriminatePorts, AddrInfo(a, nTime, nServices, source, 0, 0, 0, 0, 0, false, -1));
      id := nIdCount;
      nIdCount := nIdCount + 1;
      mapInfo := mapInfo[id := AddrInfo(a, nTime, nServices, source, 0, 0, 0, 0, 0, false, |vRandom|)];
      mapAddr := mapAddr[Norm(discriminatePorts, a) := id];
      vRandom := vRandom + [id];
    }

    method SwapRandom(p: int, q: int, ghost limbo: set<Id>, ghost uncounted: int)
      requires During(limbo, uncounted) && 0 <= p < |vRandom| && 0 <= q < |vRandom|
      modifies this`mapInfo, this`vRandom
      ensures During(limbo, uncounted) && old(RandomOk(State()))
      ensures State() == Swapped(old(State()), p, q)
    {
      hide Mid, Lists;
      OfPlace(State(), h, discriminatePorts, limbo, uncounted, p);
      OfPlace(State(), h, discriminatePorts, limbo, uncounted, q);
      SwapKeeps(State(), h, discriminatePorts, limbo, uncounted, p, q);
      if p == q {
        return;
      }
      var id1, id2 := vRandom[p], vRandom[q];
      mapInfo := mapInfo[id1 := mapInfo[id1].(nRandomPos := q)];
      mapInfo := mapInfo[id2 := mapInfo[id2].(nRandomPos := p)];
      vRandom := vRandom[p := id2];
      vRandom := vRandom[q := id1];
    }

    method Delete(id: Id, ghost limbo: set<Id>, ghost uncounted: int)
      requires During(limbo, uncounted) && id in limbo
      modifies this`mapInfo, this`mapAddr, this`vRandom, this`nNew
      ensures During(limbo - {id}, uncounted)
      ensures old(id in mapInfo && RandomOk(State()))
      ensures State() == Deleted(old(State()), discriminatePorts, id)
    {
      hide Mid, Lists, RandomOk, Alike, Swapped;
      OfLimbo(State(), h, discriminatePorts, limbo, uncounted);
      OfId(State(), h, discriminatePorts, limbo, uncounted, id);
      DeleteKeeps(State(), h, discriminatePorts, limbo, uncounted, id);
      assert !mapInfo[id].fInTried && mapInfo[id].nRefCount == 0;
      var a := Norm(discriminatePorts, mapInfo[id].service);
      SwapRandomOk(State(), mapInfo[id].nRandomPos, |vRandom| - 1);
      SwapRandom(mapInfo[id].nRandomPos, |vRandom| - 1, limbo, uncounted);
      assert SameEntry(old(mapInfo), mapInfo, id);
      vRandom := vRandom[..|vRandom| - 1];
      mapAddr := mapAddr - {a};
      mapInfo := mapInfo - {id};
      nNew := nNew - 1;
    }

    // ----- single steps on the tables

    method Unreference(b: int, i: int, ghost limbo: set<Id>, ghost uncounted: int) returns (id: Id)
      requires During(limbo, uncounted) && (b, i) in newT && 0 <= b < NEW_BUCKETS && 0 <= i < BUCKET_SIZE
      modifies this`mapInfo, this`newT, vvNew
      ensures id == old(newT)[(b, i)] && id >= 0 && id !in limbo
      ensures id in old(mapInfo) && old(mapInfo)[id].nRefCount > 0 && !old(mapInfo)[id].fInTried
      ensures State() == Unreferenced(old(State()), (b, i))
      ensures During(LimboAfter(old(State()), limbo, (b, i)), uncounted)
    {
      hide Mid, Lists;
      OfNewSlot(State(), h, discriminatePorts, limbo, uncounted, (b, i));
      UnreferenceKeeps(State(), h, discriminatePorts, limbo, uncounted, (b, i));
      id := Cell(vvNew, b, i, NEW_BUCKETS, newT);
      Put(vvNew, b, i, -1, NEW_BUCKETS, newT);
      newT := newT - {(b, i)};
      mapInfo := mapInfo[id := mapInfo[id].(nRefCount := mapInfo[id].nRefCount - 1)];
    }

    method Reference(s: Slot, id: Id, ghost limbo: set<Id>, ghost uncounted: int)
      requires During(limbo, uncounted) && s !in newT && 0 <= s.0 < NEW_BUCKETS
      requires id in mapInfo && !mapInfo[id].fInTried && mapInfo[id].nRefCount < BUCKETS_PER_ADDRESS
      requires s.1 == Position(h, mapInfo[id].service, true, s.0)
      modifies this`mapInfo, this`newT, vvNew
      ensures State() == Referenced(old(State()), s, id, old(mapInfo)[id].nRefCount + 1)
      ensures During(limbo - {id}, uncounted)
    {
      hide Mid, Lists;
      OfId(State(), h, discriminatePorts, limbo, uncounted, id);
      ReferenceKeeps(State(), h, discriminatePorts, limbo, uncounted, s, id);
      Put(vvNew, s.0, s.1, id, NEW_BUCKETS, newT);
      newT := newT[s := id];
      mapInfo := mapInfo[id := mapInfo[id].(nRefCount := mapInfo[id].nRefCount + 1)];
    }

    method Evict(b: int, i: int, ghost limbo: set<Id>, ghost uncounted: int) returns (id: Id)
      requires During(limbo, uncounted) && (b, i) in triedT && 0 <= b < TRIED_BUCKETS && 0 <= i < BUCKET_SIZE
      modifies this`mapInfo, this`triedT, this`nTried, vvTried
      ensures id == old(triedT)[(b, i)] && id >= 0 && id in old(mapInfo) && id !in limbo
      ensures State() == Evicted(old(State()), (b, i))
      ensures During(limbo + {id}, uncounted + 1)
    {
      hide Mid, Lists;
      EvictKeeps(State(), h, discriminatePorts, limbo, uncounted, (b, i));
      id := Cell(vvTried, b, i, TRIED_BUCKETS, triedT);
      mapInfo := mapInfo[id := mapInfo[id].(fInTried := false)];
      Put(vvTried, b, i, -1, TRIED_BUCKETS, triedT);
      triedT := triedT - {(b, i)};
      nTried := nTried - 1;
    }

    method Promote(id: Id, ghost limbo: set<Id>, ghost uncounted: int)
      requires During(limbo, uncounted) && id in limbo && id in mapInfo
      requires TriedSlot(h, mapInfo[id].service) !in triedT
      modifies this`mapInfo, this`triedT, this`nTried, vvTried
      ensures State() == Promoted(old(State()), TriedSlot(h, old(mapInfo)[id].service), id)
      ensures During(limbo - {id}, uncounted - 1)
    {
      hide Mid, Lists;
      OfId(State(), h, discriminatePorts, limbo, uncounted, id);
      PromoteKeeps(State(), h, discriminatePorts, limbo, uncounted, id);
      var s := TriedSlot(h, mapInfo[id].service);
      Put(vvTried, s.0, s.1, id, TRIED_BUCKETS, triedT);
      triedT := triedT[s := id];
      nTried := nTried + 1;
      mapInfo := mapInfo[id := mapInfo[id].(fInTried := true)];
    }

    method Recount(n: int, ghost limbo: set<Id>, ghost uncounted: int)
      requires During(limbo, uncounted)
      modifies this`nNew
      ensures State() == old(State()).(nNew := old(nNew) + n)
      ensures During(limbo, uncounted - n)
    {
      hide Mid, Lists;
      RecountKeeps(State(), h, discriminatePorts, limbo, uncounted, n);
      nNew := nNew + n;
    }

    // ----- operations

    /** Empties a slot of the new table; an occupant that loses its last reference is deleted. */
    method ClearNew(b: int, i: int, ghost limbo: set<Id>, ghost uncounted: int)
      requires During(limbo, uncounted) && 0 <= b < NEW_BUCKETS && 0 <= i < BUCKET_SIZE
      modifies this`mapInfo, this`mapAddr, this`vRandom, this`nNew, this`newT, vvNew
      ensures During(limbo, uncounted)
      ensures newT == old(newT) - {(b, i)} && triedT == old(triedT)
      ensures Within(mapAddr, old(mapAddr))
      ensures Freed(old(State()), mapInfo, (b, i), {}) && mapInfo.Keys <= old(mapInfo).Keys
      ensures LosesAtMostOne(old(mapAddr), mapAddr)
    {
      hide Mid, Lists;
      var c := Cell(vvNew, b, i, NEW_BUCKETS, newT);
      if c == -1 {
        assert newT - {(b, i)} == newT;
        LosesNothing(mapAddr);
        return;
      }
      ghost var k := State();
      LosesNothing(mapAddr);
      var id := Unreference(b, i, limbo, uncounted);
      if mapInfo[id].nRefCount == 0 {
        ghost var k1 := State();
        OfId(k1, h, discriminatePorts, limbo + {id}, uncounted, id);
        DeleteDropsKey(k1, h, discriminatePorts, limbo + {id}, uncounted, id);
        forall other <- k.info | other != id ensures Kept(k.info, Deleted(k1, discriminatePorts, id).info, other) {
          DeleteKeepsOthers(k1, discriminatePorts, id, other);
        }
        Delete(id, limbo + {id}, uncounted);
        assert limbo + {id} - {id} == limbo;
        assert LosesOnly(old(mapAddr), mapAddr, Norm(discriminatePorts, k1.info[id].service));
      }
    }

    ghost predicate Leaving(id: Id)
      reads this, vvNew, vvTried
    {
      id in mapInfo && During(if Refs(newT, id) == {} then {id} else {}, 0)
    }

    /** Removes the entry from one new bucket, if it is there. */
    method RemoveFromBucket(id: Id, bucket: int)
      requires Leaving(id) && 0 <= bucket < NEW_BUCKETS
      modifies this`mapInfo, this`newT, vvNew
      ensures Leaving(id)
      ensures mapInfo == old(mapInfo)[id := old(mapInfo)[id].(nRefCount := mapInfo[id].nRefCount)]
      ensures newT == OutOf(old(newT), id, bucket)
    {
      hide Mid, Lists, OutOf, Position;
      ghost var limbo := if Refs(newT, id) == {} then {id} else {};
      RefsPlaced(State(), h, discriminatePorts, limbo, 0, id);
      var pos := Position(h, mapInfo[id].service, true, bucket);
      OnlyAt(newT, id, bucket, pos);
      var c := Cell(vvNew, bucket, pos, NEW_BUCKETS, newT);
      if c == id {
        OfId(State(), h, discriminatePorts, limbo, 0, id);
        assert (bucket, pos) in Refs(newT, id);
        RefsRemoved(newT, (bucket, pos), id);
        var _ := Unreference(bucket, pos, limbo, 0);
        assert Refs(newT, id) == {} <==> old(mapInfo)[id].nRefCount == 1;
      }
    }

    /** Removes the entry from every new bucket; its reference count ends at zero. */
    method RemoveFromNew(id: Id)
      requires Valid() && id in mapInfo && !mapInfo[id].fInTried
      modifies this`mapInfo, this`newT, vvNew
      ensures During({id}, 0) && id in mapInfo && Refs(newT, id) == {}
      ensures mapInfo == old(mapInfo)[id := old(mapInfo)[id].(nRefCount := 0)]
      ensures newT == Without(old(newT), id)
    {
      hide Mid, Lists;
      OfId(State(), h, discriminatePorts, {}, 0, id);
      forall s <- Refs(newT, id) ensures 0 <= s.0 < NEW_BUCKETS {
        OfNewSlot(State(), h, discriminatePorts, {}, 0, s);
      }
      OutOfNone(newT, id);
      for bucket := 0 to NEW_BUCKETS
        invariant Leaving(id)
        invariant newT == OutOfFirst(old(newT), id, bucket)
        invariant mapInfo == old(mapInfo)[id := old(mapInfo)[id].(nRefCount := mapInfo[id].nRefCount)]
      {
        RemoveFromBucket(id, bucket);
        OutOfNext(old(newT), id, bucket);
      }
      OutOfAll(old(newT), id);
      OfId(State(), h, discriminatePorts, {id}, 0, id);
    }

    /** Moves the occupant of a tried slot back to the new table, into the slot of its own source. */
    method EvictTried(b: int, i: int, id: Id)
      requires During({id}, 1) && (b, i) in triedT && 0 <= b < TRIED_BUCKETS && 0 <= i < BUCKET_SIZE
      requires id in mapInfo
      modifies this`mapInfo, this`mapAddr, this`vRandom, this`nNew, this`nTried, this`newT, this`triedT, vvNew, vvTried
      ensures During({id}, 1)
      ensures triedT == old(triedT) - {(b, i)}
      ensures Kept(old(mapInfo), mapInfo, id)
      ensures var ev := old(triedT)[(b, i)];
              && ev in old(mapInfo) && ev in mapInfo && ev != id
              && mapInfo[ev] == old(mapInfo)[ev].(fInTried := false, nRefCount := 1, nRandomPos := mapInfo[ev].nRandomPos)
              && newT == old(newT)[NewSlot(h, mapInfo[ev].service, mapInfo[ev].source) := ev]
              && Freed(old(State()), mapInfo, NewSlot(h, mapInfo[ev].service, mapInfo[ev].source), {ev})
      ensures mapInfo.Keys <= old(mapInfo).Keys
      ensures LosesAtMostOne(old(mapAddr), mapAddr)
    {
      hide Mid, Lists, RefsAt, Refs;
      var ev := Evict(b, i, {id}, 1);
      ghost var limbo := {id} + {ev};
      var s := NewSlot(h, mapInfo[ev].service, mapInfo[ev].source);
      ghost var k := State();
      if s in newT { OfNewSlot(k, h, discriminatePorts, limbo, 2, s); }
      LimboUnreferenced(k, h, discriminatePorts, limbo, 2, ev);
      ClearNew(s.0, s.1, limbo, 2);
      assert Kept(k.info, mapInfo, ev) && Kept(k.info, mapInfo, id);
      Reference(s, ev, limbo, 2);
      assert limbo - {ev} == {id};
      Recount(1, {id}, 2);
    }

    /** Moves an entry from the new table to the tried table, making room there if need be. */
    method MakeTried(id: Id)
      requires Valid() && id in mapInfo && !mapInfo[id].fInTried
      modifies this`mapInfo, this`mapAddr, this`vRandom, this`nNew, this`nTried, this`newT, this`triedT, vvNew, vvTried
      ensures Valid() && id in mapInfo
      ensures var a := mapInfo[id].service;
              var b := h.tried(a) % 256;
              (b, h.place(a, false, b) % 64) in triedT && triedT[(b, h.place(a, false, b) % 64)] == id
      ensures MadeTried(old(State()), State(), h, id)
      ensures LosesAtMostOne(old(mapAddr), mapAddr)
    {
      hide Mid, Lists, Refs, MadeTried, Without;
      LosesNothing(mapAddr);
      RemoveFromNew(id);
      Recount(-1, {id}, 0);
      assert mapInfo[id].nRefCount == 0;
      ghost var mid := State();
      var s := TriedSlot(h, mapInfo[id].service);
      var c := Cell(vvTried, s.0, s.1, TRIED_BUCKETS, triedT);
      if c != -1 {
        EvictTried(s.0, s.1, id);
      }
      assert s !in triedT;
      TriedAtLast(old(State()), mid, State(), h, id);
      Promote(id, {id}, 1);
      assert {id} - {id} == {};
    }

    /** Changes statistics only. */
    method Touch(id: Id, a: AddrInfo, ghost limbo: set<Id>, ghost uncounted: int)
      requires During(limbo, uncounted) && id in mapInfo && SameRole(mapInfo[id], a)
      modifies this`mapInfo
      ensures During(limbo, uncounted) && State() == Touched(old(State()), id, a)
    {
      hide Mid, Lists;
      TouchKeeps(State(), h, discriminatePorts, limbo, uncounted, id, a);
      mapInfo := mapInfo[id := a];
    }

    /** Probes the new buckets from a random start; an entry that is not tried is always found. */
    method FindNewBucket(id: Id) returns (nUBucket: int)
      requires Valid() && id in mapInfo && !mapInfo[id].fInTried
      ensures 0 <= nUBucket < NEW_BUCKETS
      ensures var s := (nUBucket, Position(h, mapInfo[id].service, true, nUBucket)); s in newT && newT[s] == id
    {
      hide Mid, Lists;
      OfId(State(), h, discriminatePorts, {}, 0, id);
      assert id >= 0;
      var nRnd: nat :| nRnd < NEW_BUCKETS;
      nUBucket := -1;
      for n := 0 to NEW_BUCKETS
        invariant forall m: nat | m < n :: Probe(m, nRnd) !in Buckets(newT, id)
      {
        var nB := Probe(n, nRnd);
        var nBpos := Position(h, mapInfo[id].service, true, nB);
        var c := Cell(vvNew, nB, nBpos, NEW_BUCKETS, newT);
        if c == id {
          return nB;
        }
        forall s <- Refs(newT, id) ensures s.0 != nB {
          OfNewSlot(State(), h, discriminatePorts, {}, 0, s);
        }
      }
      ghost var s :| s in Refs(newT, id);
      OfNewSlot(State(), h, discriminatePorts, {}, 0, s);
      ProbeReaches(s.0, nRnd);
      assert false;
    }

    method Good(a: Service, nTime: int)
      requires Valid()
      modifies this, vvNew, vvTried
      ensures Valid() && nLastGood == nTime
      ensures !old(Knows(State(), discriminatePorts, a)) ==> State() == old(State())
      ensures old(Knows(State(), discriminatePorts, a)) ==>
                && Knows(State(), discriminatePorts, a)
                && (var e := Entry(State(), discriminatePorts, a);
                    e == old(Entry(State(), discriminatePorts, a)).(
                      nLastSuccess := nTime, nLastTry := nTime, nAttempts := 0,
                      fInTried := true, nRefCount := 0, nRandomPos := e.nRandomPos))
                && LosesAtMostOne(old(mapAddr), mapAddr)
                && (var id := old(mapAddr[Norm(discriminatePorts, a)]);
                    var touched := Touched(old(State()), id, old(Entry(State(), discriminatePorts, a)).(
                      nLastSuccess := nTime, nLastTry := nTime, nAttempts := 0));
                    if old(Entry(State(), discriminatePorts, a).fInTried) then State() == touched
                    else MadeTried(touched, State(), h, id))
    {
      hide Mid, Lists, Refs;
      nLastGood := nTime;
      LosesNothing(mapAddr);
      var id := Find(a);
      if id == -1 {
        return;
      }
      if mapInfo[id].service != a {
        return;
      }
      OfId(State(), h, discriminatePorts, {}, 0, id);
      Touch(id, mapInfo[id].(nLastSuccess := nTime, nLastTry := nTime, nAttempts := 0), {}, 0);
      if mapInfo[id].fInTried {
        return;
      }
      var nUBucket := FindNewBucket(id);
      assert nUBucket != -1;
      MakeTried(id);
      OfId(State(), h, discriminatePorts, {}, 0, id);
    }

    ghost predicate Takes(id: Id, s: Slot, nNow: int)
      requires id in mapInfo
      reads this
    {
      SlotTaken(State(), id, s, nNow)
    }

    /** An address may take this slot from whoever is in it. */
    ghost predicate Replaceable(s: Slot, nNow: int)
      reads this
    {
      SlotReplaceable(State(), s, nNow)
    }

    /** Updates the statistics of a known address; `r` is drawn, and 0 wins another reference with odds of 1 in 2^nRefCount. */
    method Refresh(id: Id, nTime: int, nServices: set<nat>, nTimePenalty: int, nNow: int) returns (more: bool, ghost r: nat)
      requires Valid() && id in mapInfo
      modifies this`mapInfo
      ensures Valid() && mapInfo == old(mapInfo)[id := Refreshed(old(mapInfo)[id], nTime, nServices, nTimePenalty, nNow)]
      ensures mapInfo[id].nRefCount >= 0 && r < ArithSpec.Pow2(mapInfo[id].nRefCount)
      ensures more <==> MoreWanted(mapInfo[id], nTime) && r == 0
      ensures more ==> mapInfo[id].nRefCount < BUCKETS_PER_ADDRESS
    {
      hide Mid, Lists, Refs;
      OfId(State(), h, discriminatePorts, {}, 0, id);
      r := 0;
      var info := mapInfo[id];
      var fCurrentlyOnline := nNow - nTime < DAY;
      var nUpdateInterval := if fCurrentlyOnline then 60 * 60 else DAY;
      if nTime != 0 && (info.nTime == 0 || info.nTime < nTime - nUpdateInterval - nTimePenalty) {
        info := info.(nTime := Max(0, nTime - nTimePenalty));
      }
      info := info.(nServices := info.nServices + nServices);
      Touch(id, info, {}, 0);
      if nTime == 0 || (info.nTime != 0 && nTime <= info.nTime) {
        return false, r;
      }
      if info.fInTried {
        return false, r;
      }
      if info.nRefCount == BUCKETS_PER_ADDRESS {
        return false, r;
      }
      var nFactor: nat := 1;
      for n := 0 to info.nRefCount
        invariant nFactor == ArithSpec.Pow2(n)
      {
        nFactor := nFactor * 2;
      }
      var drawn: nat :| drawn < nFactor;
      r := drawn;
      more := !(nFactor > 1 && drawn != 0);
    }

    /** Gives the entry one slot of the new table, or drops an entry that has none and finds no room. */
    method Place(id: Id, s: Slot, nNow: int, ghost limbo: set<Id>)
      requires During(limbo, 0) && id in mapInfo && !mapInfo[id].fInTried && mapInfo[id].nRefCount < BUCKETS_PER_ADDRESS
      requires limbo == if mapInfo[id].nRefCount == 0 then {id} else {}
      requires 0 <= s.0 < NEW_BUCKETS && s.1 == Position(h, mapInfo[id].service, true, s.0)
      modifies this`mapInfo, this`mapAddr, this`vRandom, this`nNew, this`newT, vvNew
      ensures Valid()
      ensures id in mapInfo <==> old(mapInfo[id].nRefCount > 0 || Replaceable(s, nNow))
      ensures id in mapInfo ==>
                (mapInfo[id] == old(mapInfo)[id].(nRefCount := old(mapInfo[id].nRefCount + if Takes(id, s, nNow) then 1 else 0),
                                                  nRandomPos := mapInfo[id].nRandomPos))
      ensures newT == if old(Takes(id, s, nNow)) then old(newT)[s := id] else old(newT)
      ensures if old(Takes(id, s, nNow)) then Freed(old(State()), mapInfo, s, {id}) else AllKept(old(State()), mapInfo, {id})
      ensures mapInfo.Keys <= old(mapInfo).Keys
      ensures id !in mapInfo ==> mapAddr == old(mapAddr) - {Norm(discriminatePorts, old(mapInfo)[id].service)}
      ensures Within(mapAddr, old(mapAddr))
      ensures LosesAtMostOne(old(mapAddr), mapAddr)
    {
      hide Mid, Lists, Refs, IsTerrible, Freed;
      LosesNothing(mapAddr);
      OfId(State(), h, discriminatePorts, limbo, 0, id);
      var c := Cell(vvNew, s.0, s.1, NEW_BUCKETS, newT);
      if c != -1 {
        OfNewSlot(State(), h, discriminatePorts, limbo, 0, s);
      }
      if c != id {
        var fInsert := c == -1;
        if !fInsert {
          var existing := mapInfo[c];
          if IsTerrible(existing, nNow) || (existing.nRefCount > 1 && mapInfo[id].nRefCount == 0) {
            fInsert := true;
          }
        }
        if fInsert {
          ClearNew(s.0, s.1, limbo, 0);
          FreedFor(old(State()), mapInfo, s, id);
          Reference(s, id, limbo, 0);
          assert limbo - {id} == {};
        } else if mapInfo[id].nRefCount == 0 {
          DeleteDropsKey(State(), h, discriminatePorts, limbo, 0, id);
          forall other <- mapInfo | other != id ensures Kept(mapInfo, Deleted(State(), discriminatePorts, id).info, other) {
            DeleteKeepsOthers(State(), discriminatePorts, id, other);
          }
          Delete(id, limbo, 0);
          assert limbo - {id} == {};
          assert LosesOnly(old(mapAddr), mapAddr, Norm(discriminatePorts, old(mapInfo)[id].service));
        }
      }
    }

    /** Creates an entry with the penalised time and counts it as new. */
    method CreateCounted(a: Service, nTime: int, nServices: set<nat>, source: NetAddr, nTimePenalty: int) returns (id: Id)
      requires Valid() && Norm(discriminatePorts, a) !in mapAddr
      modifies this`nIdCount, this`mapInfo, this`mapAddr, this`vRandom, this`nNew
      ensures During({id}, 0) && id !in old(mapInfo) && mapAddr == old(mapAddr)[Norm(discriminatePorts, a) := id]
      ensures mapInfo == old(mapInfo)[id := AddrInfo(a, Max(0, nTime - nTimePenalty), nServices, source, 0, 0, 0, 0, 0, false, old(|vRandom|))]
    {
      hide Mid, Lists, Norm;
      id := Create(a, nTime, nServices, source);
      Touch(id, mapInfo[id].(nTime := Max(0, nTime - nTimePenalty)), {id}, 1);
      Recount(1, {id}, 1);
    }

    /** Creates an entry for an unknown address and finds it a slot, or drops it again. */
    method AddUnknown(a: Service, nTime: int, nServices: set<nat>, source: NetAddr, nTimePenalty: int, nNow: int)
      requires Valid() && Norm(discriminatePorts, a) !in mapAddr
      modifies this`nIdCount, this`mapInfo, this`mapAddr, this`vRandom, this`nNew, this`newT, vvNew
      ensures Valid()
      ensures LosesAtMostOne(old(mapAddr), mapAddr)
      ensures Norm(discriminatePorts, a) in mapAddr <==> old(Replaceable(NewSlot(h, a, source), nNow))
      ensures NewSlot(h, a, source).0 == h.untried(a, source) % 1024
      ensures NewSlot(h, a, source).1 == h.place(a, true, h.untried(a, source) % 1024) % 64
      ensures mapAddr.Keys <= old(mapAddr).Keys + {Norm(discriminatePorts, a)}
      ensures Norm(discriminatePorts, a) !in mapAddr ==>
                && mapAddr == old(mapAddr) && newT == old(newT)
                && AllKept(old(State()), mapInfo, {}) && mapInfo.Keys == old(mapInfo).Keys
      ensures Norm(discriminatePorts, a) in mapAddr ==>
                && Freed(old(State()), mapInfo, NewSlot(h, a, source), {})
                && mapInfo.Keys <= old(mapInfo).Keys + {mapAddr[Norm(discriminatePorts, a)]}
                && Knows(State(), discriminatePorts, a) && newT == old(newT)[NewSlot(h, a, source) := mapAddr[Norm(discriminatePorts, a)]]
                && (var e := Entry(State(), discriminatePorts, a);
                    e == AddrInfo(a, Max(0, nTime - nTimePenalty), nServices, source, 0, 0, 0, 0, 1, false, e.nRandomPos))
    {
      hide Mid, Lists, Refs, IsTerrible, Freed, AllKept, LosesAtMostOne, Norm;
      ghost var key, slot := Norm(discriminatePorts, a), NewSlot(h, a, source);
      if slot in newT { OfNewSlot(State(), h, discriminatePorts, {}, 0, slot); }
      var id := CreateCounted(a, nTime, nServices, source, nTimePenalty);
      ghost var was := State();
      assert Replaceable(slot, nNow) <==> old(Replaceable(slot, nNow));
      Place(id, NewSlot(h, mapInfo[id].service, source), nNow, {id});
      AroundNewcomer(old(State()), was, mapInfo, slot, id);
      KeyKnown(was, State(), h, discriminatePorts, id);
      LossesAround(old(mapAddr), key, id, mapAddr);
    }

    /** Refreshes a known entry and, if the draw says so, tries to give it another slot. */
    method AddKnown(id: Id, nTime: int, nServices: set<nat>, source: NetAddr, nTimePenalty: int, nNow: int) returns (ghost r: nat)
      requires Valid() && id in mapInfo
      modifies this`mapInfo, this`mapAddr, this`vRandom, this`nNew, this`newT, vvNew
      ensures Valid() && LosesAtMostOne(old(mapAddr), mapAddr) && mapAddr.Keys <= old(mapAddr).Keys
      ensures Announced(old(State()), State(), h, id, nTime, nServices, source, nTimePenalty, nNow, r)
      ensures Norm(discriminatePorts, old(mapInfo)[id].service) in mapAddr
    {
      hide Mid, Lists, Refs, IsTerrible, Freed, AllKept, Norm;
      LosesNothing(mapAddr);
      OfId(State(), h, discriminatePorts, {}, 0, id);
      var more;
      more, r := Refresh(id, nTime, nServices, nTimePenalty, nNow);
      ghost var was := State();
      ghost var slot := NewSlot(h, mapInfo[id].service, source);
      AroundTouched(old(State()), was, mapInfo, slot, id);
      if more {
        OfId(was, h, discriminatePorts, {}, 0, id);
        assert Takes(id, slot, nNow) <==> old(Takes(id, slot, nNow));
        Place(id, NewSlot(h, mapInfo[id].service, source), nNow, {});
        AroundTouched(old(State()), was, mapInfo, slot, id);
        KeyKnown(was, State(), h, discriminatePorts, id);
      }
    }

    /** Reports whether the address was not known before, which does not mean that it is known now. */
    method Add(a: Service, nTime: int, nServices: set<nat>, source: NetAddr, penalty: int, nNow: int) returns (fNew: bool, ghost r: nat)
      requires Valid()
      modifies this`nIdCount, this`mapInfo, this`mapAddr, this`vRandom, this`nNew, this`newT, vvNew
      ensures Valid()
      ensures fNew <==> routable(a) && Norm(discriminatePorts, a) !in old(mapAddr)
      ensures !routable(a) ==> State() == old(State())
      ensures LosesAtMostOne(old(mapAddr), mapAddr)
      ensures fNew ==> (Norm(discriminatePorts, a) in mapAddr <==> old(Replaceable(NewSlot(h, a, source), nNow)))
      ensures mapAddr.Keys <= old(mapAddr).Keys + {Norm(discriminatePorts, a)}
      ensures fNew && Norm(discriminatePorts, a) !in mapAddr ==>
                && mapAddr == old(mapAddr) && newT == old(newT)
                && AllKept(old(State()), mapInfo, {}) && mapInfo.Keys == old(mapInfo).Keys
      ensures fNew && Norm(discriminatePorts, a) in mapAddr ==>
                && Freed(old(State()), mapInfo, NewSlot(h, a, source), {})
                && mapInfo.Keys <= old(mapInfo).Keys + {mapAddr[Norm(discriminatePorts, a)]}
                && Knows(State(), discriminatePorts, a) && newT == old(newT)[NewSlot(h, a, source) := mapAddr[Norm(discriminatePorts, a)]]
                && (var e := Entry(State(), discriminatePorts, a);
                    e == AddrInfo(a, Max(0, nTime - if a.ip == source then 0 else penalty), nServices, source, 0, 0, 0, 0, 1, false, e.nRandomPos))
      ensures routable(a) && !fNew ==>
                && Norm(discriminatePorts, a) in mapAddr
                && Announced(old(State()), State(), h, old(mapAddr)[Norm(discriminatePorts, a)], nTime, nServices, source,
                             if a.ip == source then 0 else penalty, nNow, r)
    {
      hide Mid, Lists, Refs, IsTerrible, Freed, AllKept, Norm, Announced;
      LosesNothing(mapAddr);
      r := 0;
      if !routable(a) {
        return false, r;
      }
      var id := Find(a);
      var nTimePenalty := if a.ip == source then 0 else penalty;
      if id == -1 {
        AddUnknown(a, nTime, nServices, source, nTimePenalty, nNow);
        return true, r;
      }
      r := AddKnown(id, nTime, nServices, source, nTimePenalty, nNow);
      return false, r;
    }

    method Attempt(a: Service, fCountFailure: bool, nTime: int)
      requires Valid()
      modifies this`mapInfo
      ensures Valid()
      ensures !old(Knows(State(), discriminatePorts, a)) ==> State() == old(State())
      ensures old(Knows(State(), discriminatePorts, a)) ==>
                && Knows(State(), discriminatePorts, a)
                && State() == Touched(old(State()), old(mapAddr[Norm(discriminatePorts, a)]), Entry(State(), discriminatePorts, a))
                && (var e, e' := old(Entry(State(), discriminatePorts, a)), Entry(State(), discriminatePorts, a);
                    e' == if fCountFailure && e.nLastCountAttempt < nLastGood
                          then e.(nLastTry := nTime, nLastCountAttempt := nTime, nAttempts := e.nAttempts + 1)
                          else e.(nLastTry := nTime))
    {
      hide Mid, Lists;
      var id := Find(a);
      if id == -1 || mapInfo[id].service != a {
        return;
      }
      var info := mapInfo[id].(nLastTry := nTime);
      if fCountFailure && info.nLastCountAttempt < nLastGood {
        info := info.(nLastCountAttempt := nTime, nAttempts := info.nAttempts + 1);
      }
      Touch(id, info, {}, 0);
    }

    method Connected(a: Service, nTime: int)
      requires Valid()
      modifies this`mapInfo
      ensures Valid()
      ensures !old(Knows(State(), discriminatePorts, a)) ==> State() == old(State())
      ensures old(Knows(State(), discriminatePorts, a)) ==>
                && Knows(State(), discriminatePorts, a)
                && State() == Touched(old(State()), old(mapAddr[Norm(discriminatePorts, a)]), Entry(State(), discriminatePorts, a))
                && (var e, e' := old(Entry(State(), discriminatePorts, a)), Entry(State(), discriminatePorts, a);
                    e' == if nTime - e.nTime > 20 * 60 then e.(nTime := nTime) else e)
    {
      hide Mid, Lists;
      var id := Find(a);
      if id == -1 || mapInfo[id].service != a {
        return;
      }
      var nUpdateInterval := 20 * 60;
      if nTime - mapInfo[id].nTime > nUpdateInterval {
        Touch(id, mapInfo[id].(nTime := nTime), {}, 0);
      }
    }

    method SetServices(a: Service, nServices: set<nat>)
      requires Valid()
      modifies this`mapInfo
      ensures Valid()
      ensures !old(Knows(State(), discriminatePorts, a)) ==> State() == old(State())
      ensures old(Knows(State(), discriminatePorts, a)) ==>
                && Knows(State(), discriminatePorts, a)
                && State() == Touched(old(State()), old(mapAddr[Norm(discriminatePorts, a)]), Entry(State(), discriminatePorts, a))
                && Entry(State(), discriminatePorts, a) == old(Entry(State(), discriminatePorts, a)).(nServices := nServices)
    {
      hide Mid, Lists;
      var id := Find(a);
      if id == -1 || mapInfo[id].service != a {
        return;
      }
      Touch(id, mapInfo[id].(nServices := nServices), {}, 0);
    }

    /** Swaps a random later place into this one; entries change only their places. */
    method Draw(n: nat)
      requires Valid() && n < |vRandom|
      modifies this`mapInfo, this`vRandom
      ensures Valid() && Alike(old(State()), State()) && |vRandom| == old(|vRandom|) && vRandom[..n] == old(vRandom[..n])
      ensures vRandom[n] in mapInfo && vRandom[n] !in vRandom[..n]
      ensures mapInfo.Keys == old(mapInfo).Keys && forall id <- mapInfo :: Kept(old(mapInfo), mapInfo, id)
    {
      hide Mid, Lists, Refs;
      var nRndPos: nat :| n <= nRndPos < |vRandom|;
      OfPlace(State(), h, discriminatePorts, {}, 0, n);
      OfPlace(State(), h, discriminatePorts, {}, 0, nRndPos);
      SwapRandomOk(State(), n, nRndPos);
      SwapRandom(n, nRndPos, {}, 0);
      OfPlace(State(), h, discriminatePorts, {}, 0, n);
      NotBefore(State(), n);
    }

    /** A random sample of at most 23 percent of the entries, capped, none of them terrible or repeated;
        a smaller one only if there are no more such entries. */
    method GetAddr(nNow: int) returns (vAddr: seq<AddrInfo>, ghost ids: seq<Id>)
      requires Valid()
      modifies this`mapInfo, this`vRandom
      ensures Valid() && Alike(old(State()), State()) && AllKept(old(State()), mapInfo, {})
      ensures |ids| == |vAddr| <= Min(GETADDR_MAX_PCT * |vRandom| / 100, GETADDR_MAX)
      ensures forall j | 0 <= j < |ids| ::
                ids[j] in mapInfo && vAddr[j] == mapInfo[ids[j]].(nRandomPos := vAddr[j].nRandomPos) && !IsTerrible(vAddr[j], nNow)
      ensures forall i, j | 0 <= i < j < |ids| :: ids[i] != ids[j]
      ensures |vAddr| < Min(GETADDR_MAX_PCT * |vRandom| / 100, GETADDR_MAX) ==>
                forall id <- mapInfo :: IsTerrible(mapInfo[id], nNow) || id in ids
    {
      AllKeptSelf(State());
      hide Mid, Lists, Alike, IsTerrible, AllKept;
      var nNodes := GETADDR_MAX_PCT * |vRandom| / 100;
      if nNodes > GETADDR_MAX {
        nNodes := GETADDR_MAX;
      }
      vAddr, ids := [], [];
      var n := 0;
      AlikeSelf(State());
      while n < |vRandom|
        invariant Valid() && Alike(old(State()), State()) && AllKept(old(State()), mapInfo, {}) && |vRandom| == old(|vRandom|)
        invariant 0 <= n <= |vRandom| && |ids| == |vAddr| <= nNodes
        invariant forall j | 0 <= j < |ids| ::
                    ids[j] in mapInfo && ids[j] in vRandom[..n]
                    && vAddr[j] == mapInfo[ids[j]].(nRandomPos := vAddr[j].nRandomPos) && !IsTerrible(vAddr[j], nNow)
        invariant forall i, j | 0 <= i < j < |ids| :: ids[i] != ids[j]
        invariant forall p | 0 <= p < n :: vRandom[p] in mapInfo && (IsTerrible(mapInfo[vRandom[p]], nNow) || vRandom[p] in ids)
      {
        if |vAddr| >= nNodes {
          break;
        }
        ghost var k := State();
        Draw(n);
        AlikeTrans(old(State()), k, State());
        AllKeptTrans(old(State()), k, mapInfo);
        forall id <- mapInfo ensures IsTerrible(mapInfo[id], nNow) == IsTerrible(k.info[id], nNow) {
          PlaceIrrelevant(k.info[id], mapInfo[id].nRandomPos, nNow);
        }
        assert forall p | 0 <= p < n :: vRandom[..n][p] == k.random[..n][p];
        var ai := mapInfo[vRandom[n]];
        if !IsTerrible(ai, nNow) {
          vAddr, ids := vAddr + [ai], ids + [vRandom[n]];
        }
        assert vRandom[..n + 1] == vRandom[..n] + [vRandom[n]];
        n := n + 1;
      }
      if |vAddr| < nNodes {
        forall id <- mapInfo ensures IsTerrible(mapInfo[id], nNow) || id in ids {
          OfId(State(), h, discriminatePorts, {}, 0, id);
        }
      }
    }

    /** The entries that have references, and the index of each. */
    method SaveNews() returns (news: seq<Record>, mapUnkIds: map<Id, int>)
      requires Valid()
      ensures nIdCount >= 0 && news == Records(mapInfo, NewOrder(mapInfo, nIdCount))
      ensures forall id <- mapInfo :: id in mapUnkIds && mapUnkIds[id] == Rank(mapInfo, id)
    {
      hide Mid, Lists, OrderOk, FullOrder, Records, NewOrder, TriedOrder, Rank;
      OfLimbo(State(), h, discriminatePorts, {}, 0);
      FullOrderOk(State(), h, discriminatePorts);
      SaveStart(mapInfo);
      news, mapUnkIds := [], map[];
      for id := 0 to nIdCount
        invariant news == Records(mapInfo, NewOrder(mapInfo, id))
        invariant forall i <- mapInfo :: 0 <= i < id ==> i in mapUnkIds && mapUnkIds[i] == Rank(mapInfo, i)
      {
        SaveStep(mapInfo, id);
        if id in mapInfo {
          mapUnkIds := mapUnkIds[id := |news|];
          if mapInfo[id].nRefCount != 0 {
            NewOrderShort(mapInfo, id, nIdCount);
            assert |news| != nNew;
            news := news + [ToRecord(mapInfo[id])];
          }
        }
      }
      forall id <- mapInfo ensures 0 <= id < nIdCount { OfId(State(), h, discriminatePorts, {}, 0, id); }
    }

    method SaveTrieds() returns (trieds: seq<Record>)
      requires Valid()
      ensures nIdCount >= 0 && trieds == Records(mapInfo, TriedOrder(mapInfo, nIdCount))
    {
      hide Mid, Lists, OrderOk, FullOrder, Records, NewOrder, TriedOrder, Rank;
      OfLimbo(State(), h, discriminatePorts, {}, 0);
      FullOrderOk(State(), h, discriminatePorts);
      SaveStart(mapInfo);
      trieds := [];
      for id := 0 to nIdCount
        invariant trieds == Records(mapInfo, TriedOrder(mapInfo, id))
      {
        SaveStep(mapInfo, id);
        if id in mapInfo && mapInfo[id].fInTried {
          TriedOrderShort(mapInfo, id, nIdCount);
          assert |trieds| != nTried;
          trieds := trieds + [ToRecord(mapInfo[id])];
        }
      }
    }

    method SaveBucket(b: int, mapUnkIds: map<Id, int>) returns (indexes: seq<int>)
      requires Valid() && 0 <= b < NEW_BUCKETS
      requires forall id <- mapInfo :: id in mapUnkIds && mapUnkIds[id] == Rank(mapInfo, id)
      ensures indexes == BucketList(State(), b, BUCKET_SIZE)
    {
      hide Mid, Lists, Rank;
      indexes := [];
      for i := 0 to BUCKET_SIZE
        invariant indexes == BucketList(State(), b, i)
      {
        var id := Cell(vvNew, b, i, NEW_BUCKETS, newT);
        if id != -1 {
          OfNewSlot(State(), h, discriminatePorts, {}, 0, (b, i));
          indexes := indexes + [mapUnkIds[id]];
        }
      }
    }

    /** Writes out the entries that have references, then the tried ones, then every new bucket. */
    method Serialize() returns (saved: Saved)
      requires Valid()
      ensures saved == SavedOf(State()) && nIdCount >= 0 && saved.nNew == nNew && saved.nTried == nTried
      ensures |saved.news| == nNew && |saved.trieds| == nTried
      ensures var order := NewOrder(mapInfo, nIdCount);
              |order| == nNew && forall j | 0 <= j < nNew :: Describes(saved.news[j], mapInfo[order[j]])
      ensures var order := TriedOrder(mapInfo, nIdCount);
              |order| == nTried && forall j | 0 <= j < nTried :: Describes(saved.trieds[j], mapInfo[order[j]])
    {
      hide Mid, Lists, BucketList, Rank, NewOrder, TriedOrder;
      ghost var k := State();
      FullOrderOk(k, h, discriminatePorts);
      var news, mapUnkIds := SaveNews();
      var trieds := SaveTrieds();
      var buckets := [];
      for b := 0 to NEW_BUCKETS
        invariant |buckets| == b && forall i | 0 <= i < b :: buckets[i] == BucketList(k, i, BUCKET_SIZE)
      {
        var indexes := SaveBucket(b, mapUnkIds);
        buckets := buckets + [indexes];
      }
      saved := Saved(1, nNew, nTried, NEW_BUCKETS, news, trieds, buckets);
      assert buckets == seq(NEW_BUCKETS, b => BucketList(k, b, BUCKET_SIZE));
    }

    ghost predicate Laid()
      reads this, vvNew, vvTried
    {
      vvNew != vvTried && Lists(vvNew, NEW_BUCKETS, newT) && Lists(vvTried, TRIED_BUCKETS, triedT)
    }

    method ReadNews(news: seq<Record>)
      requires Laid() && vRandom == []
      modifies this`mapInfo, this`mapAddr, this`vRandom
      ensures State() == LoadNews(old(State()), news)
    {
      for n := 0 to |news|
        invariant State() == LoadNews(old(State()), news[..n])
        invariant |vRandom| == n
      {
        assert news[..n + 1][..n] == news[..n];
        mapInfo := mapInfo[n := FromRecord(news[n], |vRandom|)];
        mapAddr := mapAddr[news[n].service := n];
        vRandom := vRandom + [n];
      }
      assert news[..|news|] == news;
    }

    method ReadTrieds(trieds: seq<Record>) returns (nLost: int)
      requires Laid() && nIdCount >= 0
      modifies this`mapInfo, this`mapAddr, this`vRandom, this`nIdCount, this`nTried, this`triedT, vvTried
      ensures Laid() && State() == LoadTrieds(old(State()), h, trieds)
      ensures nTried == old(nTried) - nLost
    {
      hide Lists, LoadTrieds;
      ghost var k0 := State();
      nLost := 0;
      NoTrieds(k0, h);
      assert trieds[..0] == [];
      for n := 0 to |trieds|
        invariant Laid() && nIdCount >= 0
        invariant State().(nTried := k0.nTried - nLost) == LoadTrieds(k0, h, trieds[..n])
        invariant nTried == k0.nTried
      {
        LoadTriedNext(k0, h, trieds, n);
        var info := FromRecord(trieds[n], -1);
        var s := TriedSlot(h, info.service);
        var c := Cell(vvTried, s.0, s.1, TRIED_BUCKETS, triedT);
        if c == -1 {
          info := info.(nRandomPos := |vRandom|, fInTried := true);
          vRandom := vRandom + [nIdCount];
          mapInfo := mapInfo[nIdCount := info];
          mapAddr := mapAddr[info.service := nIdCount];
          Put(vvTried, s.0, s.1, nIdCount, TRIED_BUCKETS, triedT);
          triedT := triedT[s := nIdCount];
          nIdCount := nIdCount + 1;
        } else {
          nLost := nLost + 1;
        }
      }
      assert trieds[..|trieds|] == trieds;
      nTried := nTried - nLost;
    }

    method ReadBucket(b: int, indexes: seq<int>)
      requires Laid() && 0 <= b < NEW_BUCKETS
      modifies this`mapInfo, this`newT, vvNew
      ensures Laid() && State() == LoadBucket(old(State()), h, b, indexes)
    {
      hide Lists;
      ghost var k0 := State();
      for n := 0 to |indexes|
        invariant Laid() && State() == LoadBucket(k0, h, b, indexes[..n])
      {
        assert indexes[..n + 1][..n] == indexes[..n];
        var nIndex := indexes[n];
        if 0 <= nIndex < nNew && nIndex in mapInfo {
          var info := mapInfo[nIndex];
          var pos := Position(h, info.service, true, b);
          var c := Cell(vvNew, b, pos, NEW_BUCKETS, newT);
          if c == -1 && info.nRefCount < BUCKETS_PER_ADDRESS {
            mapInfo := mapInfo[nIndex := info.(nRefCount := info.nRefCount + 1)];
            Put(vvNew, b, pos, nIndex, NEW_BUCKETS, newT);
            newT := newT[(b, pos) := nIndex];
          }
        }
      }
      assert indexes[..|indexes|] == indexes;
    }

    method ReadBuckets(buckets: seq<seq<int>>)
      requires Laid() && |buckets| <= NEW_BUCKETS
      modifies this`mapInfo, this`newT, vvNew
      ensures Laid() && State() == LoadBuckets(old(State()), h, buckets)
    {
      hide Lists, LoadBucket;
      ghost var k0 := State();
      for b := 0 to |buckets|
        invariant Laid() && State() == LoadBuckets(k0, h, buckets[..b])
      {
        assert buckets[..b + 1][..b] == buckets[..b];
        ReadBucket(b, buckets[b]);
      }
      assert buckets[..|buckets|] == buckets;
    }

    /** The number of entries to prune. */
    method CountOrphans() returns (n: nat)
      requires nIdCount >= 0 && forall id <- mapInfo :: 0 <= id < nIdCount
      ensures n == |Orphans(State())|
    {
      n := 0;
      ghost var seen: set<Id> := {};
      for id := 0 to nIdCount
        invariant seen == set i | i in Orphans(State()) && i < id
        invariant n == |seen|
      {
        if id in mapInfo && !mapInfo[id].fInTried && mapInfo[id].nRefCount == 0 {
          n, seen := n + 1, seen + {id};
        }
      }
      assert seen == Orphans(State());
    }

    /** Rebuilds the tables from what a consistent book saved: nothing is refused, lost or pruned. */
    method Unserialize(saved: Saved, ghost k: Book) returns (threw: bool, nLost: int, nLostUnk: int)
      requires Laid() && State() == EMPTY
      requires Inv(k, h, discriminatePorts) && saved == SavedOf(k)
      modifies this, vvNew, vvTried
      ensures !threw && nLost == 0 && nLostUnk == 0
      ensures Laid() && State() == Loaded(saved, h) && Restored(State(), k, h)
      ensures Valid() <==> discriminatePorts || PortsZero(k)
    {
      hide Lists, Mid, LoadNews, LoadTrieds, LoadBuckets, Restored, PortsZero, NewOrder, TriedOrder, BucketList;
      CountsFit(k, h, discriminatePorts);
      RoundTrip(k, h, discriminatePorts);
      NoneLost(k, h, discriminatePorts);
      RestoredConsistentExactlyWhen(k, h, discriminatePorts);
      OfLimbo(k, h, discriminatePorts, {}, 0);
      threw, nLost, nLostUnk := false, 0, 0;
      nNew, nTried := saved.nNew, saved.nTried;
      if nNew > NEW_BUCKETS * BUCKET_SIZE || nTried > TRIED_BUCKETS * BUCKET_SIZE {
        return true, 0, 0;
      }
      ReadNews(saved.news);
      nIdCount := nNew;
      nLost := ReadTrieds(saved.trieds);
      assert State() == LoadedEntries(saved, h);
      ReadBuckets(saved.buckets);
      RestoredKeys(State(), k, h);
      nLostUnk := CountOrphans();
    }

    method Perform(op: Op)
      requires Valid()
      modifies this, vvNew, vvTried
      ensures Valid() && Did(op, old(State()), State(), h, routable, discriminatePorts)
    {
      hide Mid, Lists, Announced, IsTerrible, LosesAtMostOne, Alike;
      match op {
        case OpAdd(a, nTime, nServices, source, penalty, nNow) =>
          var fNew;
          ghost var r;
          fNew, r := Add(a, nTime, nServices, source, penalty, nNow);
          ghost var pen := if a.ip == source then 0 else penalty;
          if fNew {
            assert Introduced(old(State()), State(), h, discriminatePorts, a, nTime, nServices, source, pen, nNow);
          } else if routable(a) {
            ghost var id := old(mapAddr)[Norm(discriminatePorts, a)];
            assert Announced(old(State()), State(), h, id, nTime, nServices, source, pen, nNow, r);
            assert HeardAgain(old(State()), State(), h, id, nTime, nServices, source, pen, nNow);
          }
        case OpGood(a, nTime) => Good(a, nTime);
        case OpAttempt(a, fCountFailure, nTime) => Attempt(a, fCountFailure, nTime);
        case OpConnected(a, nTime) => Connected(a, nTime);
        case OpServices(a, nServices) => SetServices(a, nServices);
        case OpGetAddr(nNow) => var _, _ := GetAddr(nNow);
      }
    }

    /** Every run of operations, each with its effect, keeps the invariant, whatever the random choices. */
    method Run(ops: seq<Op>) returns (ghost trace: seq<Book>)
      requires Valid()
      modifies this, vvNew, vvTried
      ensures Valid() && IsTrace(ops, trace, h, routable, discriminatePorts)
      ensures trace[0] == old(State()) && trace[|ops|] == State()
    {
      hide Mid, Lists, Did;
      trace := [State()];
      for i := 0 to |ops|
        invariant Valid() && |trace| == i + 1 && trace[0] == old(State()) && trace[i] == State()
        invariant forall j | 0 <= j < i :: Did(ops[j], trace[j], trace[j + 1], h, routable, discriminatePorts)
      {
        Perform(ops[i]);
        trace := trace + [State()];
      }
    }
  }

  /** From construction, through any run, to disk and back into a new object: nothing is lost. */
  method RunSaveLoad(h: Hashes, routable: Service -> bool, discriminatePorts: bool, ops: seq<Op>)
    returns (m: CAddrMan, m': CAddrMan, nLost: int, nLostUnk: int, ghost trace: seq<Book>)
    ensures IsTrace(ops, trace, h, routable, discriminatePorts) && trace[0] == EMPTY && trace[|ops|] == m.State()
    ensures fresh(m) && fresh(m') && m.Valid() && Restored(m'.State(), m.State(), h)
    ensures nLost == 0 && nLostUnk == 0
    ensures discriminatePorts ==> m'.Valid()
  {
    hide Mid, Lists, Restored, Did;
    m := new CAddrMan(h, routable, discriminatePorts);
    trace := m.Run(ops);
    var saved := m.Serialize();
    m' := new CAddrMan(h, routable, discriminatePorts);
    var threw;
    threw, nLost, nLostUnk := m'.Unserialize(saved, m.State());
  }

  lemma JustHeardOf(a: AddrInfo, nNow: int)
    requires a.nTime == nNow > 0 && a.nLastTry == a.nAttempts == 0
    ensures !IsTerrible(a, nNow)
  {
  }

  /** Two addresses whose hashes fall on one slot: the second is reported as new, and is not stored. */
  method AddDropped(a: Service, b: Service, source: NetAddr, nNow: int) returns (first: bool, second: bool, m: CAddrMan)
    requires a != b && nNow > 0
    ensures first && second && Norm(true, a) in m.mapAddr && Norm(true, b) !in m.mapAddr
  {
    hide Mid, Lists, Refs, IsTerrible;
    var h := Hashes(x => 0, (x, y) => 0, (x, y, z) => 0);
    m := new CAddrMan(h, x => true, true);
    ghost var r;
    first, r := m.Add(a, nNow, {}, source, 0, nNow);
    JustHeardOf(Entry(m.State(), true, a), nNow);
    assert NewSlot(h, a, source) == NewSlot(h, b, source);
    assert !m.Replaceable(NewSlot(h, b, source), nNow);
    second, r := m.Add(b, nNow, {}, source, 0, nNow);
  }
}
