/** Building, receiving and completing compact blocks (src/blockencodings.cpp). */
module BlockEncodings {
  import opened Wrappers
  import opened BlockEncodingsSpec

  // ----- the sender

  lemma {:induction false} FreeAfterFirst(a: Slots, i: nat)
    requires 1 <= i <= |a| && a[0].Some? && forall p | 1 <= p < |a| :: a[p].None?
    ensures |FreeSlots(a[..i])| == i - 1 && forall k | 0 <= k < i - 1 :: FreeSlots(a[..i])[k] == k + 1
  {
    FreeStep(a, i - 1);
    if i > 1 { FreeAfterFirst(a, i - 1); }
  }

  lemma CoinbasePrefilled(c: Compact, vtx: seq<Tx>, sid: ShortId)
    requires vtx != [] && c.prefilledtxn == [Prefilled(0, vtx[0])] && |c.shorttxids| == |vtx| - 1
    requires forall i | 0 <= i < |c.shorttxids| :: c.shorttxids[i] == sid(vtx[i + 1].hash)
    ensures Encodes(c, vtx, sid)
  {
    assert Position(c.prefilledtxn, 0) == 0;
    forall a: Slots | Placed(c, a, 1) ensures IdsOf(c.shorttxids, FreeSlots(a), vtx, sid) {
      FreeAfterFirst(a, |a|);
      assert a[..|a|] == a;
    }
  }

  /** The compact form of a block: the coinbase in full, a short id for each other transaction. */
  method MakeCompact(block: Block, sid: ShortId) returns (c: Compact)
    requires block.vtx != []
    ensures Encodes(c, block.vtx, sid) && c.header == block.header
    ensures forall maxTx | block.header != 0 && !block.vtx[0].isNull && |block.vtx| <= maxTx :: WellFormed(c, maxTx)
  {
    var shorttxids: seq<nat> := [];
    for i := 1 to |block.vtx|
      invariant |shorttxids| == i - 1 && forall j | 0 <= j < i - 1 :: shorttxids[j] == sid(block.vtx[j + 1].hash)
    {
      shorttxids := shorttxids + [sid(block.vtx[i].hash)];
    }
    c := Compact(block.header, shorttxids, [Prefilled(0, block.vtx[0])]);
    CoinbasePrefilled(c, block.vtx, sid);
  }

  // ----- the receiver

  /** What `CheckBlock` makes of the completed block. */
  datatype CheckResult = Passes | Corrupt | Fails

  /** Some bucket of the short-id table got too long on the way. */
  predicate Crowded(ids: seq<nat>, crowded: seq<nat> -> bool) {
    exists i | 0 <= i < |ids| :: CrowdedAt(ids, i, crowded)
  }

  /** The table's verdict after the `i`-th short id went in. */
  predicate CrowdedAt(ids: seq<nat>, i: nat, crowded: seq<nat> -> bool)
    requires i < |ids|
  {
    crowded(ids[..i + 1])
  }

  /** Places the prefilled transactions; false if one is null or out of range. */
  method PlacePrefilled(c: Compact) returns (ok: bool, avail: Slots)
    ensures ok <==> forall i | 0 <= i < |c.prefilledtxn| :: PrefilledOk(c, i)
    ensures ok ==> Placed(c, avail, |c.prefilledtxn|)
  {
    hide FreeSlots, Placed;
    avail := seq(|c.shorttxids| + |c.prefilledtxn|, _ => None);
    PlaceNone(c);
    var lastprefilledindex := -1;
    for i := 0 to |c.prefilledtxn|
      invariant Placed(c, avail, i)
      invariant lastprefilledindex == if i == 0 then -1 else Position(c.prefilledtxn, i - 1)
      invariant forall j | 0 <= j < i :: PrefilledOk(c, j)
    {
      if c.prefilledtxn[i].tx.isNull {
        assert !PrefilledOk(c, i);
        return false, avail;
      }
      lastprefilledindex := lastprefilledindex + c.prefilledtxn[i].index + 1;
      assert lastprefilledindex == Position(c.prefilledtxn, i);
      if lastprefilledindex > 0xffff {
        assert !PrefilledOk(c, i);
        return false, avail;
      }
      if lastprefilledindex > |c.shorttxids| + i {
        assert !PrefilledOk(c, i);
        return false, avail;
      }
      PlaceNext(c, avail, i);
      avail := avail[lastprefilledindex := Some(c.prefilledtxn[i].tx)];
    }
    return true, avail;
  }

  lemma PlaceNone(c: Compact)
    ensures Placed(c, seq(|c.shorttxids| + |c.prefilledtxn|, _ => None), 0)
  {
    AllFree(|c.shorttxids| + |c.prefilledtxn|);
  }

  lemma PlaceNext(c: Compact, a: Slots, i: nat)
    requires i < |c.prefilledtxn| && Placed(c, a, i) && Position(c.prefilledtxn, i) <= |c.shorttxids| + i
    ensures var p := Position(c.prefilledtxn, i); p < |a| && Placed(c, a[p := Some(c.prefilledtxn[i].tx)], i + 1)
  {
    hide FreeSlots;
    var p := Position(c.prefilledtxn, i);
    forall j | 0 <= j < i ensures Position(c.prefilledtxn, j) < p { PositionsGrow(c.prefilledtxn, j, i); }
    FreeFill(a, p, c.prefilledtxn[i].tx);
  }

  /** Maps each short id to its slot, numbered in 16 bits; false on a collision or a crowded bucket. */
  method ScanSlots(ids: seq<nat>, avail: Slots, crowded: seq<nat> -> bool) returns (ok: bool, slots: map<nat, nat>)
    requires |FreeSlots(avail)| == |ids| && (ids == [] || |avail| - |ids| < 0x1_0000)
    ensures ok <==> Distinct(ids) && !Crowded(ids, crowded)
    ensures ok ==> SlotMap(ids, FreeSlots(avail), slots)
  {
    hide FreeSlots, IdSet, Distinct;
    slots := map[];
    var index_offset: Uint16 := 0;
    ScanStart(ids, avail);
    for i := 0 to |ids|
      invariant i + index_offset <= |avail| && |FreeSlots(avail[..i + index_offset])| == i
      invariant Scanned(ids, avail, i, slots)
      invariant forall j | 0 <= j < i :: !CrowdedAt(ids, j, crowded)
    {
      index_offset := NextFree(avail, i, index_offset, |ids|);
      SlotStep(ids, avail, i, i + index_offset, slots);
      slots := slots[ids[i] := Narrow(i + index_offset)];
      if crowded(ids[..i + 1]) {
        assert CrowdedAt(ids, i, crowded);
        return false, slots;
      }
    }
    ScanEnd(ids, avail, slots);
    return |slots| == |ids|, slots;
  }

  /** The first `i` short ids are mapped, to their own slots as long as they differ. */
  ghost predicate Scanned(ids: seq<nat>, a: Slots, i: nat, slots: map<nat, nat>)
    requires i <= |ids| <= |FreeSlots(a)|
  {
    && slots.Keys == IdSet(ids[..i]) && |slots| <= i && (|slots| == i <==> Distinct(ids[..i]))
    && (Distinct(ids[..i]) ==> forall j | 0 <= j < i :: ids[j] in slots && slots[ids[j]] == Narrow(FreeSlots(a)[j]))
  }

  lemma ScanStart(ids: seq<nat>, a: Slots)
    requires |ids| <= |FreeSlots(a)|
    ensures Scanned(ids, a, 0, map[]) && FreeSlots(a[..0]) == []
  {
    assert ids[..0] == [] && a[..0] == [];
  }

  lemma ScanEnd(ids: seq<nat>, a: Slots, slots: map<nat, nat>)
    requires |ids| == |FreeSlots(a)| && Scanned(ids, a, |ids|, slots)
    ensures (|slots| == |ids| <==> Distinct(ids)) && (Distinct(ids) ==> SlotMap(ids, FreeSlots(a), slots))
  {
    assert ids[..|ids|] == ids;
  }

  /** Skips filled slots; there is always an empty one left. */
  method NextFree(avail: Slots, i: nat, offset: Uint16, n: nat) returns (index_offset: Uint16)
    requires |FreeSlots(avail)| == n && i < n && |avail| - n < 0x1_0000
    requires i + offset <= |avail| && |FreeSlots(avail[..i + offset])| == i
    ensures i + index_offset < |avail| && avail[i + index_offset].None? && |FreeSlots(avail[..i + index_offset])| == i
  {
    index_offset := offset;
    SomeLeft(avail, i + index_offset);
    while avail[i + index_offset].Some?
      invariant i + index_offset < |avail| && |FreeSlots(avail[..i + index_offset])| == i
      decreases |avail| - index_offset
    {
      FreeStep(avail, i + index_offset);
      SomeLeft(avail, i + index_offset + 1);
      FilledFewer(avail, i + index_offset + 1);
      index_offset := index_offset + 1;
    }
  }

  lemma SomeLeft(a: Slots, p: nat)
    requires p <= |a| && |FreeSlots(a[..p])| < |FreeSlots(a)|
    ensures p < |a|
  {
    assert a[..|a|] == a;
  }

  lemma RankStep(a: Slots, i: nat, p: nat)
    requires p < |a| && a[p].None? && |FreeSlots(a[..p])| == i < |FreeSlots(a)|
    ensures |FreeSlots(a[..p + 1])| == i + 1 && FreeSlots(a)[i] == p
  {
    hide FreeSlots;
    FreeStep(a, p);
    FreePrefix(a, p + 1);
    assert FreeSlots(a[..p + 1])[i] == p;
  }

  lemma SlotStep(ids: seq<nat>, a: Slots, i: nat, p: nat, slots: map<nat, nat>)
    requires i < |ids| <= |FreeSlots(a)| && p < |a| && a[p].None? && |FreeSlots(a[..p])| == i
    requires Scanned(ids, a, i, slots)
    ensures |FreeSlots(a[..p + 1])| == i + 1 && Scanned(ids, a, i + 1, slots[ids[i] := Narrow(p)])
  {
    hide FreeSlots, Distinct, IdSet;
    RankStep(a, i, p);
    AddId(ids, i, slots, Narrow(p));
    assert ids[..i + 1] == ids[..i] + [ids[i]];
    DistinctMore(ids[..i], ids[i]);
    assert forall j | 0 <= j < i :: ids[j] == ids[..i][j];
  }

  lemma AddId(ids: seq<nat>, i: nat, slots: map<nat, nat>, p: nat)
    requires i < |ids| && slots.Keys == IdSet(ids[..i]) && |slots| <= i && (|slots| == i <==> Distinct(ids[..i]))
    ensures var slots' := slots[ids[i] := p];
            && slots'.Keys == IdSet(ids[..i + 1])
            && |slots'| <= i + 1 && (|slots'| == i + 1 <==> Distinct(ids[..i + 1]))
  {
    var was, now := ids[..i], ids[..i + 1];
    assert now == was + [ids[i]];
    var slots' := slots[ids[i] := p];
    assert slots'.Keys == slots.Keys + {ids[i]};
    assert |slots'| == |slots'.Keys| && |slots| == |slots.Keys|;
    DistinctMore(was, ids[i]);
    if ids[i] in was {
      assert slots'.Keys == slots.Keys;
    } else {
      assert |slots'| == |slots| + 1;
    }
  }

  lemma DistinctMore(ids: seq<nat>, id: nat)
    ensures Distinct(ids + [id]) <==> Distinct(ids) && id !in ids
  {
    var now := ids + [id];
    if Distinct(now) {
      assert forall j | 0 <= j < |ids| :: now[j] == ids[j] && now[j] != now[|ids|];
    }
  }

  /** What a search started from, what it found and how far it went. */
  datatype Search = Search(base: Slots, slots: map<nat, nat>, have: seq<bool>, k: nat, m: nat)

  class PartiallyDownloadedBlock {
    var txn_available: Slots
    var prefilled_count: nat
    var mempool_count: nat
    var header: nat

    constructor ()
      ensures header == 0 && txn_available == [] && mempool_count == 0
    {
      header, txn_available, prefilled_count, mempool_count := 0, [], 0, 0;
    }

    /** One transaction of the mempool. */
    method OfferPool(ghost base: Slots, slots: map<nat, nat>, sid: ShortId, pool: seq<Known>, i: nat, have: seq<bool>)
      returns (have_txn: seq<bool>)
      requires i < |pool| && (forall id <- slots :: slots[id] < |base|)
      requires Searched(base, txn_available, have, slots, sid, pool[..i], [])
      requires mempool_count == Gained(txn_available, have)
      modifies this`txn_available, this`mempool_count
      ensures Searched(base, txn_available, have_txn, slots, sid, pool[..i + 1], [])
      ensures mempool_count == Gained(txn_available, have_txn)
    {
      hide At, Pick, Searched, Gained;
      have_txn := have;
      var shortid := sid(pool[i].hash);
      AtStep(pool, i, sid, slots);
      if shortid in slots {
        var p := slots[shortid];
        ghost var seen := At(pool[..i], sid, slots, p);
        SlotNow(base, txn_available, have, slots, sid, pool[..i], [], p);
        AtNothing(sid, slots, p);
        PickPool(seen);
        PickPool(seen + [pool[i].tx]);
        SearchHit(base, txn_available, have, slots, sid, pool[..i], [], pool[..i + 1], [], p, if seen == [] then Some(pool[i].tx) else None);
        GainedSet(txn_available, have, p, if seen == [] then Some(pool[i].tx) else None);
        if !have_txn[p] {
          txn_available := txn_available[p := Some(pool[i].tx)];
          have_txn := have_txn[p := true];
          mempool_count := mempool_count + 1;
        } else {
          assert have_txn[p := true] == have_txn;
          if txn_available[p].Some? {
            txn_available := txn_available[p := None];
            mempool_count := mempool_count - 1;
          } else {
            assert txn_available[p := None] == txn_available;
          }
        }
      } else {
        SearchMiss(base, txn_available, have, slots, sid, pool[..i], [], pool[..i + 1], []);
      }
    }

    /** Looks through the mempool, until as many slots are filled as there are short ids. */
    method FillFromPool(slots: map<nat, nat>, sid: ShortId, pool: seq<Known>) returns (have_txn: seq<bool>, ghost k: nat)
      requires (forall id <- slots :: slots[id] < |txn_available|) && mempool_count == 0
      modifies this`txn_available, this`mempool_count
      ensures k <= |pool| && Searched(old(txn_available), txn_available, have_txn, slots, sid, pool[..k], [])
      ensures mempool_count == Gained(txn_available, have_txn) && (k < |pool| ==> k > 0 && mempool_count == |slots|)
    {
      hide At, Pick, SlotIs, Gained;
      ghost var base := txn_available;
      have_txn := seq(|txn_available|, _ => false);
      SearchStart(base, slots, sid);
      k := 0;
      assert pool[..0] == [];
      for i := 0 to |pool|
        invariant k == i && Searched(base, txn_available, have_txn, slots, sid, pool[..i], [])
        invariant mempool_count == Gained(txn_available, have_txn)
      {
        have_txn := OfferPool(base, slots, sid, pool, i, have_txn);
        k := i + 1;
        if mempool_count == |slots| {
          return;
        }
      }
    }

    /** One of the extra transactions. */
    method OfferExtra(ghost base: Slots, slots: map<nat, nat>, sid: ShortId, ghost pool: seq<Known>, extra: seq<Known>, i: nat, have: seq<bool>)
      returns (have_txn: seq<bool>)
      requires i < |extra| && (forall id <- slots :: slots[id] < |base|)
      requires Searched(base, txn_available, have, slots, sid, pool, extra[..i])
      requires mempool_count == Gained(txn_available, have)
      modifies this`txn_available, this`mempool_count
      ensures Searched(base, txn_available, have_txn, slots, sid, pool, extra[..i + 1])
      ensures mempool_count == Gained(txn_available, have_txn)
    {
      hide At, Pick, Searched, Gained;
      have_txn := have;
      var shortid := sid(extra[i].hash);
      AtStep(extra, i, sid, slots);
      if shortid in slots {
        var p := slots[shortid];
        ghost var pm, em := At(pool, sid, slots, p), At(extra[..i], sid, slots, p);
        SlotNow(base, txn_available, have, slots, sid, pool, extra[..i], p);
        PickMore(pm, em, extra[i].tx);
        SearchHit(base, txn_available, have, slots, sid, pool, extra[..i], pool, extra[..i + 1], p, Pick(pm, em + [extra[i].tx]));
        GainedSet(txn_available, have, p, Pick(pm, em + [extra[i].tx]));
        if !have_txn[p] {
          txn_available := txn_available[p := Some(extra[i].tx)];
          have_txn := have_txn[p := true];
          mempool_count := mempool_count + 1;
        } else {
          assert have_txn[p := true] == have_txn;
          if txn_available[p].Some? && txn_available[p].value.hash != extra[i].tx.hash {
            txn_available := txn_available[p := None];
            mempool_count := mempool_count - 1;
          } else {
            assert txn_available[p := txn_available[p]] == txn_available;
          }
        }
      } else {
        SearchMiss(base, txn_available, have, slots, sid, pool, extra[..i], pool, extra[..i + 1]);
      }
    }

    /** Looks through the extra transactions in the same way. */
    method FillFromExtra(ghost base: Slots, slots: map<nat, nat>, sid: ShortId, ghost pool: seq<Known>, extra: seq<Known>, have: seq<bool>)
      returns (ghost have_txn: seq<bool>, ghost m: nat)
      requires forall id <- slots :: slots[id] < |base|
      requires Searched(base, txn_available, have, slots, sid, pool, []) && mempool_count == Gained(txn_available, have)
      modifies this`txn_available, this`mempool_count
      ensures m <= |extra| && Searched(base, txn_available, have_txn, slots, sid, pool, extra[..m])
      ensures mempool_count == Gained(txn_available, have_txn) && (m < |extra| ==> m > 0 && mempool_count == |slots|)
    {
      hide At, Pick, SlotIs, Gained;
      var have' := have;
      m := 0;
      assert extra[..0] == [];
      for i := 0 to |extra|
        invariant m == i && Searched(base, txn_available, have', slots, sid, pool, extra[..i])
        invariant mempool_count == Gained(txn_available, have')
      {
        have' := OfferExtra(base, slots, sid, pool, extra, i, have');
        m := i + 1;
        if mempool_count == |slots| {
          break;
        }
      }
      have_txn := have';
    }

    /**
     * Takes in a compact block. The status says exactly what was wrong with it. On success each slot is what
     * the first `k` mempool and `m` extra transactions resolve it to; with at most 2^16 slots that is its
     * prefilled transaction or the match of its own short id, and the search stopped early only when complete.
     */
    method InitData(c: Compact, sid: ShortId, maxTx: nat, crowded: seq<nat> -> bool, pool: seq<Known>, extra: seq<Known>)
      returns (status: ReadStatus, ghost s: Search)
      requires header == 0 && txn_available == [] && mempool_count == 0
      requires WellFormed(c, maxTx) ==> c.shorttxids == [] || |c.prefilledtxn| < 0x1_0000
      modifies this
      ensures status == if !WellFormed(c, maxTx) then ReadInvalid
                        else if Distinct(c.shorttxids) && !Crowded(c.shorttxids, crowded) then ReadOk
                        else ReadFailed
      ensures status == ReadOk ==>
                && header == c.header && prefilled_count == |c.prefilledtxn|
                && Placed(c, s.base, |c.prefilledtxn|) && SlotMap(c.shorttxids, FreeSlots(s.base), s.slots)
                && s.k <= |pool| && s.m <= |extra| && (s.k < |pool| ==> s.k > 0) && (s.m < |extra| ==> s.m > 0)
                && Searched(s.base, txn_available, s.have, s.slots, sid, pool[..s.k], extra[..s.m])
                && mempool_count == Gained(txn_available, s.have) && (s.m < |extra| ==> mempool_count == |c.shorttxids|)
      ensures status == ReadOk && |c.shorttxids| + |c.prefilledtxn| <= 0x1_0000 ==>
                && Resolved(s.base, txn_available, c.shorttxids, sid, pool[..s.k], extra[..s.m])
                && mempool_count + |FreeSlots(txn_available)| == |c.shorttxids|
                && (s.k < |pool| ==> OneMatchEach(c.shorttxids, sid, pool[..s.k]))
                && (s.m < |extra| ==> FreeSlots(txn_available) == [])
    {
      hide FreeSlots, Placed, PrefilledOk, Distinct, Crowded, SlotMap, Resolved, Searched, Exact, Gained, At, Matches, Pick;
      s := Search([], map[], [], 0, 0);
      if c.header == 0 || (c.shorttxids == [] && c.prefilledtxn == []) {
        return ReadInvalid, s;
      }
      if |c.shorttxids| + |c.prefilledtxn| > maxTx {
        return ReadInvalid, s;
      }
      header := c.header;
      var ok;
      ok, txn_available := PlacePrefilled(c);
      if !ok {
        return ReadInvalid, s;
      }
      ghost var base := txn_available;
      prefilled_count := |c.prefilledtxn|;
      PlacedSizes(c, base);
      var slots;
      ok, slots := ScanSlots(c.shorttxids, txn_available, crowded);
      if !ok {
        return ReadFailed, s;
      }
      SlotsInside(base, c.shorttxids, slots);
      MapOf(c.shorttxids, FreeSlots(base), slots);
      var have_txn;
      ghost var k, m, have;
      have_txn, k := FillFromPool(slots, sid, pool);
      ghost var mid := txn_available;
      have, m := FillFromExtra(base, slots, sid, pool[..k], extra, have_txn);
      s := Search(base, slots, have, k, m);
      if |base| <= 0x1_0000 {
        FittingMap(base, c.shorttxids, slots);
        SearchResolved(base, mid, have_txn, c.shorttxids, slots, sid, pool[..k], []);
        SearchCount(base, mid, have_txn, c.shorttxids, slots, sid, pool[..k], []);
        if k < |pool| { AllMatched(base, mid, c.shorttxids, sid, pool[..k]); }
        SearchResolved(base, txn_available, have, c.shorttxids, slots, sid, pool[..k], extra[..m]);
        SearchCount(base, txn_available, have, c.shorttxids, slots, sid, pool[..k], extra[..m]);
      }
      return ReadOk, s;
    }

    method IsTxAvailable(index: nat) returns (r: bool)
      requires header != 0 && index < |txn_available|
      ensures r <==> txn_available[index].Some?
    {
      r := txn_available[index].Some?;
    }

    /** The indexes to request: exactly the empty slots, in order. */
    method MissingIndexes() returns (indexes: seq<nat>)
      requires header != 0
      ensures indexes == FreeSlots(txn_available)
    {
      hide FreeSlots;
      indexes := [];
      FreeStart(txn_available);
      for i := 0 to |txn_available|
        invariant indexes == FreeSlots(txn_available[..i])
      {
        FreeStep(txn_available, i);
        var available := IsTxAvailable(i);
        if !available {
          indexes := indexes + [i];
        }
      }
      assert txn_available[..|txn_available|] == txn_available;
    }

    /** Completes the block with the transactions that were requested, in slot order. */
    method FillBlock(missing: seq<Tx>, check: Block -> CheckResult) returns (status: ReadStatus, block: Block)
      requires header != 0
      modifies this
      ensures |missing| == |FreeSlots(old(txn_available))| ==>
                && block.header == old(header) && Rebuilt(old(txn_available), missing, block.vtx)
                && (status == ReadOk <==> check(block).Passes?)
                && (status == ReadFailed <==> check(block).Corrupt?)
                && (status == ReadCheckBlockFailed <==> check(block).Fails?)
      ensures |missing| != |FreeSlots(old(txn_available))| ==> status == ReadInvalid
      ensures |missing| >= |FreeSlots(old(txn_available))| ==> header == 0 && txn_available == []
      ensures |missing| < |FreeSlots(old(txn_available))| ==>
                && header == old(header) && |txn_available| == |old(txn_available)|
                && forall p | 0 <= p < |txn_available| ::
                     txn_available[p] == if p < FreeSlots(old(txn_available))[|missing|] then None else old(txn_available)[p]
    {
      hide FreeSlots, FillState, Rebuilt;
      ghost var a := txn_available;
      block := Block(header, []);
      var tx_missing_offset := 0;
      FreeStart(a);
      FillStart(a, missing);
      for i := 0 to |txn_available|
        invariant |txn_available| == |a| && header == old(header) && block.header == old(header)
        invariant forall p | 0 <= p < |a| :: txn_available[p] == if p < i then None else a[p]
        invariant tx_missing_offset == |FreeSlots(a[..i])| <= |missing|
        invariant FillState(a, missing, block.vtx, i)
      {
        FreeStep(a, i);
        if txn_available[i].None? {
          if |missing| <= tx_missing_offset {
            FillShort(a, i, |missing|);
            return ReadInvalid, block;
          }
          FillStep(a, missing, block.vtx, i, missing[tx_missing_offset]);
          block := block.(vtx := block.vtx + [missing[tx_missing_offset]]);
          tx_missing_offset := tx_missing_offset + 1;
        } else {
          FillStep(a, missing, block.vtx, i, txn_available[i].value);
          block := block.(vtx := block.vtx + [txn_available[i].value]);
          txn_available := txn_available[i := None];
        }
      }
      FillEnd(a, missing, block.vtx);
      header := 0;
      txn_available := [];
      if |missing| != tx_missing_offset {
        return ReadInvalid, block;
      }
      match check(block) {
        case Passes => status := ReadOk;
        case Corrupt => status := ReadFailed;
        case Fails => status := ReadCheckBlockFailed;
      }
    }
  }

  lemma FillStart(a: Slots, missing: seq<Tx>)
    ensures |FreeSlots(a[..0])| <= |missing| && FillState(a, missing, [], 0)
  {
  }

  lemma FillStep(a: Slots, missing: seq<Tx>, vtx: seq<Tx>, i: nat, t: Tx)
    requires i < |a| && |FreeSlots(a[..i])| <= |missing| && FillState(a, missing, vtx, i)
    requires if a[i].Some? then t == a[i].value else |FreeSlots(a[..i])| < |missing| && t == missing[|FreeSlots(a[..i])|]
    ensures |FreeSlots(a[..i + 1])| <= |missing| && FillState(a, missing, vtx + [t], i + 1)
  {
    hide FreeSlots;
    FreeStep(a, i);
  }

  lemma FillEnd(a: Slots, missing: seq<Tx>, vtx: seq<Tx>)
    requires |FreeSlots(a[..|a|])| <= |missing| && FillState(a, missing, vtx, |a|)
    ensures |FreeSlots(a)| == |FreeSlots(a[..|a|])| && (|missing| == |FreeSlots(a)| ==> Rebuilt(a, missing, vtx))
  {
    assert a[..|a|] == a;
  }

  /** The request was too short: the slot at hand is the first that it does not reach. */
  lemma FillShort(a: Slots, i: nat, n: nat)
    requires i < |a| && a[i].None? && |FreeSlots(a[..i])| == n
    ensures n < |FreeSlots(a)| && FreeSlots(a)[n] == i
  {
    hide FreeSlots;
    FreeStep(a, i);
    FreePrefix(a, i + 1);
    assert FreeSlots(a[..i + 1])[n] == i;
  }

  /** The first `i` transactions of the block are in place. */
  ghost predicate FillState(a: Slots, missing: seq<Tx>, vtx: seq<Tx>, i: nat)
    requires i <= |a| && |FreeSlots(a[..i])| <= |missing|
  {
    && |vtx| == i
    && (forall p | 0 <= p < i && a[p].Some? :: vtx[p] == a[p].value)
    && (forall k | 0 <= k < |FreeSlots(a[..i])| :: FreeSlots(a[..i])[k] < i && vtx[FreeSlots(a[..i])[k]] == missing[k])
  }

  lemma FreeStart(a: Slots)
    ensures FreeSlots(a[..0]) == []
  {
  }

  lemma PlacedSizes(c: Compact, a: Slots)
    requires Placed(c, a, |c.prefilledtxn|)
    ensures |a| == |c.shorttxids| + |c.prefilledtxn| && |FreeSlots(a)| == |c.shorttxids|
  {
  }

  lemma SlotNow(base: Slots, avail: Slots, have: seq<bool>, slots: map<nat, nat>, sid: ShortId, pool: seq<Known>, extra: seq<Known>, p: nat)
    requires Searched(base, avail, have, slots, sid, pool, extra) && p < |base|
    ensures |have| == |avail| == |base| && SlotIs(base, avail, have, p, At(pool, sid, slots, p), At(extra, sid, slots, p))
  {
  }

  /** The slots that are mapped exist. */
  lemma SlotsInside(base: Slots, ids: seq<nat>, slots: map<nat, nat>)
    requires SlotMap(ids, FreeSlots(base), slots)
    ensures forall id <- slots :: slots[id] < |base|
  {
    hide Narrow, FreeSlots;
    FreeInside(base);
    forall id <- slots ensures slots[id] < |base| {
      var i :| 0 <= i < |ids| && ids[i] == id;
    }
  }

  lemma MapOf(ids: seq<nat>, free: seq<nat>, slots: map<nat, nat>)
    requires SlotMap(ids, free, slots) && Distinct(ids)
    ensures |slots| == |ids|
  {
    MapSize(ids, slots);
  }

  lemma MapSize(ids: seq<nat>, slots: map<nat, nat>)
    requires Distinct(ids) && slots.Keys == IdSet(ids)
    ensures |slots| == |ids|
  {
    DistinctSize(ids);
    assert |slots| == |slots.Keys|;
  }

  lemma {:induction false} DistinctSize(ids: seq<nat>)
    requires Distinct(ids)
    ensures |IdSet(ids)| == |ids|
  {
    if ids != [] {
      var rest, id := ids[..|ids| - 1], ids[|ids| - 1];
      assert ids == rest + [id];
      DistinctMore(rest, id);
      DistinctSize(rest);
      assert IdSet(ids) == IdSet(rest) + {id};
    }
  }

  // ----- sender and receiver together

  /** Without collisions every filled slot holds the block's own transaction. */
  lemma OwnTransactions(c: Compact, vtx: seq<Tx>, sid: ShortId, base: Slots, avail: Slots, pool: seq<Known>, extra: seq<Known>)
    requires Encodes(c, vtx, sid) && Placed(c, base, |c.prefilledtxn|)
    requires Resolved(base, avail, c.shorttxids, sid, pool, extra)
    requires NoCollision(pool, vtx, sid) && NoCollision(extra, vtx, sid)
    ensures |avail| == |vtx| && forall p | 0 <= p < |avail| && avail[p].Some? :: avail[p].value == vtx[p]
  {
    hide FreeSlots, Matches, Pick;
    assert IdsOf(c.shorttxids, FreeSlots(base), vtx, sid);
    forall p | 0 <= p < |avail| && avail[p].Some? ensures avail[p].value == vtx[p] {
      if base[p].Some? {
        var i :| 0 <= i < |c.prefilledtxn| && Position(c.prefilledtxn, i) == p;
      } else {
        FreeContains(base, p);
        var i :| 0 <= i < |c.shorttxids| && FreeSlots(base)[i] == p;
        PickedIsOwn(pool, extra, vtx, sid, p);
      }
    }
  }

  lemma {:induction false} MatchesPrefix(known: seq<Known>, k: nat, sid: ShortId, id: nat)
    requires k <= |known|
    ensures Matches(known[..k], sid, id) <= Matches(known, sid, id)
  {
    if k == |known| {
      assert known[..k] == known;
    } else {
      assert known[..|known| - 1][..k] == known[..k];
      MatchesPrefix(known[..|known| - 1], k, sid, id);
    }
  }

  lemma CollisionPrefix(known: seq<Known>, k: nat, vtx: seq<Tx>, sid: ShortId)
    requires k <= |known| && NoCollision(known, vtx, sid)
    ensures NoCollision(known[..k], vtx, sid)
  {
  }

  /**
   * With no collisions and no transaction twice in the mempool, a transaction is requested exactly
   * when neither the mempool nor the extra transactions have it, early exits notwithstanding.
   */
  lemma RequestedExactlyWhen(c: Compact, vtx: seq<Tx>, sid: ShortId, base: Slots, avail: Slots,
                             pool: seq<Known>, extra: seq<Known>, k: nat, m: nat, i: nat)
    requires Encodes(c, vtx, sid) && Placed(c, base, |c.prefilledtxn|) && k <= |pool| && m <= |extra|
    requires Resolved(base, avail, c.shorttxids, sid, pool[..k], extra[..m])
    requires k < |pool| ==> OneMatchEach(c.shorttxids, sid, pool[..k])
    requires m < |extra| ==> FreeSlots(avail) == []
    requires NoCollision(pool, vtx, sid) && NoCollision(extra, vtx, sid)
    requires i < |c.shorttxids| && |Matches(pool, sid, c.shorttxids[i])| <= 1
    ensures i < |FreeSlots(base)| && FreeSlots(base)[i] < |avail|
    ensures avail[FreeSlots(base)[i]].None? <==> Matches(pool, sid, c.shorttxids[i]) + Matches(extra, sid, c.shorttxids[i]) == []
  {
    hide FreeSlots, Matches, Pick, Encodes, Placed, Resolved, NoCollision;
    CollisionPrefix(pool, k, vtx, sid);
    CollisionPrefix(extra, m, vtx, sid);
    SlotStatus(c, vtx, sid, base, avail, pool[..k], extra[..m], i);
    var p, id := FreeSlots(base)[i], c.shorttxids[i];
    MatchesPrefix(pool, k, sid, id);
    MatchesPrefix(extra, m, sid, id);
    if k == |pool| { assert pool[..k] == pool; }
    if m == |extra| { assert extra[..m] == extra; }
    if avail[p].None? { FreeContains(avail, p); }
    EarlyExit(Matches(pool[..k], sid, id), Matches(extra[..m], sid, id), Matches(pool, sid, id), Matches(extra, sid, id),
              k < |pool|, m < |extra|, avail[p].None?);
  }

  /** Without collisions a slot is empty exactly when its id has no match, or two in the mempool. */
  lemma SlotStatus(c: Compact, vtx: seq<Tx>, sid: ShortId, base: Slots, avail: Slots, pool: seq<Known>, extra: seq<Known>, i: nat)
    requires Encodes(c, vtx, sid) && Placed(c, base, |c.prefilledtxn|) && i < |c.shorttxids|
    requires Resolved(base, avail, c.shorttxids, sid, pool, extra)
    requires NoCollision(pool, vtx, sid) && NoCollision(extra, vtx, sid)
    ensures i < |FreeSlots(base)| && FreeSlots(base)[i] < |avail|
    ensures var pm, em := Matches(pool, sid, c.shorttxids[i]), Matches(extra, sid, c.shorttxids[i]);
            avail[FreeSlots(base)[i]].None? <==> !(|pm| <= 1 && pm + em != [])
  {
    hide FreeSlots, Matches, Pick, Encodes, Placed, Resolved, NoCollision;
    var p := SlotOf(c, vtx, sid, base, avail, pool, extra, i);
    PickedIsOwn(pool, extra, vtx, sid, p);
  }

  ghost function SlotOf(c: Compact, vtx: seq<Tx>, sid: ShortId, base: Slots, avail: Slots, pool: seq<Known>, extra: seq<Known>, i: nat): (p: nat)
    requires Encodes(c, vtx, sid) && Placed(c, base, |c.prefilledtxn|) && i < |c.shorttxids|
    requires Resolved(base, avail, c.shorttxids, sid, pool, extra)
    ensures i < |FreeSlots(base)| && p == FreeSlots(base)[i] && p < |vtx| && p < |avail| && c.shorttxids[i] == sid(vtx[p].hash)
    ensures avail[p] == Pick(Matches(pool, sid, c.shorttxids[i]), Matches(extra, sid, c.shorttxids[i]))
  {
    assert IdsOf(c.shorttxids, FreeSlots(base), vtx, sid);
    FreeSlots(base)[i]
  }

  /** Stopping early hides no match. */
  lemma EarlyExit(pm: seq<Tx>, em: seq<Tx>, allPool: seq<Tx>, allExtra: seq<Tx>, poolStopped: bool, extraStopped: bool, missing: bool)
    requires pm <= allPool && em <= allExtra && |allPool| <= 1
    requires missing <==> !(|pm| <= 1 && pm + em != [])
    requires if poolStopped then |pm| == 1 else pm == allPool
    requires if extraStopped then !missing else em == allExtra
    ensures missing <==> allPool + allExtra == []
  {
  }

  /**
   * From any compact form of a block to the block again: the receiver takes it in, requests what is
   * missing, and completes it. When no known transaction collides, the result is the block, and the
   * verdict is the one `CheckBlock` gives on it.
   */
  method Transfer(c: Compact, original: Block, sid: ShortId, maxTx: nat, crowded: seq<nat> -> bool, pool: seq<Known>, extra: seq<Known>,
                  check: Block -> CheckResult) returns (status: ReadStatus, block: Block)
    requires c.header == original.header && WellFormed(c, maxTx) && |original.vtx| <= 0x1_0000
    requires Encodes(c, original.vtx, sid) && NoCollision(pool, original.vtx, sid) && NoCollision(extra, original.vtx, sid)
    ensures if Distinct(c.shorttxids) && !Crowded(c.shorttxids, crowded)
            then && block == original
                 && (status == ReadOk <==> check(original).Passes?)
                 && (status == ReadFailed <==> check(original).Corrupt?)
                 && (status == ReadCheckBlockFailed <==> check(original).Fails?)
            else status == ReadFailed
  {
    hide FreeSlots, Placed, Distinct, Crowded, Matches, Pick, Resolved, Encodes, NoCollision, Rebuilt;
    EncodedSize(c, original.vtx, sid);
    block := Block(0, []);
    var partial := new PartiallyDownloadedBlock();
    ghost var s;
    status, s := partial.InitData(c, sid, maxTx, crowded, pool, extra);
    if status != ReadOk {
      return;
    }
    CollisionPrefix(pool, s.k, original.vtx, sid);
    CollisionPrefix(extra, s.m, original.vtx, sid);
    OwnTransactions(c, original.vtx, sid, s.base, partial.txn_available, pool[..s.k], extra[..s.m]);
    ghost var a := partial.txn_available;
    var indexes := partial.MissingIndexes();
    FreeInside(a);
    var missing := Answer(indexes, original.vtx);
    status, block := partial.FillBlock(missing, check);
    RebuiltIsBlock(a, missing, original.vtx, block.vtx);
  }

  lemma EncodedSize(c: Compact, vtx: seq<Tx>, sid: ShortId)
    requires Encodes(c, vtx, sid)
    ensures |vtx| == |c.shorttxids| + |c.prefilledtxn|
  {
  }

  /** The sender's answer to a request. */
  method Answer(indexes: seq<nat>, vtx: seq<Tx>) returns (txs: seq<Tx>)
    requires forall k | 0 <= k < |indexes| :: indexes[k] < |vtx|
    ensures |txs| == |indexes| && forall k | 0 <= k < |txs| :: txs[k] == vtx[indexes[k]]
  {
    txs := [];
    for i := 0 to |indexes|
      invariant |txs| == i && forall k | 0 <= k < i :: txs[k] == vtx[indexes[k]]
    {
      txs := txs + [vtx[indexes[i]]];
    }
  }

  // ----- beyond 16 bits

  lemma {:induction false} FreeIdentity(a: Slots)
    requires forall p | 0 <= p < |a| :: a[p].None?
    ensures |FreeSlots(a)| == |a| && forall k | 0 <= k < |a| :: FreeSlots(a)[k] == k
  {
    if a != [] { FreeIdentity(a[..|a| - 1]); }
  }

  lemma NothingPrefilled(c: Compact, a: Slots)
    requires c.prefilledtxn == [] && Placed(c, a, 0)
    ensures |a| == |c.shorttxids| && forall p | 0 <= p < |a| :: a[p].None?
  {
  }

  function Identity(h: nat): nat { h }

  predicate Never(ids: seq<nat>) { false }

  /** A block of 2^16 + 1 transactions, all of them with short ids: the last one is put into slot 0. */
  method WrongSlot() returns (status: ReadStatus, partial: PartiallyDownloadedBlock, ghost c: Compact, ghost vtx: seq<Tx>, ghost known: Known)
    ensures Encodes(c, vtx, Identity) && NoCollision([known], vtx, Identity) && |vtx| == 0x1_0001
    ensures status == ReadOk && |partial.txn_available| == |vtx| && partial.txn_available[0] == Some(known.tx) && known.tx != vtx[0]
  {
    hide FreeSlots, Placed, Searched, At, Gained, Pick;
    var ids: seq<nat> := seq(0x1_0001, i requires 0 <= i => i);
    var block := Compact(1, ids, []);
    var t := Known(0x1_0000, Tx(0x1_0000, false));
    c, known := block, t;
    vtx := seq(0x1_0001, i requires 0 <= i => Tx(i, false));
    partial := new PartiallyDownloadedBlock();
    ghost var s;
    status, s := partial.InitData(block, Identity, 0x1_0001, Never, [t], []);
    forall a: Slots | Placed(c, a, 0) ensures IdsOf(ids, FreeSlots(a), vtx, Identity) {
      NothingPrefilled(c, a);
      FreeIdentity(a);
    }
    NothingPrefilled(c, s.base);
    FreeIdentity(s.base);
    assert ids[0x1_0000] == 0x1_0000 && s.slots[0x1_0000] == Narrow(0x1_0000) == 0;
    assert [t][..s.k] == [t];
    var none: seq<Known> := [];
    assert none[..s.m] == none;
    AtOnly(t, Identity, s.slots, 0);
    AtNothing(Identity, s.slots, 0);
    PickPool([t.tx]);
    SlotNow(s.base, partial.txn_available, s.have, s.slots, Identity, [t], [], 0);
  }

  lemma {:induction false} PackedPositions(n: nat, t: Tx, i: nat)
    requires i < n
    ensures Position(seq(n, _ => Prefilled(0, t)), i) == i
  {
    if i > 0 { PackedPositions(n, t, i - 1); }
  }

  /** A well-formed compact block, within the size limit, on which the search for the first short id's slot never ends. */
  method EndlessScan(t: Tx) returns (c: Compact, a: Slots)
    requires !t.isNull
    ensures WellFormed(c, 200000) && c.shorttxids != [] && |c.prefilledtxn| == 0x1_0000
    ensures Placed(c, a, |c.prefilledtxn|) && !SearchEnds(a, 0)
  {
    hide FreeSlots, Placed;
    c := Compact(1, [0], seq(0x1_0000, _ => Prefilled(0, t)));
    forall i | 0 <= i < |c.prefilledtxn| ensures PrefilledOk(c, i) { PackedPositions(0x1_0000, t, i); }
    var ok;
    ok, a := PlacePrefilled(c);
    forall offset: Uint16 ensures !Stops(a, 0, offset) { ScanNeverEnds(c, a, offset); }
  }

  lemma AtOnly(t: Known, sid: ShortId, slots: map<nat, nat>, p: nat)
    requires sid(t.hash) in slots && slots[sid(t.hash)] == p
    ensures At([t], sid, slots, p) == [t.tx]
  {
    assert [t][..0] == [];
    AtNothing(sid, slots, p);
  }
}
