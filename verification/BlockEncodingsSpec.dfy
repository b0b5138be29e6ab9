/** Compact blocks (BIP 152) as values: slots, short ids and what rebuilding a block means. */
module BlockEncodingsSpec {
  import opened Wrappers

  type Uint16 = x: int | 0 <= x < 0x1_0000

  datatype Tx = Tx(hash: nat, isNull: bool)

  /** `index` counts the slots skipped since the previous prefilled transaction. */
  datatype Prefilled = Prefilled(index: Uint16, tx: Tx)

  /** A header of 0 is the null header. */
  datatype Compact = Compact(header: nat, shorttxids: seq<nat>, prefilledtxn: seq<Prefilled>)

  datatype Block = Block(header: nat, vtx: seq<Tx>)

  /** A transaction the node already has, listed under its hash. */
  datatype Known = Known(hash: nat, tx: Tx)

  datatype ReadStatus = ReadOk | ReadInvalid | ReadFailed | ReadCheckBlockFailed

  type Slots = seq<Option<Tx>>

  /** Transaction hash to short id, for one header and nonce. */
  type ShortId = nat -> nat

  /** Conversion to 16 bits. */
  function Narrow(n: nat): (r: nat)
    ensures r <= n && (n < 0x1_0000 ==> r == n) && (n >= 0x1_0000 ==> r != n)
  {
    n % 0x1_0000
  }

  // ----- slots

  /** The empty slots in order. */
  function FreeSlots(a: Slots): (f: seq<nat>)
    ensures |f| <= |a| && forall k | 0 <= k < |f| :: f[k] < |a| && a[f[k]].None?
    ensures forall j, k | 0 <= j < k < |f| :: f[j] < f[k]
  {
    if a == [] then [] else
      var n := |a| - 1;
      FreeSlots(a[..n]) + if a[n].None? then [n] else []
  }

  lemma FreeInside(a: Slots)
    ensures forall k | 0 <= k < |FreeSlots(a)| :: FreeSlots(a)[k] < |a|
  {
  }

  lemma FreeStep(a: Slots, i: nat)
    requires i < |a|
    ensures FreeSlots(a[..i + 1]) == FreeSlots(a[..i]) + if a[i].None? then [i] else []
  {
    assert a[..i + 1][..i] == a[..i];
  }

  lemma {:induction false} FreePrefix(a: Slots, i: nat)
    requires i <= |a|
    ensures FreeSlots(a[..i]) <= FreeSlots(a)
  {
    if i == |a| {
      assert a[..i] == a;
    } else {
      var n := |a| - 1;
      assert a[..n][..i] == a[..i];
      FreePrefix(a[..n], i);
    }
  }

  lemma {:induction false} FreeContains(a: Slots, p: nat)
    requires p < |a| && a[p].None?
    ensures p in FreeSlots(a)
  {
    var n := |a| - 1;
    if p < n { FreeContains(a[..n], p); }
  }

  lemma {:induction false} FreeFill(a: Slots, p: nat, t: Tx)
    requires p < |a| && a[p].None?
    ensures |FreeSlots(a[p := Some(t)])| == |FreeSlots(a)| - 1
  {
    var n := |a| - 1;
    var b := a[p := Some(t)];
    if p < n {
      FreeFill(a[..n], p, t);
      assert b[..n] == a[..n][p := Some(t)];
    } else {
      assert b[..n] == a[..n];
    }
  }

  lemma {:induction false} AllFree(n: nat)
    ensures |FreeSlots(seq(n, _ => None))| == n
  {
    if n > 0 {
      var a: Slots := seq(n, _ => None);
      var b: Slots := seq(n - 1, _ => None);
      assert a[..n - 1] == b;
      AllFree(n - 1);
    }
  }

  // ----- the compact form

  /** The slot of a prefilled transaction; the indexes are differences. */
  function Position(pre: seq<Prefilled>, i: nat): (p: nat)
    requires i < |pre|
    ensures p >= i
  {
    (if i == 0 then 0 else Position(pre, i - 1) + 1) + pre[i].index
  }

  lemma {:induction false} PositionsGrow(pre: seq<Prefilled>, i: nat, j: nat)
    requires i < j < |pre|
    ensures Position(pre, i) < Position(pre, j)
  {
    if i + 1 < j { PositionsGrow(pre, i, j - 1); }
  }

  predicate PrefilledOk(c: Compact, i: nat)
    requires i < |c.prefilledtxn|
  {
    && !c.prefilledtxn[i].tx.isNull
    && Position(c.prefilledtxn, i) < 0x1_0000
    && Position(c.prefilledtxn, i) <= |c.shorttxids| + i
  }

  predicate WellFormed(c: Compact, maxTx: nat) {
    && c.header != 0 && (c.shorttxids != [] || c.prefilledtxn != [])
    && |c.shorttxids| + |c.prefilledtxn| <= maxTx
    && forall i | 0 <= i < |c.prefilledtxn| :: PrefilledOk(c, i)
  }

  /** The slots with the first `n` prefilled transactions in place and nothing else. */
  ghost predicate Placed(c: Compact, a: Slots, n: nat)
    requires n <= |c.prefilledtxn|
  {
    && |a| == |c.shorttxids| + |c.prefilledtxn| && |FreeSlots(a)| == |a| - n
    && (forall i | 0 <= i < n :: Position(c.prefilledtxn, i) < |a| && a[Position(c.prefilledtxn, i)] == Some(c.prefilledtxn[i].tx))
    && (forall p | 0 <= p < |a| && a[p].Some? :: exists i | 0 <= i < n :: Position(c.prefilledtxn, i) == p)
  }

  lemma PlacedUnique(c: Compact, a: Slots, b: Slots)
    requires Placed(c, a, |c.prefilledtxn|) && Placed(c, b, |c.prefilledtxn|)
    ensures a == b
  {
    forall p | 0 <= p < |a| ensures a[p] == b[p] {
      if a[p].Some? {
        var i :| 0 <= i < |c.prefilledtxn| && Position(c.prefilledtxn, i) == p;
      }
    }
  }

  function IdSet(ids: seq<nat>): set<nat> { set id | id in ids }

  predicate Distinct(ids: seq<nat>) { forall i, j | 0 <= i < j < |ids| :: ids[i] != ids[j] }

  /** Each short id is mapped to the empty slot of the same rank, as far as 16 bits can say. */
  ghost predicate SlotMap(ids: seq<nat>, free: seq<nat>, slots: map<nat, nat>) {
    && |ids| == |free| && slots.Keys == IdSet(ids)
    && forall i | 0 <= i < |ids| :: ids[i] in slots && slots[ids[i]] == Narrow(free[i])
  }

  /** Slot numbers are stored in 16 bits: all of them survive exactly when the block has at most 2^16 slots. */
  lemma NumbersFitExactlyWhen(c: Compact, a: Slots)
    requires Placed(c, a, |c.prefilledtxn|) && forall i | 0 <= i < |c.prefilledtxn| :: PrefilledOk(c, i)
    ensures (forall k | 0 <= k < |FreeSlots(a)| :: Narrow(FreeSlots(a)[k]) == FreeSlots(a)[k]) <==> |a| <= 0x1_0000
  {
    if |a| > 0x1_0000 {
      var p := |a| - 1;
      assert forall i | 0 <= i < |c.prefilledtxn| :: PrefilledOk(c, i) ==> Position(c.prefilledtxn, i) != p;
      FreeContains(a, p);
      var k :| 0 <= k < |FreeSlots(a)| && FreeSlots(a)[k] == p;
      assert Narrow(FreeSlots(a)[k]) != FreeSlots(a)[k];
    }
  }

  // ----- what is found among known transactions

  function Matches(known: seq<Known>, sid: ShortId, id: nat): seq<Tx> {
    if known == [] then [] else
      var n := |known| - 1;
      Matches(known[..n], sid, id) + if sid(known[n].hash) == id then [known[n].tx] else []
  }

  /** A slot takes the one match; two matches in the pool, or two that differ, leave it to be requested. */
  function Pick(pool: seq<Tx>, extra: seq<Tx>): Option<Tx> {
    var all := pool + extra;
    if |pool| <= 1 && all != [] && forall i | 0 <= i < |all| :: all[i].hash == all[0].hash then Some(all[0]) else None
  }

  lemma PickMore(pool: seq<Tx>, extra: seq<Tx>, t: Tx)
    ensures pool + extra == [] ==> Pick(pool, extra + [t]) == Some(t)
    ensures pool + extra != [] ==>
              (Pick(pool, extra + [t]) ==
               if Pick(pool, extra).Some? && Pick(pool, extra).value.hash == t.hash then Pick(pool, extra) else None)
  {
    var all, all' := pool + extra, pool + (extra + [t]);
    assert all' == all + [t];
    if all != [] {
      assert forall i | 0 <= i < |all| :: all'[i] == all[i];
      assert all'[|all|] == t;
    }
  }

  lemma PickPool(pool: seq<Tx>)
    ensures Pick(pool, []) == if |pool| == 1 then Some(pool[0]) else None
  {
    assert pool + [] == pool;
  }

  // ----- rebuilding

  /** The block with its missing transactions put into the empty slots in order. */
  ghost predicate Rebuilt(a: Slots, missing: seq<Tx>, vtx: seq<Tx>) {
    && |vtx| == |a| && |missing| == |FreeSlots(a)|
    && (forall p | 0 <= p < |a| && a[p].Some? :: vtx[p] == a[p].value)
    && (forall k | 0 <= k < |missing| :: vtx[FreeSlots(a)[k]] == missing[k])
  }

  /** The compact form describes these transactions. */
  ghost predicate Encodes(c: Compact, vtx: seq<Tx>, sid: ShortId) {
    && |vtx| == |c.shorttxids| + |c.prefilledtxn|
    && (forall i | 0 <= i < |c.prefilledtxn| :: Position(c.prefilledtxn, i) < |vtx| && vtx[Position(c.prefilledtxn, i)] == c.prefilledtxn[i].tx)
    && forall a: Slots | Placed(c, a, |c.prefilledtxn|) :: IdsOf(c.shorttxids, FreeSlots(a), vtx, sid)
  }

  predicate IdsOf(ids: seq<nat>, free: seq<nat>, vtx: seq<Tx>, sid: ShortId) {
    |ids| == |free| && forall k | 0 <= k < |ids| :: free[k] < |vtx| && ids[k] == sid(vtx[free[k]].hash)
  }

  /** No known transaction other than the block's own has the short id of one of the block's. */
  ghost predicate NoCollision(known: seq<Known>, vtx: seq<Tx>, sid: ShortId) {
    forall i, p | 0 <= i < |known| && 0 <= p < |vtx| :: sid(known[i].hash) == sid(vtx[p].hash) ==> known[i].tx == vtx[p]
  }

  lemma {:induction false} MatchesSame(known: seq<Known>, vtx: seq<Tx>, sid: ShortId, p: nat)
    requires NoCollision(known, vtx, sid) && p < |vtx|
    ensures forall t <- Matches(known, sid, sid(vtx[p].hash)) :: t == vtx[p]
  {
    if known != [] { MatchesSame(known[..|known| - 1], vtx, sid, p); }
  }

  /** Slots filled by the rule hold the block's own transactions when nothing collides. */
  lemma PickedIsOwn(pool: seq<Known>, extra: seq<Known>, vtx: seq<Tx>, sid: ShortId, p: nat)
    requires NoCollision(pool, vtx, sid) && NoCollision(extra, vtx, sid) && p < |vtx|
    ensures var id := sid(vtx[p].hash); var pm, em := Matches(pool, sid, id), Matches(extra, sid, id);
            Pick(pm, em) == if |pm| <= 1 && pm + em != [] then Some(vtx[p]) else None
  {
    MatchesSame(pool, vtx, sid, p);
    MatchesSame(extra, vtx, sid, p);
    var id := sid(vtx[p].hash);
    var pm, em := Matches(pool, sid, id), Matches(extra, sid, id);
    var all := pm + em;
    forall i | 0 <= i < |all| ensures all[i] == vtx[p] {
      assert all[i] == if i < |pm| then pm[i] else em[i - |pm|];
      assert all[i] in pm || all[i] in em;
    }
  }

  /** Slots that agree with the block plus the block's transactions for the rest rebuild exactly the block. */
  lemma RebuiltIsBlock(a: Slots, missing: seq<Tx>, vtx: seq<Tx>, built: seq<Tx>)
    requires |a| == |vtx| && forall p | 0 <= p < |a| && a[p].Some? :: a[p].value == vtx[p]
    requires |missing| == |FreeSlots(a)| && forall k | 0 <= k < |missing| :: missing[k] == vtx[FreeSlots(a)[k]]
    requires Rebuilt(a, missing, built)
    ensures built == vtx
  {
    forall p | 0 <= p < |a| ensures built[p] == vtx[p] {
      if a[p].None? {
        FreeContains(a, p);
        var k :| 0 <= k < |missing| && FreeSlots(a)[k] == p;
      }
    }
  }

  // ----- the state while known transactions are looked through

  /** The known transactions whose short id is mapped to the slot. */
  function At(known: seq<Known>, sid: ShortId, slots: map<nat, nat>, p: nat): seq<Tx> {
    if known == [] then [] else
      var n := |known| - 1;
      var id := sid(known[n].hash);
      At(known[..n], sid, slots, p) + if id in slots && slots[id] == p then [known[n].tx] else []
  }

  lemma AtStep(known: seq<Known>, i: nat, sid: ShortId, slots: map<nat, nat>)
    requires i < |known|
    ensures var id := sid(known[i].hash);
            forall p: nat :: At(known[..i + 1], sid, slots, p) ==
                             At(known[..i], sid, slots, p) + if id in slots && slots[id] == p then [known[i].tx] else []
  {
    assert known[..i + 1][..i] == known[..i];
  }

  lemma AtNothing(sid: ShortId, slots: map<nat, nat>, p: nat)
    ensures At([], sid, slots, p) == []
  {
  }

  ghost predicate SlotIs(base: Slots, avail: Slots, have: seq<bool>, p: nat, pool: seq<Tx>, extra: seq<Tx>) {
    && p < |base| && p < |avail| && p < |have|
    && have[p] == (pool + extra != []) && avail[p] == if pool + extra == [] then base[p] else Pick(pool, extra)
  }

  /** Slots without a match are as they were; the others follow from the matches seen so far. */
  ghost predicate Searched(base: Slots, avail: Slots, have: seq<bool>, slots: map<nat, nat>, sid: ShortId, pool: seq<Known>, extra: seq<Known>) {
    && |avail| == |have| == |base|
    && forall p | 0 <= p < |base| :: SlotIs(base, avail, have, p, At(pool, sid, slots, p), At(extra, sid, slots, p))
  }

  lemma SearchStart(base: Slots, slots: map<nat, nat>, sid: ShortId)
    ensures Searched(base, base, seq(|base|, _ => false), slots, sid, [], [])
    ensures Gained(base, seq(|base|, _ => false)) == 0
  {
    GainedNone(base, seq(|base|, _ => false));
  }

  /** A known transaction without a slot changes nothing. */
  lemma SearchMiss(base: Slots, avail: Slots, have: seq<bool>, slots: map<nat, nat>, sid: ShortId,
                   pool: seq<Known>, extra: seq<Known>, pool': seq<Known>, extra': seq<Known>)
    requires Searched(base, avail, have, slots, sid, pool, extra)
    requires forall p: nat :: At(pool', sid, slots, p) == At(pool, sid, slots, p) && At(extra', sid, slots, p) == At(extra, sid, slots, p)
    ensures Searched(base, avail, have, slots, sid, pool', extra')
  {
    hide At, Pick, SlotIs;
    forall p | 0 <= p < |base| ensures SlotIs(base, avail, have, p, At(pool', sid, slots, p), At(extra', sid, slots, p)) {
      assert SlotIs(base, avail, have, p, At(pool, sid, slots, p), At(extra, sid, slots, p));
    }
  }

  /** A known transaction with a slot changes that slot only. */
  lemma SearchHit(base: Slots, avail: Slots, have: seq<bool>, slots: map<nat, nat>, sid: ShortId,
                  pool: seq<Known>, extra: seq<Known>, pool': seq<Known>, extra': seq<Known>, p: nat, x: Option<Tx>)
    requires Searched(base, avail, have, slots, sid, pool, extra) && p < |base|
    requires forall q: nat | q != p :: At(pool', sid, slots, q) == At(pool, sid, slots, q) && At(extra', sid, slots, q) == At(extra, sid, slots, q)
    requires At(pool', sid, slots, p) + At(extra', sid, slots, p) != []
    requires x == Pick(At(pool', sid, slots, p), At(extra', sid, slots, p))
    ensures Searched(base, avail[p := x], have[p := true], slots, sid, pool', extra')
  {
    hide At, Pick;
    var avail', have' := avail[p := x], have[p := true];
    forall q | 0 <= q < |base| ensures SlotIs(base, avail', have', q, At(pool', sid, slots, q), At(extra', sid, slots, q)) {
      assert SlotIs(base, avail, have, q, At(pool, sid, slots, q), At(extra, sid, slots, q));
    }
  }

  /** The number of slots filled in the search. */
  function Gained(avail: Slots, have: seq<bool>): nat
    requires |avail| == |have|
  {
    if avail == [] then 0 else
      var n := |avail| - 1;
      Gained(avail[..n], have[..n]) + Gain(avail[n], have[n])
  }

  function Gain(x: Option<Tx>, h: bool): nat { if h && x.Some? then 1 else 0 }

  lemma {:induction false} GainedNone(avail: Slots, have: seq<bool>)
    requires |avail| == |have| && forall p | 0 <= p < |have| :: !have[p]
    ensures Gained(avail, have) == 0
  {
    if avail != [] { GainedNone(avail[..|avail| - 1], have[..|avail| - 1]); }
  }

  lemma {:induction false} GainedSet(avail: Slots, have: seq<bool>, p: nat, x: Option<Tx>)
    requires |avail| == |have| && p < |avail|
    ensures Gained(avail[p := x], have[p := true]) + Gain(avail[p], have[p]) == Gained(avail, have) + Gain(x, true)
  {
    var n := |avail| - 1;
    if p < n {
      GainedSet(avail[..n], have[..n], p, x);
      assert avail[p := x][..n] == avail[..n][p := x] && have[p := true][..n] == have[..n][p := true];
    } else {
      assert avail[p := x][..n] == avail[..n] && have[p := true][..n] == have[..n];
    }
  }

  // ----- when slot numbers fit

  /** The slot map is exact: different ids have different slots, and none of them is prefilled. */
  ghost predicate Exact(base: Slots, ids: seq<nat>, slots: map<nat, nat>) {
    && |ids| == |FreeSlots(base)| && Distinct(ids) && slots.Keys == IdSet(ids)
    && forall i | 0 <= i < |ids| :: ids[i] in slots && slots[ids[i]] == FreeSlots(base)[i]
  }

  lemma FittingMap(base: Slots, ids: seq<nat>, slots: map<nat, nat>)
    requires SlotMap(ids, FreeSlots(base), slots) && Distinct(ids) && |base| <= 0x1_0000
    ensures Exact(base, ids, slots)
  {
    hide Distinct, IdSet, Narrow, FreeSlots;
    FreeInside(base);
    var free := FreeSlots(base);
    forall i | 0 <= i < |ids| ensures ids[i] in slots && slots[ids[i]] == free[i] {
      assert free[i] < |base|;
      assert Narrow(free[i]) == free[i];
    }
  }

  /** Then the matches of a slot are those of its id. */
  lemma {:induction false} AtMatches(base: Slots, ids: seq<nat>, slots: map<nat, nat>, known: seq<Known>, sid: ShortId, i: nat)
    requires Exact(base, ids, slots) && i < |ids|
    ensures At(known, sid, slots, FreeSlots(base)[i]) == Matches(known, sid, ids[i])
  {
    hide FreeSlots;
    if known != [] {
      var n := |known| - 1;
      AtMatches(base, ids, slots, known[..n], sid, i);
      SameId(base, ids, slots, sid(known[n].hash), i);
    }
  }

  lemma SameId(base: Slots, ids: seq<nat>, slots: map<nat, nat>, id: nat, i: nat)
    requires Exact(base, ids, slots) && i < |ids|
    ensures id in slots && slots[id] == FreeSlots(base)[i] <==> id == ids[i]
  {
    if id in slots {
      var j :| 0 <= j < |ids| && ids[j] == id;
    }
  }

  lemma {:induction false} AtPrefilled(base: Slots, ids: seq<nat>, slots: map<nat, nat>, known: seq<Known>, sid: ShortId, p: nat)
    requires Exact(base, ids, slots) && p < |base| && base[p].Some?
    ensures At(known, sid, slots, p) == []
  {
    if known != [] {
      var n := |known| - 1;
      AtPrefilled(base, ids, slots, known[..n], sid, p);
      var id := sid(known[n].hash);
      if id in slots {
        var j :| 0 <= j < |ids| && ids[j] == id;
      }
    }
  }

  /** Every slot is as its prefilled transaction or the matches of its short id say. */
  ghost predicate Resolved(base: Slots, avail: Slots, ids: seq<nat>, sid: ShortId, pool: seq<Known>, extra: seq<Known>) {
    && |avail| == |base| && |ids| == |FreeSlots(base)|
    && (forall p | 0 <= p < |base| && base[p].Some? :: avail[p] == base[p])
    && (forall i | 0 <= i < |ids| :: avail[FreeSlots(base)[i]] == Pick(Matches(pool, sid, ids[i]), Matches(extra, sid, ids[i])))
  }

  lemma SearchResolved(base: Slots, avail: Slots, have: seq<bool>, ids: seq<nat>, slots: map<nat, nat>, sid: ShortId, pool: seq<Known>, extra: seq<Known>)
    requires Exact(base, ids, slots) && Searched(base, avail, have, slots, sid, pool, extra)
    ensures Resolved(base, avail, ids, sid, pool, extra)
  {
    hide Pick, Matches, At;
    forall p | 0 <= p < |base| && base[p].Some? ensures avail[p] == base[p] {
      assert SlotIs(base, avail, have, p, At(pool, sid, slots, p), At(extra, sid, slots, p));
      AtPrefilled(base, ids, slots, pool, sid, p);
      AtPrefilled(base, ids, slots, extra, sid, p);
    }
    forall i | 0 <= i < |ids| ensures avail[FreeSlots(base)[i]] == Pick(Matches(pool, sid, ids[i]), Matches(extra, sid, ids[i])) {
      var p := FreeSlots(base)[i];
      assert SlotIs(base, avail, have, p, At(pool, sid, slots, p), At(extra, sid, slots, p));
      AtMatches(base, ids, slots, pool, sid, i);
      AtMatches(base, ids, slots, extra, sid, i);
      PickNothing();
    }
  }

  lemma PickNothing()
    ensures Pick([], []) == None
  {
  }

  /** Filled and empty slots together are the slots of the short ids. */
  lemma SearchCount(base: Slots, avail: Slots, have: seq<bool>, ids: seq<nat>, slots: map<nat, nat>, sid: ShortId, pool: seq<Known>, extra: seq<Known>)
    requires Exact(base, ids, slots) && Searched(base, avail, have, slots, sid, pool, extra)
    ensures Gained(avail, have) + |FreeSlots(avail)| == |ids|
  {
    hide Pick, Matches, At;
    forall p | 0 <= p < |base| ensures if base[p].Some? then avail[p].Some? && !have[p] else avail[p].Some? ==> have[p] {
      assert SlotIs(base, avail, have, p, At(pool, sid, slots, p), At(extra, sid, slots, p));
      if base[p].Some? {
        AtPrefilled(base, ids, slots, pool, sid, p);
        AtPrefilled(base, ids, slots, extra, sid, p);
      }
    }
    CountFree(base, avail, have);
  }

  lemma {:induction false} CountFree(base: Slots, avail: Slots, have: seq<bool>)
    requires |avail| == |have| == |base|
    requires forall p | 0 <= p < |base| :: if base[p].Some? then avail[p].Some? && !have[p] else avail[p].Some? ==> have[p]
    ensures Gained(avail, have) + |FreeSlots(avail)| == |FreeSlots(base)|
  {
    if base != [] {
      var n := |base| - 1;
      CountFree(base[..n], avail[..n], have[..n]);
    }
  }

  ghost predicate OneMatchEach(ids: seq<nat>, sid: ShortId, pool: seq<Known>) {
    forall i | 0 <= i < |ids| :: |Matches(pool, sid, ids[i])| == 1
  }

  /** With every slot filled from the mempool, each short id had exactly one match. */
  lemma AllMatched(base: Slots, avail: Slots, ids: seq<nat>, sid: ShortId, pool: seq<Known>)
    requires Resolved(base, avail, ids, sid, pool, []) && FreeSlots(avail) == []
    ensures OneMatchEach(ids, sid, pool)
  {
    forall i | 0 <= i < |ids| ensures |Matches(pool, sid, ids[i])| == 1 {
      var p := FreeSlots(base)[i];
      PickPool(Matches(pool, sid, ids[i]));
      assert avail[p] == Pick(Matches(pool, sid, ids[i]), []);
      if avail[p].None? { FreeContains(avail, p); }
    }
  }

  // ----- when the scan does not end

  lemma {:induction false} PositionsGrowBy(pre: seq<Prefilled>, i: nat, j: nat)
    requires i <= j < |pre|
    ensures Position(pre, i) + (j - i) <= Position(pre, j)
  {
    if i < j { PositionsGrowBy(pre, i, j - 1); }
  }

  /** With 2^16 prefilled transactions every 16-bit offset points at a filled slot: the search for an empty one never ends. */
  lemma ScanNeverEnds(c: Compact, a: Slots, offset: Uint16)
    requires Placed(c, a, |c.prefilledtxn|) && (forall i | 0 <= i < |c.prefilledtxn| :: PrefilledOk(c, i))
    requires c.shorttxids != [] && |c.prefilledtxn| == 0x1_0000
    ensures offset < |a| && a[offset].Some?
  {
    PositionsGrowBy(c.prefilledtxn, offset, 0xffff);
    assert PrefilledOk(c, 0xffff);
    assert Position(c.prefilledtxn, offset) == offset;
  }

  /** There are never more than 2^16 prefilled transactions. */
  lemma PrefilledFew(c: Compact)
    requires forall i | 0 <= i < |c.prefilledtxn| :: PrefilledOk(c, i)
    ensures |c.prefilledtxn| <= 0x1_0000
  {
    var n := |c.prefilledtxn|;
    if n > 0 { assert PrefilledOk(c, n - 1); }
  }

  /** A prefix has at most as many filled slots as the whole. */
  lemma {:induction false} FilledFewer(a: Slots, p: nat)
    requires p <= |a|
    ensures p - |FreeSlots(a[..p])| <= |a| - |FreeSlots(a)|
    decreases |a| - p
  {
    if p == |a| {
      assert a[..p] == a;
    } else {
      FreeStep(a, p);
      FilledFewer(a, p + 1);
    }
  }

  /** At this offset the search for the slot of the `k`-th short id finds an empty one. */
  ghost predicate Stops(a: Slots, k: nat, offset: Uint16) { k + offset < |a| && a[k + offset].None? }

  ghost predicate SearchEnds(a: Slots, k: nat) { exists offset: Uint16 :: Stops(a, k, offset) }

  /** The empty slot of rank `k` lies at an offset of at most the number of filled slots. */
  lemma RankOffset(a: Slots, k: nat)
    requires k < |FreeSlots(a)|
    ensures k <= FreeSlots(a)[k] < |a| && a[FreeSlots(a)[k]].None? && FreeSlots(a)[k] - k <= |a| - |FreeSlots(a)|
  {
    var p := FreeSlots(a)[k];
    FreeRank(a, k);
    FilledFewer(a, p);
  }

  lemma {:induction false} FreeRank(a: Slots, k: nat)
    requires k < |FreeSlots(a)|
    ensures FreeSlots(a)[k] < |a| && |FreeSlots(a[..FreeSlots(a)[k]])| == k
  {
    var n := |a| - 1;
    var p := FreeSlots(a)[k];
    if k < |FreeSlots(a[..n])| {
      FreeRank(a[..n], k);
      assert a[..n][..p] == a[..p];
    }
  }

  /** With a short id to place, every search of the scan ends if and only if there are not 2^16 prefilled transactions. */
  lemma ScanEndsExactlyWhen(c: Compact, a: Slots)
    requires Placed(c, a, |c.prefilledtxn|) && (forall i | 0 <= i < |c.prefilledtxn| :: PrefilledOk(c, i)) && c.shorttxids != []
    ensures (forall k | 0 <= k < |c.shorttxids| :: SearchEnds(a, k)) <==> |c.prefilledtxn| != 0x1_0000
  {
    if |c.prefilledtxn| == 0x1_0000 {
      forall offset: Uint16 ensures !Stops(a, 0, offset) { ScanNeverEnds(c, a, offset); }
      assert !SearchEnds(a, 0);
    } else {
      PrefilledFew(c);
      forall k | 0 <= k < |c.shorttxids| ensures SearchEnds(a, k) {
        RankOffset(a, k);
        var offset: Uint16 := FreeSlots(a)[k] - k;
        assert Stops(a, k, offset);
      }
    }
  }
}
