/** The layered unspent-output caches: a stack of caches over a database, updated in place. */
module Coins {
  import opened CoinsSpec
  import opened Wrappers

  /** The coin database at the bottom of every stack. */
  class CoinsDB {
    var coins: Utxo
    var best: Hash

    constructor ()
      ensures coins == map[] && best == NULL_HASH
    {
      coins, best := map[], NULL_HASH;
    }

    method BatchWrite(mapCoins: CoinsMap, hashBlock: Hash)
      modifies this
      ensures coins == WrittenBack(old(coins), mapCoins)
      ensures best == if hashBlock != NULL_HASH then hashBlock else old(best)
    {
      ghost var goal := WrittenBack(coins, mapCoins);
      var rest := mapCoins;
      while rest != map[]
        invariant forall o <- rest :: o in mapCoins && rest[o] == mapCoins[o]
        invariant forall o :: Agree(coins, if o in rest then old(coins) else goal, o)
        invariant best == old(best)
        decreases rest.Keys
      {
        var o :| o in rest;
        if rest[o].isDirty {
          if rest[o].coin.IsSpent() {
            coins := coins - {o};
          } else {
            coins := coins[o := rest[o].coin];
          }
        }
        rest := rest - {o};
      }
      AgreeEverywhere(coins, goal);
      if hashBlock != NULL_HASH {
        best := hashBlock;
      }
    }
  }

  datatype View = Database(db: CoinsDB) | Layer(cache: CoinsViewCache)

  class CoinsViewCache {
    const base: View
    var hashBlock: Hash
    var cacheCoins: CoinsMap
    var cachedCoinsUsage: int

    ghost const depth: nat
    ghost const repr: set<object>

    /** The immutable wiring of the stack: it is finite and no layer occurs twice. */
    ghost predicate Wired()
      decreases depth
    {
      && this in repr
      && match base
         case Database(db) => repr == {this, db}
         case Layer(c) => c.depth < depth && c.Wired() && this !in c.repr && repr == {this} + c.repr
    }

    /** Flags are sound in every layer, and every layer knows the memory its coins take. */
    ghost predicate Valid()
      reads repr
      decreases depth
    {
      && Wired()
      && (match base
          case Database(db) => AllUnspent(db.coins)
          case Layer(c) => c.Valid())
      && AllUnspent(BaseShown())
      && LayerOk(cacheCoins, BaseShown())
      && cachedCoinsUsage == Usage(cacheCoins)
    }

    /** The flat view of the layer below. */
    ghost function BaseShown(): Utxo
      requires Wired()
      reads repr
      decreases depth, 0
    {
      match base
      case Database(db) => db.coins
      case Layer(c) => c.Shown()
    }

    /** The flat view this cache presents. */
    ghost function Shown(): Utxo
      requires Wired()
      reads repr
      decreases depth, 1
    {
      Overlay(cacheCoins, BaseShown())
    }

    ghost function BaseBest(): Hash
      requires Wired()
      reads repr
      decreases depth, 0
    {
      match base
      case Database(db) => db.best
      case Layer(c) => c.BestShown()
    }

    /** The best block this cache presents. */
    ghost function BestShown(): Hash
      requires Wired()
      reads repr
      decreases depth, 1
    {
      if hashBlock != NULL_HASH then hashBlock else BaseBest()
    }

    constructor OverDatabase(db: CoinsDB)
      requires AllUnspent(db.coins)
      ensures Valid() && base == Database(db) && fresh(repr - {db})
      ensures Shown() == db.coins && BestShown() == db.best
      ensures hashBlock == NULL_HASH && cacheCoins == map[]
    {
      base := Database(db);
      hashBlock, cacheCoins, cachedCoinsUsage := NULL_HASH, map[], 0;
      depth, repr := 0, {this, db};
    }

    constructor OverCache(c: CoinsViewCache)
      requires c.Valid()
      ensures Valid() && base == Layer(c) && fresh(repr - c.repr)
      ensures Shown() == c.Shown() && BestShown() == c.BestShown()
      ensures hashBlock == NULL_HASH && cacheCoins == map[]
    {
      base := Layer(c);
      hashBlock, cacheCoins, cachedCoinsUsage := NULL_HASH, map[], 0;
      depth, repr := c.depth + 1, {this} + c.repr;
    }

    /** Replaces the layer content and its memory total; nothing below is touched. */
    method Install(layer: CoinsMap, usage: int)
      requires Valid()
      modifies this`cacheCoins, this`cachedCoinsUsage
      ensures cacheCoins == layer && cachedCoinsUsage == usage
      ensures BaseShown() == old(BaseShown()) && BaseBest() == old(BaseBest())
      ensures usage == Usage(layer) && LayerOk(layer, BaseShown()) ==> Valid()
    {
      cacheCoins, cachedCoinsUsage := layer, usage;
    }

    /** Looks the outpoint up, copying a coin found only below into every layer on the way. */
    method FetchCoin(o: OutPoint) returns (found: bool)
      requires Valid()
      modifies repr
      ensures Valid()
      ensures BaseShown() == old(BaseShown()) && Shown() == old(Shown()) && BestShown() == old(BestShown())
      ensures cacheCoins == Fetched(old(cacheCoins), old(BaseShown()), o) && hashBlock == old(hashBlock)
      ensures found <==> o in cacheCoins
      decreases depth, 0
    {
      if o in cacheCoins {
        return true;
      }
      var got: Option<Coin>;
      match base {
        case Database(db) =>
          got := if o in db.coins then Some(db.coins[o]) else None;
        case Layer(c) =>
          got := c.GetCoin(o);
      }
      if got.None? {
        return false;
      }
      FetchRefines(cacheCoins, BaseShown(), o);
      var entry := Entry(got.value, false, got.value.IsSpent());
      UsageUpdate(cacheCoins, o, entry);
      Install(cacheCoins[o := entry], cachedCoinsUsage + got.value.heap);
      return true;
    }

    method GetCoin(o: OutPoint) returns (coin: Option<Coin>)
      requires Valid()
      modifies repr
      ensures Valid()
      ensures BaseShown() == old(BaseShown()) && Shown() == old(Shown()) && BestShown() == old(BestShown())
      ensures cacheCoins == Fetched(old(cacheCoins), old(BaseShown()), o) && hashBlock == old(hashBlock)
      ensures coin == if o in Shown() then Some(Shown()[o]) else None
      decreases depth, 1
    {
      var found := FetchCoin(o);
      if found && !cacheCoins[o].coin.IsSpent() {
        return Some(cacheCoins[o].coin);
      }
      return None;
    }

    method AddCoin(o: OutPoint, coin: Coin, overwrite: bool) returns (threw: bool)
      requires Valid() && !coin.IsSpent()
      modifies this`cacheCoins, this`cachedCoinsUsage
      ensures BaseShown() == old(BaseShown()) && BestShown() == old(BestShown())
      ensures threw <==> AddThrows(old(cacheCoins), o, coin, overwrite)
      ensures !threw ==> cacheCoins == Added(old(cacheCoins), o, coin, overwrite)
                         && cachedCoinsUsage == Usage(cacheCoins)
      ensures threw ==> cacheCoins == old(cacheCoins)
                        && cachedCoinsUsage == Usage(cacheCoins) - cacheCoins[o].coin.heap
      ensures (|coin.script| > 0 && coin.script[0] == 0x6a) || |coin.script| > 10_000 ==> !threw && cacheCoins == old(cacheCoins)
      ensures !threw && (|coin.script| == 0 || coin.script[0] != 0x6a) && |coin.script| <= 10_000 ==>
                o in cacheCoins && cacheCoins[o].coin == coin && cacheCoins[o].isDirty
      ensures overwrite || o !in old(Shown()) ==>
                && !threw && Valid()
                && Shown() == if coin.IsUnspendable() then old(Shown()) else old(Shown())[o := coin]
    {
      hide Overlay, LayerOk, Usage, AllUnspent;
      if coin.IsUnspendable() {
        return false;
      }
      if overwrite || o !in Shown() {
        AddRefines(cacheCoins, BaseShown(), o, coin, overwrite);
      }
      var inserted := o !in cacheCoins;
      var entry := if inserted then Entry(CLEARED, false, false) else cacheCoins[o];
      var isFresh := false;
      if !overwrite {
        if !entry.coin.IsSpent() {
          cachedCoinsUsage := cachedCoinsUsage - entry.coin.heap;
          return true;
        }
        isFresh := !entry.isDirty;
      }
      var entry' := Entry(coin, true, entry.isFresh || isFresh);
      UsageUpdate(cacheCoins, o, entry');
      Install(cacheCoins[o := entry'], cachedCoinsUsage - entry.coin.heap + coin.heap);
      return false;
    }

    /** Returns whether an entry was found, and the coin that entry held. */
    method SpendCoin(o: OutPoint) returns (found: bool, moveout: Coin)
      requires Valid()
      modifies repr
      ensures Valid()
      ensures BaseShown() == old(BaseShown()) && BestShown() == old(BestShown())
      ensures Shown() == old(Shown()) - {o}
      ensures cacheCoins == Spent(Fetched(old(cacheCoins), old(BaseShown()), o), o) && hashBlock == old(hashBlock)
      ensures found <==> o in old(cacheCoins) || o in old(BaseShown())
      ensures found ==> moveout == (if o in old(cacheCoins) then old(cacheCoins)[o].coin else old(BaseShown())[o])
      ensures if o in old(Shown()) then found && moveout == old(Shown())[o] else found ==> moveout.IsSpent()
    {
      found := FetchCoin(o);
      moveout := CLEARED;
      SpendRefines(cacheCoins, BaseShown(), o);
      if !found {
        return;
      }
      moveout := cacheCoins[o].coin;
      if cacheCoins[o].isFresh {
        UsageRemove(cacheCoins, o);
        Install(cacheCoins - {o}, cachedCoinsUsage - moveout.heap);
      } else {
        var entry := Entry(CLEARED, true, false);
        UsageUpdate(cacheCoins, o, entry);
        Install(cacheCoins[o := entry], cachedCoinsUsage - moveout.heap);
      }
    }

    method Uncache(o: OutPoint)
      requires Valid()
      modifies this`cacheCoins, this`cachedCoinsUsage
      ensures Valid() && Shown() == old(Shown()) && BestShown() == old(BestShown())
      ensures BaseShown() == old(BaseShown())
      ensures cacheCoins == Uncached(old(cacheCoins), o)
    {
      UncacheRefines(cacheCoins, BaseShown(), o);
      if o in cacheCoins && !cacheCoins[o].isDirty && !cacheCoins[o].isFresh {
        UsageRemove(cacheCoins, o);
        Install(cacheCoins - {o}, cachedCoinsUsage - cacheCoins[o].coin.heap);
      }
    }

    /** Writes a child's entries into this cache, in whatever order the map yields them. */
    method BatchWrite(mapCoins: CoinsMap, hashBlockIn: Hash) returns (threw: bool)
      requires cachedCoinsUsage == Usage(cacheCoins)
      modifies this
      ensures threw <==> exists o :: Misapplied(old(cacheCoins), mapCoins, o)
      ensures !threw ==> cacheCoins == Merged(old(cacheCoins), mapCoins) && hashBlock == hashBlockIn
      ensures cachedCoinsUsage == Usage(cacheCoins)
      ensures threw ==> hashBlock == old(hashBlock)
      ensures threw ==> forall o :: Agree(cacheCoins, old(cacheCoins), o) || Agree(cacheCoins, Merged(old(cacheCoins), mapCoins), o)
    {
      hide Merging, Merged, MergedEntry;
      ghost var start := cacheCoins;
      var rest := mapCoins;
      MergeStart(start, mapCoins);
      while rest != map[]
        invariant forall o <- rest :: o in mapCoins && rest[o] == mapCoins[o]
        invariant Merging(cacheCoins, start, mapCoins, rest)
        invariant forall o <- mapCoins :: o !in rest ==> !Misapplied(start, mapCoins, o)
        invariant cachedCoinsUsage == Usage(cacheCoins) && hashBlock == old(hashBlock)
        decreases rest.Keys
      {
        var o :| o in rest;
        MergePartial(cacheCoins, start, mapCoins, rest);
        assert Agree(cacheCoins, start, o);
        ghost var was := cacheCoins;
        if rest[o].isDirty {
          threw := WriteEntry(o, rest[o]);
          if threw {
            assert Misapplied(start, mapCoins, o);
            return;
          }
        }
        MergeStep(was, start, mapCoins, rest, o, cacheCoins);
        rest := rest - {o};
      }
      MergePartial(cacheCoins, start, mapCoins, rest);
      hashBlock := hashBlockIn;
      return false;
    }

    /** The body of the batch loop for one dirty entry. */
    method WriteEntry(o: OutPoint, e: Entry) returns (threw: bool)
      requires cachedCoinsUsage == Usage(cacheCoins) && e.isDirty
      modifies this`cacheCoins, this`cachedCoinsUsage
      ensures threw <==> Misapplied(old(cacheCoins), map[o := e], o)
      ensures threw ==> cacheCoins == old(cacheCoins)
      ensures !threw ==> var m := MergedEntry(old(cacheCoins), map[o := e], o);
                         cacheCoins == if m.Some? then old(cacheCoins)[o := m.value] else old(cacheCoins) - {o}
      ensures cachedCoinsUsage == Usage(cacheCoins)
    {
      if o !in cacheCoins {
        if !(e.isFresh && e.coin.IsSpent()) {
          var entry := Entry(e.coin, true, e.isFresh);
          UsageUpdate(cacheCoins, o, entry);
          cacheCoins := cacheCoins[o := entry];
          cachedCoinsUsage := cachedCoinsUsage + e.coin.heap;
        } else {
          assert cacheCoins - {o} == cacheCoins;
        }
      } else {
        var us := cacheCoins[o];
        if e.isFresh && !us.coin.IsSpent() {
          return true;
        }
        if us.isFresh && e.coin.IsSpent() {
          UsageRemove(cacheCoins, o);
          cachedCoinsUsage := cachedCoinsUsage - us.coin.heap;
          cacheCoins := cacheCoins - {o};
        } else {
          var entry := Entry(e.coin, true, us.isFresh);
          UsageUpdate(cacheCoins, o, entry);
          cachedCoinsUsage := cachedCoinsUsage - us.coin.heap + e.coin.heap;
          cacheCoins := cacheCoins[o := entry];
        }
      }
      return false;
    }

    /** A null `hashBlock` is written over a base cache that has a best block of its own. */
    ghost predicate LosesBest()
      requires Wired()
      reads repr
    {
      match base
      case Database(_) => false
      case Layer(c) =>
        assert c.Wired();
        hashBlock == NULL_HASH && c.hashBlock != NULL_HASH && c.hashBlock != c.BaseBest()
    }

    method PushToDatabase()
      requires Valid() && base.Database?
      modifies base.db
      ensures Wired() && base.db.coins == old(Shown())
      ensures base.db.best == if hashBlock != NULL_HASH then hashBlock else old(base.db.best)
    {
      WriteBackRefines(cacheCoins, base.db.coins);
      base.db.BatchWrite(cacheCoins, hashBlock);
    }

    method PushToLayer() returns (threw: bool)
      requires Valid() && base.Layer?
      modifies base.cache
      ensures !threw && base.cache.Valid() && base.cache.Shown() == old(Shown())
      ensures base.cache.hashBlock == hashBlock && base.cache.BaseBest() == old(base.cache.BaseBest())
    {
      var c := base.cache;
      assert Shown() == Overlay(cacheCoins, c.Shown());
      MergeRefines(cacheCoins, c.cacheCoins, c.BaseShown());
      threw := c.BatchWrite(cacheCoins, hashBlock);
      assert c.BaseShown() == old(c.BaseShown());
    }

    lemma ShownUnspent()
      requires Valid()
      ensures AllUnspent(Shown())
    {
    }

    /** Pushes the modifications to the base. The base then shows what this cache showed, and so does
        this cache, now empty. The best block shown changes exactly when `LosesBest` held. */
    method Flush() returns (threw: bool)
      requires Valid()
      modifies repr
      ensures !threw && Valid()
      ensures cacheCoins == map[] && hashBlock == old(hashBlock)
      ensures BaseShown() == old(Shown()) && Shown() == old(Shown())
      ensures BaseBest() == BestShown()
      ensures BestShown() == old(if hashBlock == NULL_HASH && base.Layer? then base.cache.BaseBest() else BestShown())
      ensures BestShown() == old(BestShown()) <==> !old(LosesBest())
    {
      hide Overlay, LayerOk, Usage, AllUnspent;
      ShownUnspent();
      EmptyLayer(Shown());
      threw := false;
      if base.Database? {
        PushToDatabase();
      } else {
        assert base.cache.Wired();
        assert BestShown() == if hashBlock != NULL_HASH then hashBlock else base.cache.BestShown();
        threw := PushToLayer();
        assert base.cache.BestShown() == if hashBlock != NULL_HASH then hashBlock else base.cache.BaseBest();
      }
      cacheCoins, cachedCoinsUsage := map[], 0;
    }

    /** The best block has been looked up or set: this cache holds what it presents. */
    ghost predicate KnowsBest()
      requires Wired()
      reads repr
    {
      hashBlock == BestShown()
    }

    /** Returns the best block presented, and remembers it here. */
    method GetBestBlock() returns (hash: Hash)
      requires Valid()
      modifies repr
      ensures Valid() && Shown() == old(Shown()) && BaseShown() == old(BaseShown())
      ensures BestShown() == old(BestShown()) && BaseBest() == old(BaseBest())
      ensures hash == BestShown() == hashBlock
      decreases depth
    {
      if hashBlock == NULL_HASH {
        var h: Hash;
        match base {
          case Database(db) => h := db.best;
          case Layer(c) => h := c.GetBestBlock();
        }
        SetBestBlock(h);
      }
      return hashBlock;
    }

    method SetBestBlock(hash: Hash)
      requires Valid()
      modifies this`hashBlock
      ensures Valid() && Shown() == old(Shown()) && BaseShown() == old(BaseShown())
      ensures BaseBest() == old(BaseBest()) && hashBlock == hash
    {
      hashBlock := hash;
    }

    /** A cache that knows its best block loses none by a flush. */
    lemma NothingToLose()
      requires Valid() && KnowsBest()
      ensures !LosesBest()
    {
      if base.Layer? {
        assert base.cache.Wired();
        assert BaseBest() == base.cache.BestShown();
        assert hashBlock == NULL_HASH ==> base.cache.hashBlock == NULL_HASH;
      }
    }

    /** Once a cache has looked up its best block, a flush keeps what the stack reports. */
    method LookUpAndFlush() returns (hash: Hash, threw: bool)
      requires Valid()
      modifies repr
      ensures !threw && Valid() && Shown() == old(Shown())
      ensures hash == old(BestShown()) && BestShown() == old(BestShown()) && BaseBest() == old(BestShown())
    {
      hide Overlay, LayerOk, Usage, AllUnspent;
      hash := GetBestBlock();
      NothingToLose();
      threw := Flush();
    }

    /** Flushes the cache `level` steps below this one; past the bottom cache there is nothing to flush. */
    method FlushBelow(level: nat)
      requires Valid()
      modifies repr
      ensures Valid() && Shown() == old(Shown())
      ensures level == 0 ==> BaseShown() == old(Shown())
      ensures hashBlock == old(hashBlock)
      ensures old(KnowsBest()) ==> KnowsBest()
      decreases depth
    {
      if level == 0 {
        if KnowsBest() { NothingToLose(); }
        var _ := Flush();
      } else if base.Layer? {
        assert base.cache.Wired();
        assert BaseBest() == base.cache.BestShown();
        assert hashBlock == NULL_HASH && KnowsBest() ==> base.cache.KnowsBest();
        base.cache.FlushBelow(level - 1);
        assert BaseBest() == base.cache.BestShown();
      }
    }

    method Perform(op: Op) returns (answer: Option<Coin>)
      requires Valid() && Legal(op, Shown())
      modifies repr
      ensures Valid()
      ensures Shown() == FlatStep(old(Shown()), op)
      ensures answer == FlatAnswer(old(Shown()), op)
      ensures hashBlock == old(hashBlock) && (old(KnowsBest()) ==> KnowsBest())
    {
      answer := None;
      match op {
        case Get(o) =>
          answer := GetCoin(o);
        case Add(o, coin, overwrite) =>
          var _ := AddCoin(o, coin, overwrite);
        case Spend(o) =>
          var found, coin := SpendCoin(o);
          answer := if found && !coin.IsSpent() then Some(coin) else None;
        case Drop(o) =>
          Uncache(o);
        case FlushAt(level) =>
          FlushBelow(level);
      }
    }

    /** Any run on the top of a stack of any depth has the effect and the answers of one flat map. */
    method Run(ops: seq<Op>) returns (answers: seq<Option<Coin>>)
      requires Valid() && LegalRun(ops, Shown())
      modifies repr
      ensures Valid()
      ensures Shown() == FlatRun(old(Shown()), ops)
      ensures answers == FlatAnswers(old(Shown()), ops)
      ensures hashBlock == old(hashBlock) && (old(KnowsBest()) ==> BestShown() == old(BestShown()))
    {
      hide Overlay, LayerOk, FlatStep, FlatAnswer, FlatRun, FlatAnswers, LegalRun, Legal, Usage;
      answers := [];
      assert ops[0..] == ops;
      for i := 0 to |ops|
        invariant Valid() && AllUnspent(Shown()) && LegalRun(ops[i..], Shown())
        invariant FlatRun(Shown(), ops[i..]) == FlatRun(old(Shown()), ops)
        invariant answers + FlatAnswers(Shown(), ops[i..]) == FlatAnswers(old(Shown()), ops)
        invariant hashBlock == old(hashBlock) && (old(KnowsBest()) ==> KnowsBest())
      {
        RunNext(Shown(), ops[i..]);
        assert ops[i..][0] == ops[i] && ops[i..][1..] == ops[i + 1..];
        var answer := Perform(ops[i]);
        answers := answers + [answer];
      }
      RunNothing(Shown());
    }
  }

  /** Spending the same output of the database twice: the entry that records the first spend is found by the second. */
  method SpendTwice(o: OutPoint, coin: Coin)
    returns (cache: CoinsViewCache, first: bool, between: Option<Coin>, second: bool, moveout: Coin)
    requires !coin.IsSpent()
    ensures cache.Valid() && cache.base.Database? && cache.base.db.coins == map[o := coin] && cache.Shown() == map[]
    ensures cache.cacheCoins == map[o := Entry(CLEARED, true, false)]
    ensures first && between == None && second && moveout == CLEARED
  {
    hide LayerOk, Usage, Overlay;
    var db := new CoinsDB();
    db.coins := map[o := coin];
    cache := new CoinsViewCache.OverDatabase(db);
    first, moveout := cache.SpendCoin(o);
    between := cache.GetCoin(o);
    second, moveout := cache.SpendCoin(o);
  }

  /** A coin added over one that only the database has is not refused, and the flags are wrong from then on. */
  method AddOverDatabase(o: OutPoint, there: Coin, coin: Coin) returns (cache: CoinsViewCache, threw: bool)
    requires !there.IsSpent() && !coin.IsSpent() && !coin.IsUnspendable()
    ensures !threw && cache.Wired() && !cache.Valid()
  {
    var db := new CoinsDB();
    db.coins := map[o := there];
    cache := new CoinsViewCache.OverDatabase(db);
    assert cache.BaseShown() == db.coins;
    AddSoundExactlyWhenAbsent(map[], db.coins, o, coin);
    threw := cache.AddCoin(o, coin, false);
  }

  lemma NoCoins()
    ensures AllUnspent(map[])
  {
  }

  /** A flush of a cache that never looked at its best block makes the stack forget the middle layer's. */
  method FlushForgetsBestBlock(top: Hash, middle: Hash) returns (lower: CoinsViewCache, upper: CoinsViewCache, before: Hash, after: Hash)
    requires middle != NULL_HASH && top != middle
    ensures upper.Valid() && upper.base == Layer(lower) && lower.Wired() && lower.base.Database?
    ensures before == middle && after == top && upper.BestShown() == top && lower.BestShown() == top
  {
    hide Overlay, LayerOk, Usage, AllUnspent;
    NoCoins();
    var db := new CoinsDB();
    db.best := top;
    lower := new CoinsViewCache.OverDatabase(db);
    lower.SetBestBlock(middle);
    upper := new CoinsViewCache.OverCache(lower);
    before := lower.GetBestBlock();
    assert lower.Wired() && lower.BaseBest() == top;
    assert upper.base.cache == lower && upper.hashBlock == NULL_HASH;
    var _ := upper.Flush();
    after := upper.GetBestBlock();
  }
}
