/**
 CCoinsViewCache (src/coins.cpp): layered write-back caches over a coin database.  The virtual
 base view is either another cache or, at the bottom, the database.
 */
module CoinsCaching {
  import opened Collections
  import opened Coins

  /** The bottom view, as src/coins.h documents CCoinsView. */
  class CoinsDB {
    var coins: View
    var bestBlock: nat

    constructor (coins: View)
      ensures this.coins == coins && bestBlock == 0
    {
      this.coins := coins;
      bestBlock := 0;
    }

    method GetCoin(o: OutPoint) returns (found: bool, coin: Coin)
      ensures found <==> o in coins
      ensures found ==> coin == coins[o]
    {
      if o in coins {
        return true, coins[o];
      }
      return false, EMPTY_COIN;
    }

    method BatchWrite(mapCoins: Cache, hashBlock: nat)
      modifies this
      ensures coins == MergeDb(old(coins), mapCoins) && bestBlock == hashBlock
    {
      hide MergeDb, Only;
      OnlyEnds(mapCoins);
      var todo := mapCoins.Keys;
      ghost var done: set<OutPoint> := {};
      DbUnchanged(coins);
      while todo != {}
        invariant done + todo == mapCoins.Keys && done !! todo
        invariant coins == MergeDb(old(coins), Only(mapCoins, done))
        decreases todo
      {
        ghost var some := Element(todo);
        var o :| o in todo;
        MergeDbStep(old(coins), mapCoins, done, o);
        if mapCoins[o].isDirty {
          coins := if mapCoins[o].coin.IsSpent() then coins - {o} else coins[o := mapCoins[o].coin];
        }
        todo, done := todo - {o}, done + {o};
      }
      assert done == mapCoins.Keys;
      bestBlock := hashBlock;
    }
  }

  lemma DbUnchanged(db: View)
    ensures MergeDb(db, map[]) == db
  {
    SameView(MergeDb(db, map[]), db);
  }

  lemma CacheUnchanged(parent: Cache)
    ensures Merge(parent, map[]) == parent
  {
    SameCache(Merge(parent, map[]), parent);
  }

  class CoinsCache {
    const parent: CoinsCache?
    const db: CoinsDB
    const mem: Coin -> nat
    /** This cache and those below it. */
    ghost const layers: set<CoinsCache>
    ghost const depth: nat
    var cacheCoins: Cache
    var cachedCoinsUsage: int
    var hashBlock: nat

    constructor OnDatabase(db: CoinsDB, mem: Coin -> nat)
      requires AllUnspent(db.coins) && mem(EMPTY_COIN) == 0
      ensures Valid() && this.db == db && Shown() == db.coins && layers == {this} && hashBlock == 0
    {
      this.parent := null;
      this.db := db;
      this.mem := mem;
      this.layers := {this};
      this.depth := 0;
      cacheCoins := map[];
      cachedCoinsUsage := 0;
      hashBlock := 0;
      new;
      EmptyShows(db.coins);
    }

    /** A further layer on top of a cache. */
    constructor OnCache(base: CoinsCache)
      requires base.Valid()
      ensures Valid() && parent == base && db == base.db && Shown() == base.Shown() && layers == {this} + base.layers
      ensures hashBlock == 0
    {
      this.parent := base;
      this.db := base.db;
      this.mem := base.mem;
      this.layers := {this} + base.layers;
      this.depth := base.depth + 1;
      cacheCoins := map[];
      cachedCoinsUsage := 0;
      hashBlock := 0;
      new;
      EmptyShows(base.Shown());
    }

    ghost predicate Linked()
      decreases depth
    {
      && this in layers && mem(EMPTY_COIN) == 0
      && (parent == null ==> layers == {this})
      && (parent != null ==>
            parent.depth < depth && parent.layers == layers - {this} && parent.db == db && parent.Linked())
    }

    /** What the view below shows. */
    ghost function Below(): View
      requires Linked()
      reads layers, db
      decreases depth, 0
    {
      if parent == null then db.coins else parent.Shown()
    }

    ghost function Shown(): View
      requires Linked()
      reads layers, db
      decreases depth, 1
    {
      Overlay(cacheCoins, Below())
    }

    /** Every layer's flags mean what they should and its memory account is exact. */
    ghost predicate Valid()
      reads layers, db
      decreases depth
    {
      && Linked()
      && LayerOk(cacheCoins, Below())
      && cachedCoinsUsage == Usage(mem, cacheCoins)
      && (if parent == null then AllUnspent(db.coins) else parent.Valid())
    }

    /** The layers below do not contain this cache. */
    lemma {:induction false} Nested(c: CoinsCache)
      requires Linked() && c in layers
      ensures c.Linked() && c.layers <= layers && c.db == db && (c != this ==> this !in c.layers)
      decreases depth
    {
      if c != this {
        parent.Nested(c);
      }
    }

    lemma {:induction false} ShownUnspent()
      requires Valid()
      ensures AllUnspent(Shown()) && AllUnspent(Below())
      decreases depth
    {
      if parent != null {
        parent.ShownUnspent();
      }
    }

    // ---- reads ----

    /** Looks an outpoint up, filling the caches on the way.  No layer shows anything else afterwards. */
    method FetchCoin(o: OutPoint) returns (found: bool)
      requires Valid()
      modifies layers
      ensures Valid() && hashBlock == old(hashBlock) && Below() == old(Below())
      ensures forall c | c in layers && c.Linked() :: c.Shown() == old(c.Shown())
      ensures found <==> o in old(cacheCoins) || o in old(Below())
      ensures cacheCoins == if o !in old(cacheCoins) && o in old(Below())
                            then old(cacheCoins)[o := Entry(old(Below())[o], false, false)] else old(cacheCoins)
      decreases depth, 1
    {
      hide Overlay, LayerOk, Usage;
      if o in cacheCoins {
        return true;
      }
      ghost var below := Below();
      var tmp;
      found, tmp := BaseGetCoin(o);
      if !found {
        return false;
      }
      assert !tmp.IsSpent();  // a spent result, which would be marked FRESH, cannot come from the base
      ShownUnspent();
      FetchKeeps(cacheCoins, below, o);
      UsageUpdate(mem, cacheCoins, o, Entry(tmp, false, false));
      assert cacheCoins - {o} == cacheCoins;
      forall c | c in layers { Nested(c); }
      cacheCoins := cacheCoins[o := Entry(tmp, false, false)];
      cachedCoinsUsage := cachedCoinsUsage + mem(tmp);
    }

    /** base->GetCoin. */
    method BaseGetCoin(o: OutPoint) returns (found: bool, coin: Coin)
      requires Valid()
      modifies layers - {this}
      ensures Valid() && Below() == old(Below())
      ensures forall c | c in layers && c.Linked() :: c.Shown() == old(c.Shown())
      ensures found <==> o in old(Below())
      ensures found ==> coin == old(Below())[o] && !coin.IsSpent()
      decreases depth, 0
    {
      hide Overlay, LayerOk, Usage;
      ShownUnspent();
      if parent == null {
        found, coin := db.GetCoin(o);
      } else {
        found, coin := parent.GetCoin(o);
      }
    }

    method GetCoin(o: OutPoint) returns (found: bool, coin: Coin)
      requires Valid()
      modifies layers
      ensures Valid() && hashBlock == old(hashBlock)
      ensures forall c | c in layers && c.Linked() :: c.Shown() == old(c.Shown())
      ensures found <==> o in old(Shown())
      ensures found ==> coin == old(Shown())[o]
      decreases depth, 2
    {
      coin := EMPTY_COIN;
      found := FetchCoin(o);
      if found {
        coin := cacheCoins[o].coin;
        found := !coin.IsSpent();
      }
    }

    method HaveCoin(o: OutPoint) returns (have: bool)
      requires Valid()
      modifies layers
      ensures Valid() && hashBlock == old(hashBlock) && have == (o in old(Shown())) && Below() == old(Below())
      ensures forall c | c in layers && c.Linked() :: c.Shown() == old(c.Shown())
    {
      have := FetchCoin(o);
      have := have && !cacheCoins[o].coin.IsSpent();
    }

    /** The coin, or an empty one; a spent cached entry is returned as it is. */
    method AccessCoin(o: OutPoint) returns (coin: Coin)
      requires Valid()
      modifies layers
      ensures Valid() && hashBlock == old(hashBlock)
      ensures forall c | c in layers && c.Linked() :: c.Shown() == old(c.Shown())
      ensures o in old(Shown()) ==> coin == old(Shown())[o]
      ensures o !in old(Shown()) ==> coin.IsSpent()
      ensures o !in old(Shown()) && o !in old(cacheCoins) ==> coin == Coin(TxOut(-1, []), false, false, 0)
    {
      var found := FetchCoin(o);
      if !found {
        return EMPTY_COIN;
      }
      coin := cacheCoins[o].coin;
    }

    // ---- writes to this layer ----

    /**
     Adds a coin.  The flags stay right exactly if overwriting is announced, or the entry is cached,
     or the view below has no such coin.  The throw leaves the memory account short of the old coin.
     */
    method AddCoin(o: OutPoint, coin: Coin, possibleOverwrite: bool) returns (threw: bool)
      requires Linked() && cachedCoinsUsage == Usage(mem, cacheCoins) && !coin.IsSpent()
      modifies this`cacheCoins, this`cachedCoinsUsage
      ensures threw <==> !coin.out.IsUnspendable() && !possibleOverwrite
                         && o in old(cacheCoins) && !old(cacheCoins)[o].coin.IsSpent()
      ensures threw ==> cacheCoins == old(cacheCoins)
                        && cachedCoinsUsage == old(cachedCoinsUsage) - mem(old(cacheCoins)[o].coin)
      ensures !threw ==> cachedCoinsUsage == Usage(mem, cacheCoins)
      ensures coin.out.IsUnspendable() ==> cacheCoins == old(cacheCoins) && (old(Valid()) ==> Valid())
      ensures !threw && !coin.out.IsUnspendable() ==>
                cacheCoins ==
                old(cacheCoins)[o := Entry(coin, true, FreshWhenAdded(old(cacheCoins), o, possibleOverwrite))]
      ensures !threw && !coin.out.IsUnspendable() ==> Shown() == old(Shown())[o := coin]
      ensures !threw && !coin.out.IsUnspendable() && old(Valid()) ==>
                (Valid() <==> possibleOverwrite || o in old(cacheCoins) || o !in old(Below()))
    {
      hide Overlay, LayerOk, Usage;
      if coin.out.IsUnspendable() {
        return false;
      }
      var inserted := o !in cacheCoins;
      var entry := if inserted then Entry(EMPTY_COIN, false, false) else cacheCoins[o];
      var isFresh := false;
      if !inserted {
        if Valid() {
          CachedEntry(cacheCoins, Below(), o);
        }
        UsageRemove(mem, cacheCoins, o);
        cachedCoinsUsage := cachedCoinsUsage - mem(entry.coin);
      }
      if !possibleOverwrite {
        if !entry.coin.IsSpent() {
          return true;
        }
        isFresh := !entry.isDirty;
      }
      entry := Entry(coin, true, entry.isFresh || isFresh);
      AddShows(cacheCoins, Below(), o, entry);
      UsageUpdate(mem, cacheCoins, o, entry);
      assert inserted ==> cacheCoins - {o} == cacheCoins;
      cacheCoins := cacheCoins[o := entry];
      cachedCoinsUsage := cachedCoinsUsage + mem(coin);
      threw := false;
    }

    /** Spends a coin.  True also for an entry that is cached as already spent. */
    method SpendCoin(o: OutPoint) returns (ok: bool, moved: Coin)
      requires Valid()
      modifies layers
      ensures Valid() && hashBlock == old(hashBlock)
      ensures Shown() == old(Shown()) - {o}
      ensures forall c | c in layers && c != this && c.Linked() :: c.Shown() == old(c.Shown())
      ensures ok <==> o in old(Shown()) || o in old(cacheCoins)
      ensures o in old(Shown()) ==> moved == old(Shown())[o]
      ensures o !in old(Shown()) ==> moved.IsSpent()
    {
      hide Usage, LayerOk, Overlay;
      moved := EMPTY_COIN;
      if o in cacheCoins {
        CachedShows(cacheCoins, Below(), o);
      } else {
        UncachedShows(cacheCoins, Below(), o);
      }
      ok := FetchCoin(o);
      if !ok {
        assert Shown() == Shown() - {o};
        return;
      }
      CachedShows(cacheCoins, Below(), o);
      moved := cacheCoins[o].coin;
      forall c | c in layers { Nested(c); }
      SpendCached(o);
    }

    /** SpendCoin once the entry is in this cache. */
    method SpendCached(o: OutPoint)
      requires Valid() && o in cacheCoins
      modifies this`cacheCoins, this`cachedCoinsUsage
      ensures Valid() && Shown() == old(Shown()) - {o}
      ensures cacheCoins == if old(cacheCoins)[o].isFresh then old(cacheCoins) - {o}
                            else old(cacheCoins)[o := Entry(EMPTY_COIN, true, false)]
    {
      hide Usage, LayerOk, Overlay;
      UsageRemove(mem, cacheCoins, o);
      var entry := cacheCoins[o];
      cachedCoinsUsage := cachedCoinsUsage - mem(entry.coin);
      if entry.isFresh {
        EraseSpends(cacheCoins, Below(), o);
        cacheCoins := cacheCoins - {o};
      } else {
        ClearSpends(cacheCoins, Below(), o);
        UsageUpdate(mem, cacheCoins, o, Entry(EMPTY_COIN, true, false));
        cacheCoins := cacheCoins[o := Entry(EMPTY_COIN, true, entry.isFresh)];
      }
    }

    /** Drops an unmodified entry. */
    method Uncache(o: OutPoint)
      requires Valid()
      modifies this`cacheCoins, this`cachedCoinsUsage
      ensures Valid() && Shown() == old(Shown())
      ensures cacheCoins == if o in old(cacheCoins) && !old(cacheCoins)[o].isDirty && !old(cacheCoins)[o].isFresh
                            then old(cacheCoins) - {o} else old(cacheCoins)
    {
      hide Overlay, LayerOk, Usage;
      if o in cacheCoins && !cacheCoins[o].isDirty && !cacheCoins[o].isFresh {
        ShownUnspent();
        UncacheKeeps(cacheCoins, Below(), o);
        UsageRemove(mem, cacheCoins, o);
        cachedCoinsUsage := cachedCoinsUsage - mem(cacheCoins[o].coin);
        cacheCoins := cacheCoins - {o};
      }
    }

    // ---- writing down ----

    /** Takes in the modifications of a child cache. */
    method BatchWrite(mapCoins: Cache, hashBlockIn: nat) returns (threw: bool)
      requires cachedCoinsUsage == Usage(mem, cacheCoins)
      modifies this
      ensures threw <==> exists o :: Misapplied(old(cacheCoins), mapCoins, o)
      ensures !threw ==> && cacheCoins == Merge(old(cacheCoins), mapCoins) && hashBlock == hashBlockIn
                         && cachedCoinsUsage == Usage(mem, cacheCoins)
    {
      hide Merge, Only, Usage;
      OnlyEnds(mapCoins);
      var todo := mapCoins.Keys;
      ghost var done: set<OutPoint> := {};
      CacheUnchanged(cacheCoins);
      while todo != {}
        invariant done + todo == mapCoins.Keys && done !! todo
        invariant cacheCoins == Merge(old(cacheCoins), Only(mapCoins, done))
        invariant cachedCoinsUsage == Usage(mem, cacheCoins)
        invariant forall o | o in done :: !Misapplied(old(cacheCoins), mapCoins, o)
        decreases todo
      {
        ghost var some := Element(todo);
        var o :| o in todo;
        MergeStep(old(cacheCoins), mapCoins, done, o);
        threw := WriteOne(o, mapCoins[o]);
        if threw {
          assert Misapplied(old(cacheCoins), mapCoins, o);
          return;
        }
        todo, done := todo - {o}, done + {o};
      }
      assert done == mapCoins.Keys;
      hashBlock := hashBlockIn;
      threw := false;
    }

    /** One entry of BatchWrite. */
    method WriteOne(o: OutPoint, e: Entry) returns (threw: bool)
      requires cachedCoinsUsage == Usage(mem, cacheCoins)
      modifies this`cacheCoins, this`cachedCoinsUsage
      ensures threw <==> e.isDirty && e.isFresh && o in old(cacheCoins) && !old(cacheCoins)[o].coin.IsSpent()
      ensures !threw ==> cachedCoinsUsage == Usage(mem, cacheCoins)
      ensures !threw ==> cacheCoins == match MergeOne(old(cacheCoins), map[o := e], o)
                                       case Absent => old(cacheCoins) - {o}
                                       case Present(n) => old(cacheCoins)[o := n]
    {
      hide Usage;
      threw := false;
      assert o !in cacheCoins ==> cacheCoins - {o} == cacheCoins;
      assert o in cacheCoins ==> cacheCoins[o := cacheCoins[o]] == cacheCoins;
      if !e.isDirty {
        return;
      }
      if o !in cacheCoins {
        if !(e.isFresh && e.coin.IsSpent()) {
          UsageUpdate(mem, cacheCoins, o, Entry(e.coin, true, e.isFresh));
          cacheCoins := cacheCoins[o := Entry(e.coin, true, e.isFresh)];
          cachedCoinsUsage := cachedCoinsUsage + mem(e.coin);
        }
      } else {
        var ours := cacheCoins[o];
        if e.isFresh && !ours.coin.IsSpent() {
          return true;
        }
        UsageRemove(mem, cacheCoins, o);
        if ours.isFresh && e.coin.IsSpent() {
          cachedCoinsUsage := cachedCoinsUsage - mem(ours.coin);
          cacheCoins := cacheCoins - {o};
        } else {
          UsageUpdate(mem, cacheCoins, o, Entry(e.coin, true, ours.isFresh));
          cachedCoinsUsage := cachedCoinsUsage - mem(ours.coin);
          cacheCoins := cacheCoins[o := Entry(e.coin, true, ours.isFresh)];
          cachedCoinsUsage := cachedCoinsUsage + mem(e.coin);
        }
      }
    }

    /** Writes this cache down: the view below becomes what this cache showed; no FRESH flag is misapplied. */
    method Flush() returns (threw: bool)
      requires Valid()
      modifies layers, db
      ensures !threw && Valid() && cacheCoins == map[] && hashBlock == old(hashBlock)
      ensures Below() == old(Shown()) && Shown() == old(Shown())
      ensures forall c | c in layers && c != this && c != parent && c.Linked() :: c.Shown() == old(c.Shown())
      ensures parent == null ==> db.bestBlock == old(hashBlock)
      ensures parent != null ==>
                parent.hashBlock == old(hashBlock) && db.coins == old(db.coins) && db.bestBlock == old(db.bestBlock)
    {
      hide Overlay, LayerOk, Usage, Merge, MergeDb, Misapplied;
      ShownUnspent();
      ghost var below := Below();
      forall c | c in layers { Nested(c); }
      if parent == null {
        MergeDbShows(db.coins, cacheCoins);
        db.BatchWrite(cacheCoins, hashBlock);
        threw := false;
      } else {
        parent.ShownUnspent();
        forall c | c in parent.layers { parent.Nested(c); }
        MergeShows(parent.cacheCoins, cacheCoins, parent.Below());
        forall o ensures !Misapplied(parent.cacheCoins, cacheCoins, o) {
          NeverMisapplied(parent.cacheCoins, cacheCoins, parent.Below(), o);
        }
        threw := parent.BatchWrite(cacheCoins, hashBlock);
      }
      EmptyShows(Below());
      EmptyLayer(mem, Below());
      cacheCoins := map[];
      cachedCoinsUsage := 0;
    }

    lemma EmptyLayer(mem: Coin -> nat, below: View)
      ensures LayerOk(map[], below) && Usage(mem, map[]) == 0
    {
    }
  }

  lemma CachedEntry(cache: Cache, below: View, o: OutPoint)
    requires LayerOk(cache, below) && o in cache
    ensures EntryOk(cache[o], o, below)
  {
  }

  /** The view with the first n outputs of a transaction added, unspendable ones left out. */
  ghost function WithOutputs(v: View, txid: nat, outs: seq<TxOut>, n: nat, height: nat, coinBase: bool,
                             coinStake: bool): View
    requires n <= |outs|
  {
    if n == 0 then v
    else
      var w := WithOutputs(v, txid, outs, n - 1, height, coinBase, coinStake);
      if outs[n - 1].IsUnspendable() then w
      else w[OutPoint(txid, n - 1) := Coin(outs[n - 1], coinBase, coinStake, height)]
  }

  lemma {:induction false} WithOutputsAt(v: View, txid: nat, outs: seq<TxOut>, n: nat, height: nat, coinBase: bool,
                                         coinStake: bool, o: OutPoint)
    requires n <= |outs|
    ensures var w := WithOutputs(v, txid, outs, n, height, coinBase, coinStake);
            if o.hash == txid && o.n < n && !outs[o.n].IsUnspendable()
            then o in w && w[o] == Coin(outs[o.n], coinBase, coinStake, height)
            else (o in w <==> o in v) && (o in v ==> w[o] == v[o])
  {
    if n > 0 {
      WithOutputsAt(v, txid, outs, n - 1, height, coinBase, coinStake, o);
    }
  }

  /** The cache after the first n outputs were added without the overwrite flag. */
  ghost function CacheWith(cache: Cache, txid: nat, outs: seq<TxOut>, n: nat, height: nat, coinBase: bool,
                           coinStake: bool): Cache
    requires n <= |outs|
  {
    if n == 0 then cache
    else
      var before := CacheWith(cache, txid, outs, n - 1, height, coinBase, coinStake);
      var o := OutPoint(txid, n - 1);
      if outs[n - 1].IsUnspendable() then before
      else before[o := Entry(Coin(outs[n - 1], coinBase, coinStake, height), true, FreshWhenAdded(before, o, false))]
  }

  /** An output that would replace an unspent coin in the cache. */
  ghost predicate Clash(cache: Cache, txid: nat, outs: seq<TxOut>, i: nat) {
    && i < |outs| && !outs[i].IsUnspendable()
    && OutPoint(txid, i) in cache && !cache[OutPoint(txid, i)].coin.IsSpent()
  }

  ghost predicate FirstClash(cache: Cache, txid: nat, outs: seq<TxOut>, i: nat) {
    Clash(cache, txid, outs, i) && forall k: nat | k < i :: !Clash(cache, txid, outs, k)
  }

  /** An output that is spendable, not cached, and in the view below: it would be marked FRESH wrongly. */
  ghost predicate Covered(cache: Cache, below: View, txid: nat, outs: seq<TxOut>, i: nat) {
    i < |outs| && !outs[i].IsUnspendable() && OutPoint(txid, i) !in cache && OutPoint(txid, i) in below
  }

  /** What the cache then has at an outpoint. */
  lemma {:induction false} CacheWithAt(cache: Cache, txid: nat, outs: seq<TxOut>, n: nat, height: nat, coinBase: bool,
                                       coinStake: bool, o: OutPoint)
    requires n <= |outs|
    ensures var c := CacheWith(cache, txid, outs, n, height, coinBase, coinStake);
            if o.hash == txid && o.n < n && !outs[o.n].IsUnspendable() then
              o in c && c[o] ==
                        Entry(Coin(outs[o.n], coinBase, coinStake, height), true, FreshWhenAdded(cache, o, false))
            else (o in c <==> o in cache) && (o in cache ==> c[o] == cache[o])
  {
    if n > 0 {
      CacheWithAt(cache, txid, outs, n - 1, height, coinBase, coinStake, o);
      CacheWithAt(cache, txid, outs, n - 1, height, coinBase, coinStake, OutPoint(txid, n - 1));
    }
  }

  /** Without a clash, the flags stay right exactly if no output is covered. */
  lemma CacheWithOk(cache: Cache, below: View, txid: nat, outs: seq<TxOut>, height: nat, coinBase: bool,
                    coinStake: bool)
    requires LayerOk(cache, below) && forall i: nat :: !Clash(cache, txid, outs, i)
    requires forall i | 0 <= i < |outs| :: !outs[i].IsNull()
    ensures LayerOk(CacheWith(cache, txid, outs, |outs|, height, coinBase, coinStake), below)
       <==> forall i: nat :: !Covered(cache, below, txid, outs, i)
  {
    hide CacheWith;
    var c := CacheWith(cache, txid, outs, |outs|, height, coinBase, coinStake);
    forall o ensures o in c ==>
                       if o.hash == txid && o.n < |outs| && !outs[o.n].IsUnspendable()
                       then EntryOk(c[o], o, below) <==> !Covered(cache, below, txid, outs, o.n)
                       else o in cache && EntryOk(c[o], o, below)
    {
      CacheWithAt(cache, txid, outs, |outs|, height, coinBase, coinStake, o);
      if o in cache {
        assert EntryOk(cache[o], o, below);
      }
      if o.hash == txid && o.n < |outs| {
        assert !Clash(cache, txid, outs, o.n);
      }
    }
    if i: nat :| Covered(cache, below, txid, outs, i) {
      var o := OutPoint(txid, i);
      CacheWithAt(cache, txid, outs, |outs|, height, coinBase, coinStake, o);
      assert o in c && !EntryOk(c[o], o, below);
    }
  }

  /** One turn of AddCoins. */
  method AddOutput(cache: CoinsCache, o: OutPoint, coin: Coin, check: bool, coinBase: bool) returns (threw: bool)
    requires cache.Linked() && cache.cachedCoinsUsage == Usage(cache.mem, cache.cacheCoins) && !coin.IsSpent()
    requires check ==> cache.Valid()
    modifies cache.layers
    ensures threw <==> !check && !coinBase && !coin.out.IsUnspendable()
                       && o in old(cache.cacheCoins) && !old(cache.cacheCoins)[o].coin.IsSpent()
    ensures !threw ==> && cache.cachedCoinsUsage == Usage(cache.mem, cache.cacheCoins)
                       && cache.Below() == old(cache.Below())
                       && cache.Shown() == if coin.out.IsUnspendable() then old(cache.Shown())
                                           else old(cache.Shown())[o := coin]
    ensures forall c | c in cache.layers && c != cache && c.Linked() :: c.Shown() == old(c.Shown())
    ensures (check || coinBase) && old(cache.Valid()) ==> cache.Valid()
    ensures !check ==> forall c | c in cache.layers && c != cache :: unchanged(c)
    ensures !check && !coinBase ==>
              cache.cacheCoins == if threw || coin.out.IsUnspendable() then old(cache.cacheCoins)
              else old(cache.cacheCoins)[o :=
                   Entry(coin, true, FreshWhenAdded(old(cache.cacheCoins), o, false))]
  {
    hide Overlay, LayerOk, Usage, FreshWhenAdded;
    forall c | c in cache.layers { cache.Nested(c); }
    var overwrite := coinBase;
    if check {
      overwrite := cache.HaveCoin(o);
      if o in cache.cacheCoins {
        CachedShows(cache.cacheCoins, cache.Below(), o);
      } else {
        UncachedShows(cache.cacheCoins, cache.Below(), o);
      }
    }
    threw := cache.AddCoin(o, coin, overwrite);
  }

  /**
   Adds all outputs of a transaction.  It throws exactly if overwrites are not checked, it is no coinbase, and an output
   would replace an unspent cached coin, and then the outputs before it have been added.  Otherwise all spendable
   outputs are shown, and the flags stay right exactly if overwrites are checked, it is a coinbase, or no output that is
   not cached is in the view below.
   */
  method AddCoins(cache: CoinsCache, txid: nat, outs: seq<TxOut>, height: nat, coinBase: bool, coinStake: bool,
                  check: bool)
    returns (threw: bool)
    requires cache.Valid() && forall i | 0 <= i < |outs| :: !outs[i].IsNull()
    modifies cache.layers
    ensures threw <==> !check && !coinBase && exists i: nat :: Clash(old(cache.cacheCoins), txid, outs, i)
    ensures threw ==> exists i: nat :: && i <= |outs| && FirstClash(old(cache.cacheCoins), txid, outs, i)
                                       && cache.cacheCoins ==
                                          CacheWith(old(cache.cacheCoins), txid, outs, i, height, coinBase, coinStake)
    ensures !threw ==> forall o: OutPoint ::
                if o.hash == txid && o.n < |outs| && !outs[o.n].IsUnspendable()
                then o in cache.Shown() && cache.Shown()[o] == Coin(outs[o.n], coinBase, coinStake, height)
                else && (o in cache.Shown() <==> o in old(cache.Shown()))
                     && (o in cache.Shown() ==> cache.Shown()[o] == old(cache.Shown())[o])
    ensures !threw ==> (cache.Valid() <==> check || coinBase
                                           || forall i: nat ::
                                             !Covered(old(cache.cacheCoins), old(cache.Below()), txid, outs, i))
    ensures forall c | c in cache.layers && c != cache && c.Linked() :: c.Shown() == old(c.Shown())
  {
    hide Overlay, LayerOk, Usage, CacheWith, FreshWhenAdded, Covered;
    ghost var v, first := cache.Shown(), cache.cacheCoins;
    ghost var safe := check || coinBase;
    CacheWithNone(first, txid, outs, height, coinBase, coinStake);
    for i := 0 to |outs|
      invariant cache.cachedCoinsUsage == Usage(cache.mem, cache.cacheCoins) && cache.Below() == old(cache.Below())
      invariant safe ==> cache.Valid()
      invariant !safe ==> && cache.cacheCoins == CacheWith(first, txid, outs, i, height, coinBase, coinStake)
                          && (forall k: nat | k < i :: !Clash(first, txid, outs, k)) && BaseValid(cache)
      invariant cache.Shown() == WithOutputs(v, txid, outs, i, height, coinBase, coinStake)
      invariant forall c | c in cache.layers && c != cache && c.Linked() :: c.Shown() == old(c.Shown())
    {
      var o := OutPoint(txid, i);
      CacheWithAt(first, txid, outs, i, height, coinBase, coinStake, o);
      CacheWithNext(first, txid, outs, i, height, coinBase, coinStake);
      threw := AddOutput(cache, o, Coin(outs[i], coinBase, coinStake, height), check, coinBase);
      if threw {
        assert FirstClash(first, txid, outs, i);
        return;
      }
    }
    threw := false;
    forall o: OutPoint
      ensures if o.hash == txid && o.n < |outs| && !outs[o.n].IsUnspendable()
              then o in cache.Shown() && cache.Shown()[o] == Coin(outs[o.n], coinBase, coinStake, height)
              else (o in cache.Shown() <==> o in v) && (o in v ==> cache.Shown()[o] == v[o])
    {
      WithOutputsAt(v, txid, outs, |outs|, height, coinBase, coinStake, o);
    }
    if !safe {
      CacheWithOk(first, cache.Below(), txid, outs, height, coinBase, coinStake);
    }
  }

  lemma CacheWithNone(cache: Cache, txid: nat, outs: seq<TxOut>, height: nat, coinBase: bool, coinStake: bool)
    ensures CacheWith(cache, txid, outs, 0, height, coinBase, coinStake) == cache
  {
  }

  lemma CacheWithNext(cache: Cache, txid: nat, outs: seq<TxOut>, i: nat, height: nat, coinBase: bool, coinStake: bool)
    requires i < |outs|
    ensures var before, o := CacheWith(cache, txid, outs, i, height, coinBase, coinStake), OutPoint(txid, i);
            CacheWith(cache, txid, outs, i + 1, height, coinBase, coinStake) ==
            if outs[i].IsUnspendable() then before
            else before[o := Entry(Coin(outs[i], coinBase, coinStake, height), true, FreshWhenAdded(before, o, false))]
  {
  }

  /** The views under a cache are right. */
  ghost predicate BaseValid(cache: CoinsCache)
    reads cache.layers, cache.db
  {
    cache.Linked() && if cache.parent == null then AllUnspent(cache.db.coins) else cache.parent.Valid()
  }
}
