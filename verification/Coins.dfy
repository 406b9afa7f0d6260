/**
 Coins, cache entries and stacks of caches as values (src/coins.h), with the plain map that
 a stack of write-back caches stands for.
 */
module Coins {
  const MAX_SCRIPT_SIZE := 129000
  const OP_RETURN: bv8 := 0x6a

  datatype TxOut = TxOut(value: int, script: seq<bv8>) {
    predicate IsNull() { value == -1 }
    predicate IsUnspendable()
      ensures IsUnspendable() <==> [0x6a] <= script || |script| >= 129001
    {
      (|script| > 0 && script[0] == OP_RETURN) || |script| > MAX_SCRIPT_SIZE
    }
  }

  datatype Coin = Coin(out: TxOut, coinBase: bool, coinStake: bool, height: nat) {
    predicate IsSpent() { out.IsNull() }
  }

  /** The empty coin, and what Coin::Clear leaves. */
  const EMPTY_COIN := Coin(TxOut(-1, []), false, false, 0)

  datatype OutPoint = OutPoint(hash: nat, n: nat)

  /** CCoinsCacheEntry with its DIRTY and FRESH flags. */
  datatype Entry = Entry(coin: Coin, isDirty: bool, isFresh: bool)

  type Cache = map<OutPoint, Entry>

  /** The set of unspent coins a view shows. */
  type View = map<OutPoint, Coin>

  /** What a cache shows on top of a view. */
  ghost function Overlay(cache: Cache, below: View): View {
    map o | o in cache.Keys + below.Keys && (o in cache ==> !cache[o].coin.IsSpent())
      :: if o in cache then cache[o].coin else below[o]
  }

  /**
   The meaning of the flags.  FRESH: the view below has no unspent coin there.  Not DIRTY: the entry
   repeats the view below.  A spent entry is kept only to be written down.
   */
  ghost predicate EntryOk(e: Entry, o: OutPoint, below: View) {
    && (e.isFresh ==> o !in below)
    && (!e.isDirty ==> o in below && below[o] == e.coin)
    && (e.coin.IsSpent() ==> e.isDirty && !e.isFresh)
  }

  ghost predicate LayerOk(cache: Cache, below: View) {
    forall o | o in cache :: EntryOk(cache[o], o, below)
  }

  ghost predicate AllUnspent(v: View) { forall o | o in v :: !v[o].IsSpent() }

  lemma SameView(v: View, w: View)
    requires forall o :: o in v <==> o in w
    requires forall o | o in v && o in w :: v[o] == w[o]
    ensures v == w
  {
  }

  lemma EmptyShows(v: View)
    ensures Overlay(map[], v) == v
  {
    SameView(Overlay(map[], v), v);
  }

  /** Copying an entry up changes nothing visible. */
  lemma FetchKeeps(cache: Cache, below: View, o: OutPoint)
    requires LayerOk(cache, below) && AllUnspent(below) && o !in cache && o in below
    ensures LayerOk(cache[o := Entry(below[o], false, false)], below)
    ensures Overlay(cache[o := Entry(below[o], false, false)], below) == Overlay(cache, below)
  {
    SameView(Overlay(cache[o := Entry(below[o], false, false)], below), Overlay(cache, below));
  }

  lemma UncacheKeeps(cache: Cache, below: View, o: OutPoint)
    requires LayerOk(cache, below) && AllUnspent(below) && o in cache && !cache[o].isDirty
    ensures LayerOk(cache - {o}, below) && Overlay(cache - {o}, below) == Overlay(cache, below)
  {
    assert EntryOk(cache[o], o, below);
    SameView(Overlay(cache - {o}, below), Overlay(cache, below));
  }

  lemma AddShows(cache: Cache, below: View, o: OutPoint, e: Entry)
    requires !e.coin.IsSpent()
    ensures Overlay(cache[o := e], below) == Overlay(cache, below)[o := e.coin]
    ensures LayerOk(cache, below) && e.isDirty ==> (LayerOk(cache[o := e], below) <==> (e.isFresh ==> o !in below))
  {
    SameView(Overlay(cache[o := e], below), Overlay(cache, below)[o := e.coin]);
    var c' := cache[o := e];
    if LayerOk(cache, below) && e.isDirty && (e.isFresh ==> o !in below) {
      forall p | p in c' ensures EntryOk(c'[p], p, below) {
        assert p != o ==> EntryOk(cache[p], p, below);
      }
    }
    if LayerOk(c', below) {
      assert EntryOk(c'[o], o, below);
    }
  }

  /** The FRESH flag an added coin gets: kept, or set when a new or clean entry must not be an overwrite. */
  ghost predicate FreshWhenAdded(cache: Cache, o: OutPoint, possibleOverwrite: bool) {
    || (o in cache && cache[o].isFresh)
    || (!possibleOverwrite && (o in cache ==> !cache[o].isDirty))
  }

  lemma CachedShows(cache: Cache, below: View, o: OutPoint)
    requires o in cache
    ensures o in Overlay(cache, below) <==> !cache[o].coin.IsSpent()
    ensures o in Overlay(cache, below) ==> Overlay(cache, below)[o] == cache[o].coin
  {
  }

  lemma UncachedShows(cache: Cache, below: View, o: OutPoint)
    requires o !in cache
    ensures o in Overlay(cache, below) <==> o in below
    ensures o in below ==> Overlay(cache, below)[o] == below[o]
  {
  }

  lemma EraseSpends(cache: Cache, below: View, o: OutPoint)
    requires LayerOk(cache, below) && o in cache && cache[o].isFresh
    ensures LayerOk(cache - {o}, below) && Overlay(cache - {o}, below) == Overlay(cache, below) - {o}
  {
    assert EntryOk(cache[o], o, below);
    SameView(Overlay(cache - {o}, below), Overlay(cache, below) - {o});
  }

  lemma ClearSpends(cache: Cache, below: View, o: OutPoint)
    requires LayerOk(cache, below) && o in cache && !cache[o].isFresh
    ensures LayerOk(cache[o := Entry(EMPTY_COIN, true, false)], below)
    ensures Overlay(cache[o := Entry(EMPTY_COIN, true, false)], below) == Overlay(cache, below) - {o}
  {
    SameView(Overlay(cache[o := Entry(EMPTY_COIN, true, false)], below), Overlay(cache, below) - {o});
  }

  // ---- writing one cache into the next ----

  datatype Slot = Absent | Present(entry: Entry)

  /** What BatchWrite makes of outpoint `o` in the parent. */
  ghost function MergeOne(parent: Cache, child: Cache, o: OutPoint): Slot {
    if o !in child || !child[o].isDirty then
      if o in parent then Present(parent[o]) else Absent
    else if o !in parent then
      if child[o].isFresh && child[o].coin.IsSpent() then Absent
      else Present(Entry(child[o].coin, true, child[o].isFresh))
    else if parent[o].isFresh && child[o].coin.IsSpent() then Absent
    else Present(Entry(child[o].coin, true, parent[o].isFresh))
  }

  ghost function Merge(parent: Cache, child: Cache): Cache {
    map o | o in parent.Keys + child.Keys && MergeOne(parent, child, o).Present? :: MergeOne(parent, child, o).entry
  }

  /** The case in which BatchWrite throws: FRESH on top of an unspent parent entry. */
  ghost predicate Misapplied(parent: Cache, child: Cache, o: OutPoint) {
    o in child && child[o].isDirty && child[o].isFresh && o in parent && !parent[o].coin.IsSpent()
  }

  /** Flags kept right make the throw impossible. */
  lemma NeverMisapplied(parent: Cache, child: Cache, below: View, o: OutPoint)
    requires LayerOk(child, Overlay(parent, below))
    ensures !Misapplied(parent, child, o)
  {
    if o in child {
      assert EntryOk(child[o], o, Overlay(parent, below));
    }
  }

  /** The parent alone then shows what the child showed on top of it, with its flags still right. */
  lemma MergeShows(parent: Cache, child: Cache, below: View)
    requires LayerOk(parent, below) && LayerOk(child, Overlay(parent, below)) && AllUnspent(below)
    ensures LayerOk(Merge(parent, child), below)
    ensures Overlay(Merge(parent, child), below) == Overlay(child, Overlay(parent, below))
  {
    var mid, merged := Overlay(parent, below), Merge(parent, child);
    forall o
      ensures o in merged ==> EntryOk(merged[o], o, below)
      ensures o in Overlay(merged, below) <==> o in Overlay(child, mid)
      ensures o in Overlay(merged, below) ==> Overlay(merged, below)[o] == Overlay(child, mid)[o]
    {
      MergeAt(parent, child, below, o);
    }
    SameView(Overlay(merged, below), Overlay(child, mid));
  }

  lemma MergeAt(parent: Cache, child: Cache, below: View, o: OutPoint)
    requires LayerOk(parent, below) && LayerOk(child, Overlay(parent, below)) && AllUnspent(below)
    ensures var merged := Merge(parent, child);
            var v, w := Overlay(merged, below), Overlay(child, Overlay(parent, below));
            && (o in merged ==> EntryOk(merged[o], o, below))
            && (o in v <==> o in w) && (o in v ==> v[o] == w[o])
  {
    var mid, merged := Overlay(parent, below), Merge(parent, child);
    assert o in merged <==> MergeOne(parent, child, o).Present?;
    assert o in parent ==> EntryOk(parent[o], o, below);
    assert o in child ==> EntryOk(child[o], o, mid);
  }

  /** CCoinsViewDB::BatchWrite: dirty entries are erased or written. */
  ghost function MergeDb(db: View, child: Cache): View {
    map o | o in db.Keys + child.Keys && (if o in child && child[o].isDirty then !child[o].coin.IsSpent() else o in db)
      :: if o in child && child[o].isDirty then child[o].coin else db[o]
  }

  lemma MergeDbShows(db: View, child: Cache)
    requires AllUnspent(db) && LayerOk(child, db)
    ensures AllUnspent(MergeDb(db, child)) && MergeDb(db, child) == Overlay(child, db)
  {
    forall o | o in child ensures EntryOk(child[o], o, db) {}
    SameView(MergeDb(db, child), Overlay(child, db));
  }

  ghost function Only(child: Cache, done: set<OutPoint>): Cache { map o | o in child && o in done :: child[o] }

  lemma OnlyEnds(child: Cache)
    ensures Only(child, {}) == map[] && Only(child, child.Keys) == child
  {
  }

  lemma MergeDbStep(db: View, child: Cache, done: set<OutPoint>, o: OutPoint)
    requires o in child && o !in done
    ensures MergeDb(db, map[]) == db
    ensures
      var now := MergeDb(db, Only(child, done));
      MergeDb(db, Only(child, done + {o})) ==
      if !child[o].isDirty then now else if child[o].coin.IsSpent() then now - {o} else now[o := child[o].coin]
  {
    SameView(MergeDb(db, map[]), db);
    var now := MergeDb(db, Only(child, done));
    var next := if !child[o].isDirty then now else if child[o].coin.IsSpent() then now - {o}
    else now[o := child[o].coin];
    SameView(MergeDb(db, Only(child, done + {o})), next);
  }

  lemma SameCache(a: Cache, b: Cache)
    requires forall o :: o in a <==> o in b
    requires forall o | o in a && o in b :: a[o] == b[o]
    ensures a == b
  {
  }

  /** One turn of the loop of BatchWrite. */
  lemma MergeStep(parent: Cache, child: Cache, done: set<OutPoint>, o: OutPoint)
    requires o in child && o !in done
    ensures Merge(parent, map[]) == parent
    ensures
      var now := Merge(parent, Only(child, done));
      && (o in now <==> o in parent) && (o in now ==> now[o] == parent[o])
      && Merge(parent, Only(child, done + {o})) ==
         match MergeOne(parent, child, o)
         case Absent => now - {o}
         case Present(e) => now[o := e]
  {
    SameCache(Merge(parent, map[]), parent);
    var now := Merge(parent, Only(child, done));
    var next := match MergeOne(parent, child, o) case Absent => now - {o} case Present(e) => now[o := e];
    forall p
      ensures MergeOne(parent, Only(child, done + {o}), p) == if p == o then MergeOne(parent, child, o)
                                                              else MergeOne(parent, Only(child, done), p)
    {
    }
    SameCache(Merge(parent, Only(child, done + {o})), next);
  }

  // ---- memory accounting ----

  /** The sum of the dynamic memory of all coins in a cache. */
  ghost function Usage(mem: Coin -> nat, cache: Cache): nat
    decreases |cache|
  {
    if cache == map[] then 0
    else
      var o :| o in cache;
      assert |cache - {o}| < |cache| by { assert cache == (cache - {o})[o := cache[o]]; }
      mem(cache[o].coin) + Usage(mem, cache - {o})
  }

  lemma {:induction false} UsageRemove(mem: Coin -> nat, cache: Cache, o: OutPoint)
    requires o in cache
    ensures Usage(mem, cache) == mem(cache[o].coin) + Usage(mem, cache - {o})
    decreases |cache|
  {
    var p :| p in cache && Usage(mem, cache) == mem(cache[p].coin) + Usage(mem, cache - {p});
    if p != o {
      var c := cache - {p};
      assert cache == c[p := cache[p]];
      UsageRemove(mem, c, o);
      assert cache - {o} - {p} == c - {o};
      var d := cache - {o};
      assert cache == d[o := cache[o]];
      UsageRemove(mem, d, p);
    }
  }

  lemma UsageUpdate(mem: Coin -> nat, cache: Cache, o: OutPoint, e: Entry)
    ensures Usage(mem, cache[o := e]) == Usage(mem, cache - {o}) + mem(e.coin)
  {
    UsageRemove(mem, cache[o := e], o);
    assert cache[o := e] - {o} == cache - {o};
  }
}
