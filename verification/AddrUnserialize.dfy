/**
 CAddrMan::Unserialize (src/addrman.h).  On any stream it accepts, the tables, counters and vRandom
 come out consistent; a stream with nothing conflicting in it is restored exactly.
 */
module AddrUnserialize {
  import opened Collections
  import opened AddrTypes
  import opened AddrInvariant
  import opened AddrManager
  import opened AddrStream
  import opened AddrRows

  /** The untried entries without a reference: those still to be placed, or to be pruned. */
  ghost function Zero(m: Infos): set<int> { set id | id in m && !m[id].inTried && m[id].refCount == 0 }

  ghost predicate Loose(env: Env, key: nat, m: Infos, tried: Table, new_: Table) {
    TriedOk(env, key, m, tried) && NewOk(env, key, m, new_, Zero(m))
  }

  lemma LooseNew(env: Env, key: nat, m: Infos, tried: Table, new_: Table, id: int, info: AddrInfo)
    requires Loose(env, key, m, tried, new_)
    requires id !in m && 0 <= id && !info.inTried && info.refCount == 0
    ensures Loose(env, key, m[id := info], tried, new_)
  {
    hide TriedOk, NewOk;
    CreateKeepsTables(env, key, m, tried, new_, Zero(m), id, info);
    assert forall j :: j in Zero(m) + {id} <==> j in Zero(m[id := info]);
    assert Zero(m) + {id} == Zero(m[id := info]);
  }

  lemma LooseRef(env: Env, key: nat, m: Infos, tried: Table, new_: Table, c: (int, int), id: int)
    requires Loose(env, key, m, tried, new_)
    requires c in new_ && new_[c] == -1
    requires id in m && !m[id].inTried && m[id].refCount < NEW_BUCKETS_PER_ADDRESS
    requires BucketPosition(env, key, true, c.0, m[id].addr.service) == c.1
    ensures 0 <= m[id].refCount
    ensures Loose(env, key, m[id := m[id].(refCount := m[id].refCount + 1)], tried, new_[c := id])
  {
    hide TriedOk, NewOk, BucketPosition;
    RefKeeps(env, key, m, tried, new_, Zero(m), c, id);
    RefNonNegative(env, key, m, new_, Zero(m), id);
    var m' := m[id := m[id].(refCount := m[id].refCount + 1)];
    assert forall j :: j in Zero(m) - {id} <==> j in Zero(m');
    assert Zero(m) - {id} == Zero(m');
  }

  lemma RefNonNegative(env: Env, key: nat, m: Infos, new_: Table, limbo: set<int>, id: int)
    requires NewOk(env, key, m, new_, limbo) && id in m && !m[id].inTried
    ensures 0 <= m[id].refCount == |Slots(new_, id)|
  {
    assert RefOk(m[id], |Slots(new_, id)|, id in limbo);
  }

  lemma LooseTried(env: Env, key: nat, m: Infos, tried: Table, new_: Table, id: int, info: AddrInfo)
    requires Loose(env, key, m, tried, new_)
    requires id !in m && 0 <= id && info.inTried && info.refCount == 0
    requires TriedSlot(env, key, info.addr.service) in tried && tried[TriedSlot(env, key, info.addr.service)] == -1
    ensures Loose(env, key, m[id := info], tried[TriedSlot(env, key, info.addr.service) := id], new_)
  {
    var m' := m[id := info];
    assert Zero(m) == Zero(m');
    assert forall j | j in m && !m[j].inTried :: RefOk(m[j], |Slots(new_, j)|, j in Zero(m));
  }

  // ---- Clear ----

  method Clear(a: AddrMan, key: nat)
    requires a.Arrays()
    modifies a`nKey, a`nIdCount, a`mapInfo, a`mapAddr, a`vRandom, a`nTried, a`nNew, a`nLastGood, a`tried, a`new_,
             a.vvNew, a.vvTried
    ensures a.Inv({}, 0) && a.nKey == key && a.mapInfo == map[] && a.mapAddr == map[] && a.vRandom == []
    ensures a.nIdCount == 0 && a.nLastGood == 1 && forall c | c in a.new_ :: a.new_[c] == -1
  {
    hide RandomOk, AddrOk, CountOk, TriedOk, NewOk, Tried, NonTried, Mirrors, Blank;
    a.vRandom := [];
    a.nKey := key;
    Wipe(a.vvNew);
    Wipe(a.vvTried);
    a.nIdCount := 0;
    a.nTried := 0;
    a.nNew := 0;
    a.nLastGood := 1;
    a.mapInfo := map[];
    a.mapAddr := map[];
    a.tried := Blank(TRIED_BUCKET_COUNT);
    a.new_ := Blank(NEW_BUCKET_COUNT);
    BlankMirrors(a.vvTried, TRIED_BUCKET_COUNT);
    BlankMirrors(a.vvNew, NEW_BUCKET_COUNT);
    BlankKeeps(a.env, key);
  }

  lemma BlankKeeps(env: Env, key: nat)
    ensures IndexOk(map[], map[], [], 0) && CountOk(map[], 0, 0, 0)
    ensures TriedOk(env, key, map[], Blank(TRIED_BUCKET_COUNT)) && NewOk(env, key, map[], Blank(NEW_BUCKET_COUNT), {})
    ensures forall c | c in Blank(NEW_BUCKET_COUNT) :: Blank(NEW_BUCKET_COUNT)[c] == -1
  {
    EmptyKeeps(env, key, Blank(TRIED_BUCKET_COUNT), Blank(NEW_BUCKET_COUNT));
  }

  method Wipe(t: array2<int>)
    modifies t
    ensures forall b, i | 0 <= b < t.Length0 && 0 <= i < t.Length1 :: t[b, i] == -1
  {
    for bucket := 0 to t.Length0
      invariant forall b, i | 0 <= b < bucket && 0 <= i < t.Length1 :: t[b, i] == -1
    {
      for entry := 0 to t.Length1
        invariant forall b, i | 0 <= b < bucket && 0 <= i < t.Length1 :: t[b, i] == -1
        invariant forall i | 0 <= i < entry :: t[bucket, i] == -1
      {
        t[bucket, entry] := -1;
      }
    }
  }

  // ---- the new entries ----

  /** The n records from position p on. */
  ghost predicate RecordsAt(s: seq<Token>, p: nat, n: int) {
    0 <= n && p + n <= |s| && forall k | p <= k < p + n :: s[k].Rec?
  }

  ghost function RecordsFrom(s: seq<Token>, p: nat, n: int): (rs: seq<Record>)
    requires RecordsAt(s, p, n)
    ensures |rs| == n
  {
    seq(n, k requires 0 <= k < n => s[p + k].r)
  }

  /** Entries 0..n hold the records, in order, and vRandom lists them in order. */
  ghost predicate NewsLoaded(m: Infos, rs: seq<Record>) {
    && (forall id :: id in m <==> 0 <= id < |rs|)
    && (forall id | id in m :: m[id] == Loaded(rs[id]).(randomPos := id, refCount := m[id].refCount))
  }

  lemma NewsLoadedNext(m: Infos, rs: seq<Record>, r: Record, refs: int)
    requires NewsLoaded(m, rs)
    ensures NewsLoaded(m[|rs| := Loaded(r).(randomPos := |rs|, refCount := refs)], rs + [r])
  {
  }

  /** Entry id has the address of record id. */
  ghost predicate AddrsOf(m: Infos, rs: seq<Record>) {
    && (forall id :: id in m <==> 0 <= id < |rs|)
    && (forall id | id in m :: m[id].addr == rs[id].addr)
  }

  lemma AddrNext(m: Infos, byAddr: map<NetAddr, int>, rs: seq<Record>, r: Record, info: AddrInfo)
    requires AddrsOf(m, rs) && info.addr == r.addr
    requires DistinctNets(rs) ==> AddrOk(m, byAddr)
    ensures DistinctNets(rs + [r]) ==> AddrOk(m[|rs| := info], byAddr[r.addr.service.net := |rs|])
  {
    if DistinctNets(rs + [r]) {
      forall i, j | 0 <= i < j < |rs| ensures rs[i].addr.service.net != rs[j].addr.service.net {
        assert (rs + [r])[i].addr.service.net != (rs + [r])[j].addr.service.net;
      }
      assert AddrOk(m, byAddr);
      var m', b' := m[|rs| := info], byAddr[r.addr.service.net := |rs|];
      forall id | id in m ensures m[id].Net() != r.addr.service.net && MappedBy(m[id], id, b') {
        assert (rs + [r])[id].addr.service.net != (rs + [r])[|rs|].addr.service.net;
        assert MappedBy(m[id], id, byAddr);
      }
    }
  }

  lemma NewsAddrs(m: Infos, rs: seq<Record>)
    requires NewsLoaded(m, rs)
    ensures AddrsOf(m, rs)
  {
  }

  method ReadNew(a: AddrMan, s: seq<Token>, start: nat, current: bool) returns (ok: bool)
    requires a.Arrays() && Mirrors(a.vvTried, a.tried) && Mirrors(a.vvNew, a.new_) && start <= |s|
    requires a.mapInfo == map[] && a.mapAddr == map[] && a.vRandom == [] && 0 <= a.nNew
    requires Loose(a.env, a.nKey, a.mapInfo, a.tried, a.new_) && forall c | c in a.new_ :: a.new_[c] == -1
    modifies a`mapInfo, a`mapAddr, a`vRandom, a`new_, a.vvNew
    ensures ok <==> RecordsAt(s, start, a.nNew)
    ensures ok ==> && Mirrors(a.vvNew, a.new_)
                   && Loose(a.env, a.nKey, a.mapInfo, a.tried, a.new_)
                   && RandomOk(a.mapInfo, a.vRandom, a.nNew) && |a.vRandom| == a.nNew
                   && NewsLoaded(a.mapInfo, RecordsFrom(s, start, a.nNew))
                   && (DistinctNets(RecordsFrom(s, start, a.nNew)) ==> AddrOk(a.mapInfo, a.mapAddr))
    ensures ok ==> a.new_ == if current then old(a.new_)
                             else WithSources(a.env, a.nKey, RecordsFrom(s, start, a.nNew), old(a.new_))
  {
    hide RandomOk, AddrOk, TriedOk, NewOk, Loose, NewsLoaded, DistinctNets, Loaded, WithSources, WithSource;
    ghost var rs: seq<Record> := [];
    NothingLoaded(a);
    NoSources(a.env, a.nKey, a.new_);
    var n := 0;
    while n < a.nNew
      invariant 0 <= n <= a.nNew && RecordsAt(s, start, n) && rs == RecordsFrom(s, start, n)
      invariant Mirrors(a.vvNew, a.new_)
      invariant Loose(a.env, a.nKey, a.mapInfo, a.tried, a.new_)
      invariant RandomOk(a.mapInfo, a.vRandom, n) && |a.vRandom| == n
      invariant NewsLoaded(a.mapInfo, rs)
      invariant DistinctNets(rs) ==> AddrOk(a.mapInfo, a.mapAddr)
      invariant a.new_ == if current then old(a.new_) else WithSources(a.env, a.nKey, rs, old(a.new_))
    {
      if start + n >= |s| || !s[start + n].Rec? {
        return false;
      }
      ReadOneNew(a, s[start + n].r, n, current, rs);
      SourcesNext(a.env, a.nKey, rs, s[start + n].r, old(a.new_));
      rs := rs + [s[start + n].r];
      n := n + 1;
      assert rs == RecordsFrom(s, start, n);
    }
    return true;
  }

  lemma NoSources(env: Env, key: nat, t: Table)
    ensures WithSources(env, key, [], t) == t
  {
  }

  lemma NothingLoaded(a: AddrMan)
    requires a.mapInfo == map[] && a.mapAddr == map[] && a.vRandom == []
    ensures RandomOk(a.mapInfo, a.vRandom, 0) && AddrOk(a.mapInfo, a.mapAddr) && NewsLoaded(a.mapInfo, [])
  {
  }

  method ReadOneNew(a: AddrMan, r: Record, n: int, current: bool, ghost rs: seq<Record>)
    requires a.Arrays() && Mirrors(a.vvNew, a.new_)
    requires n == |rs| == |a.vRandom|
    requires Loose(a.env, a.nKey, a.mapInfo, a.tried, a.new_) && RandomOk(a.mapInfo, a.vRandom, n)
             && NewsLoaded(a.mapInfo, rs)
    requires DistinctNets(rs) ==> AddrOk(a.mapInfo, a.mapAddr)
    modifies a`mapInfo, a`mapAddr, a`vRandom, a`new_, a.vvNew
    ensures Mirrors(a.vvNew, a.new_) && |a.vRandom| == n + 1
    ensures Loose(a.env, a.nKey, a.mapInfo, a.tried, a.new_) && RandomOk(a.mapInfo, a.vRandom, n + 1)
    ensures NewsLoaded(a.mapInfo, rs + [r])
    ensures DistinctNets(rs + [r]) ==> AddrOk(a.mapInfo, a.mapAddr)
    ensures a.new_ == if current then old(a.new_) else WithSource(a.env, a.nKey, old(a.new_), r, n)
  {
    hide RandomOk, AddrOk, TriedOk, NewOk, Loose, NewsLoaded, AddrsOf, DistinctNets, NewBucket, BucketPosition;
    var info := Loaded(r).(randomPos := |a.vRandom|);
    CreateKeepsRandom(a.mapInfo, a.vRandom, n, info);
    LooseNew(a.env, a.nKey, a.mapInfo, a.tried, a.new_, n, info);
    NewsLoadedNext(a.mapInfo, rs, r, 0);
    NewsAddrs(a.mapInfo, rs);
    AddrNext(a.mapInfo, a.mapAddr, rs, r, info);
    a.mapInfo := a.mapInfo[n := info];
    a.mapAddr := a.mapAddr[r.addr.service.net := n];
    a.vRandom := a.vRandom + [n];
    if !current {
      var nUBucket := NewBucket(a.env, a.nKey, r.addr.service, r.source);
      var nUBucketPos := BucketPosition(a.env, a.nKey, true, nUBucket, r.addr.service);
      assert a.new_[(nUBucket, nUBucketPos)] == a.vvNew[nUBucket, nUBucketPos];
      if a.vvNew[nUBucket, nUBucketPos] == -1 {
        LooseRef(a.env, a.nKey, a.mapInfo, a.tried, a.new_, (nUBucket, nUBucketPos), n);
        ghost var m := a.mapInfo;
        a.vvNew[nUBucket, nUBucketPos] := n;
        a.new_ := a.new_[(nUBucket, nUBucketPos) := n];
        a.mapInfo := a.mapInfo[n := a.mapInfo[n].(refCount := a.mapInfo[n].refCount + 1)];
        RecountKeepsIndex(m, a.mapInfo, a.mapAddr, a.vRandom, n + 1);
        NewsRefcount(m, rs + [r], n, 1);
      }
    }
  }

  lemma NewsRefcount(m: Infos, rs: seq<Record>, id: int, refs: int)
    requires NewsLoaded(m, rs) && id in m
    ensures NewsLoaded(m[id := m[id].(refCount := refs)], rs)
  {
  }

  // ---- the tried entries ----

  /** The entries after those of `m1`: the kept tried records, in order. */
  ghost predicate TriedsLoaded(m: Infos, m1: Infos, first: int, kept: seq<Record>) {
    && (forall id :: id in m <==> 0 <= id < first + |kept|)
    && (forall id | 0 <= id < first :: id in m1 && id in m && m[id] == m1[id])
    && (forall k | 0 <= k < |kept| ::
          first + k in m && m[first + k] == Loaded(kept[k]).(inTried := true, randomPos := first + k))
  }

  lemma TriedsLoadedNext(m: Infos, m1: Infos, first: int, kept: seq<Record>, r: Record)
    requires TriedsLoaded(m, m1, first, kept) && 0 <= first
    ensures TriedsLoaded(m[first + |kept| := Loaded(r).(inTried := true, randomPos := first + |kept|)], m1, first,
                         kept + [r])
  {
    var m' := m[first + |kept| := Loaded(r).(inTried := true, randomPos := first + |kept|)];
    forall k | 0 <= k < |kept| + 1
      ensures first + k in m' && m'[first + k] == Loaded((kept + [r])[k]).(inTried := true, randomPos := first + k)
    {
      assert k < |kept| ==> first + k in m;
    }
  }

  lemma TriedsAddrs(m: Infos, m1: Infos, news: seq<Record>, kept: seq<Record>)
    requires NewsLoaded(m1, news) && TriedsLoaded(m, m1, |news|, kept)
    ensures AddrsOf(m, news + kept)
  {
    forall id | id in m ensures m[id].addr == (news + kept)[id].addr {
      if id >= |news| {
        assert |news| + (id - |news|) in m;
      }
    }
  }

  /** The record's tried cell is none of the others' cells. */
  ghost predicate CellUnused(env: Env, key: nat, kept: seq<Record>, r: Record) {
    forall k | 0 <= k < |kept| :: TriedSlot(env, key, kept[k].addr.service) != TriedSlot(env, key, r.addr.service)
  }

  /** The tried records that find their cell free, in order. */
  ghost function Fitting(env: Env, key: nat, rs: seq<Record>): seq<Record> {
    if rs == [] then []
    else
      var before := Fitting(env, key, rs[..|rs| - 1]);
      if CellUnused(env, key, before, rs[|rs| - 1]) then before + [rs[|rs| - 1]] else before
  }

  lemma FittingNext(env: Env, key: nat, rs: seq<Record>, r: Record)
    ensures Fitting(env, key, rs + [r]) ==
            if CellUnused(env, key, Fitting(env, key, rs), r) then Fitting(env, key, rs) + [r]
            else Fitting(env, key, rs)
  {
    assert (rs + [r])[..|rs|] == rs;
  }

  /** With distinct cells every tried record fits. */
  lemma {:induction false} AllFit(env: Env, key: nat, rs: seq<Record>)
    requires DistinctSlots(env, key, rs)
    ensures Fitting(env, key, rs) == rs
  {
    hide TriedSlot;
    if rs != [] {
      AllFit(env, key, rs[..|rs| - 1]);
      assert rs == rs[..|rs| - 1] + [rs[|rs| - 1]];
    }
  }

  /** The cell of the next record is free exactly if no record kept has it. */
  lemma CellFree(env: Env, key: nat, m: Infos, m1: Infos, tried: Table, news: seq<Record>, kept: seq<Record>, r: Record)
    requires TriedOk(env, key, m, tried) && NewsLoaded(m1, news) && TriedsLoaded(m, m1, |news|, kept)
    requires forall id | 0 <= id < |news| :: id in m1 && !m1[id].inTried
    ensures var c := TriedSlot(env, key, r.addr.service);
            c in tried && (tried[c] == -1 <==> CellUnused(env, key, kept, r))
  {
    hide TriedSlot;
    var c := TriedSlot(env, key, r.addr.service);
    SlotInShape(env, key, r.addr.service, tried);
    forall k | 0 <= k < |kept| ensures |news| + k in m && m[|news| + k].inTried && m[|news| + k].addr == kept[k].addr {
      assert |news| + k in m;
      assert m[|news| + k] == Loaded(kept[k]).(inTried := true, randomPos := |news| + k);
    }
    if CellUnused(env, key, kept, r) {
      forall id | id in m && m[id].inTried ensures TriedSlot(env, key, m[id].addr.service) != c {
        assert id >= |news|;
        assert kept[id - |news|].addr == m[id].addr;
      }
    } else {
      var k :| 0 <= k < |kept| && TriedSlot(env, key, kept[k].addr.service) == c;
      assert m[|news| + k].inTried;
    }
  }

  lemma SlotInShape(env: Env, key: nat, s: Service, tried: Table)
    requires Shape(tried, TRIED_BUCKET_COUNT)
    ensures TriedSlot(env, key, s) in tried
  {
  }

  method ReadTried(a: AddrMan, s: seq<Token>, start: nat, count: nat, ghost news: seq<Record>)
    returns (ok: bool, nLost: int, ghost kept: seq<Record>)
    requires a.Arrays() && Mirrors(a.vvTried, a.tried) && start <= |s|
    requires a.nIdCount == |news| == |a.vRandom|
    requires Loose(a.env, a.nKey, a.mapInfo, a.tried, a.new_) && RandomOk(a.mapInfo, a.vRandom, a.nIdCount)
    requires NewsLoaded(a.mapInfo, news) && (DistinctNets(news) ==> AddrOk(a.mapInfo, a.mapAddr))
    modifies a`mapInfo, a`mapAddr, a`vRandom, a`nIdCount, a`tried, a.vvTried
    ensures ok <==> RecordsAt(s, start, count)
    ensures ok ==> && Mirrors(a.vvTried, a.tried)
                   && Loose(a.env, a.nKey, a.mapInfo, a.tried, a.new_) && RandomOk(a.mapInfo, a.vRandom, a.nIdCount)
                   && TriedsLoaded(a.mapInfo, old(a.mapInfo), |news|, kept)
                   && (DistinctNets(news + kept) ==> AddrOk(a.mapInfo, a.mapAddr))
                   && nLost == count - |kept| && a.nIdCount == |news| + |kept|
    ensures ok ==> kept == Fitting(a.env, a.nKey, RecordsFrom(s, start, count))
  {
    hide RandomOk, AddrOk, TriedOk, NewOk, Loose, NewsLoaded, DistinctNets, TriedsLoaded, CellUnused, Fitting;
    nLost := 0;
    kept := [];
    ghost var rs: seq<Record> := [];
    ghost var m1 := a.mapInfo;
    NoneKept(m1, news);
    NoneFitting(a.env, a.nKey);
    assert news + kept == news;
    var n := 0;
    while n < count
      invariant 0 <= n <= count && RecordsAt(s, start, n) && rs == RecordsFrom(s, start, n)
      invariant Mirrors(a.vvTried, a.tried)
      invariant Loose(a.env, a.nKey, a.mapInfo, a.tried, a.new_) && RandomOk(a.mapInfo, a.vRandom, a.nIdCount)
      invariant TriedsLoaded(a.mapInfo, m1, |news|, kept) && |a.vRandom| == a.nIdCount
      invariant DistinctNets(news + kept) ==> AddrOk(a.mapInfo, a.mapAddr)
      invariant nLost == n - |kept| && a.nIdCount == |news| + |kept|
      invariant kept == Fitting(a.env, a.nKey, rs)
    {
      if start + n >= |s| || !s[start + n].Rec? {
        return false, 0, [];
      }
      var kept1 := ReadOneTried(a, s[start + n].r, m1, news, kept);
      FittingNext(a.env, a.nKey, rs, s[start + n].r);
      if kept1 {
        kept := kept + [s[start + n].r];
      } else {
        nLost := nLost + 1;
      }
      rs := rs + [s[start + n].r];
      n := n + 1;
      assert rs == RecordsFrom(s, start, n);
    }
    ok := true;
  }

  lemma NoneFitting(env: Env, key: nat)
    ensures Fitting(env, key, []) == []
  {
  }

  lemma NoneKept(m: Infos, news: seq<Record>)
    requires NewsLoaded(m, news)
    ensures TriedsLoaded(m, m, |news|, [])
  {
  }

  method ReadOneTried(a: AddrMan, r: Record, ghost m1: Infos, ghost news: seq<Record>, ghost kept: seq<Record>)
    returns (fits: bool)
    requires a.Arrays() && Mirrors(a.vvTried, a.tried)
    requires Loose(a.env, a.nKey, a.mapInfo, a.tried, a.new_) && RandomOk(a.mapInfo, a.vRandom, a.nIdCount)
    requires NewsLoaded(m1, news) && TriedsLoaded(a.mapInfo, m1, |news|, kept)
    requires a.nIdCount == |news| + |kept| == |a.vRandom|
    requires DistinctNets(news + kept) ==> AddrOk(a.mapInfo, a.mapAddr)
    modifies a`mapInfo, a`mapAddr, a`vRandom, a`nIdCount, a`tried, a.vvTried
    ensures Mirrors(a.vvTried, a.tried)
    ensures Loose(a.env, a.nKey, a.mapInfo, a.tried, a.new_) && RandomOk(a.mapInfo, a.vRandom, a.nIdCount)
    ensures fits <==> CellUnused(a.env, a.nKey, kept, r)
    ensures fits ==> TriedsLoaded(a.mapInfo, m1, |news|, kept + [r])
                     && (DistinctNets(news + (kept + [r])) ==> AddrOk(a.mapInfo, a.mapAddr))
    ensures fits ==> |a.vRandom| == a.nIdCount == old(a.nIdCount) + 1
    ensures !fits ==> a.mapInfo == old(a.mapInfo) && a.mapAddr == old(a.mapAddr) && a.vRandom == old(a.vRandom)
                      && a.nIdCount == old(a.nIdCount)
  {
    hide RandomOk, AddrOk, TriedOk, NewOk, Loose, NewsLoaded, DistinctNets, CellUnused, TriedsLoaded, AddrsOf,
      TriedBucket, BucketPosition;
    var nKBucket := TriedBucket(a.env, a.nKey, r.addr.service);
    var nKBucketPos := BucketPosition(a.env, a.nKey, false, nKBucket, r.addr.service);
    assert a.tried[(nKBucket, nKBucketPos)] == a.vvTried[nKBucket, nKBucketPos];
    LooseTriedOk(a.env, a.nKey, a.mapInfo, a.tried, a.new_);
    NewsAreUntried(m1, news);
    CellFree(a.env, a.nKey, a.mapInfo, m1, a.tried, news, kept, r);
    if a.vvTried[nKBucket, nKBucketPos] == -1 {
      var info := Loaded(r).(randomPos := |a.vRandom|, inTried := true);
      CreateKeepsRandom(a.mapInfo, a.vRandom, a.nIdCount, info);
      LooseTried(a.env, a.nKey, a.mapInfo, a.tried, a.new_, a.nIdCount, info);
      TriedsAddrs(a.mapInfo, m1, news, kept);
      AddrNext(a.mapInfo, a.mapAddr, news + kept, r, info);
      TriedsLoadedNext(a.mapInfo, m1, |news|, kept, r);
      assert news + kept + [r] == news + (kept + [r]);
      a.vRandom := a.vRandom + [a.nIdCount];
      a.mapInfo := a.mapInfo[a.nIdCount := info];
      a.mapAddr := a.mapAddr[info.Net() := a.nIdCount];
      a.vvTried[nKBucket, nKBucketPos] := a.nIdCount;
      a.tried := a.tried[(nKBucket, nKBucketPos) := a.nIdCount];
      a.nIdCount := a.nIdCount + 1;
      fits := true;
    } else {
      fits := false;
    }
  }

  lemma NewsAreUntried(m: Infos, news: seq<Record>)
    requires NewsLoaded(m, news)
    ensures forall id | 0 <= id < |news| :: id in m && !m[id].inTried
  {
  }

  lemma LooseTriedOk(env: Env, key: nat, m: Infos, tried: Table, new_: Table)
    requires Loose(env, key, m, tried, new_)
    ensures TriedOk(env, key, m, tried)
  {
  }

  // ---- the rows of the new table ----

  /** Only reference counts differ. */
  ghost predicate SameButRefs(m: Infos, m': Infos) {
    m'.Keys == m.Keys && forall id | id in m :: m'[id] == m[id].(refCount := m'[id].refCount)
  }

  ghost predicate Before(c: (int, int), b: int, i: int) { c.0 < b || (c.0 == b && c.1 < i) }

  /** The table filled up to, but not including, cell (b, i). */
  ghost function Filled(t: Table, b: int, i: int): Table {
    map c | c in t :: if Before(c, b, i) then t[c] else -1
  }

  lemma FilledSkip(t: Table, b: int, i: int, j: int)
    requires 0 <= i <= j && forall k | i <= k < j :: (b, k) !in t || t[(b, k)] == -1
    ensures Filled(t, b, j) == Filled(t, b, i)
  {
    forall c | c in t ensures Filled(t, b, j)[c] == Filled(t, b, i)[c] {
      if Before(c, b, j) && !Before(c, b, i) {
        assert c == (b, c.1);
      }
    }
  }

  lemma FilledNext(t: Table, b: int, i: int)
    requires (b, i) in t && t[(b, i)] != -1
    ensures Filled(t, b, i)[(b, i)] == -1
    ensures Filled(t, b, i + 1) == Filled(t, b, i)[(b, i) := t[(b, i)]]
    ensures |Slots(Filled(t, b, i), t[(b, i)])| < |Slots(t, t[(b, i)])|
  {
    var f, id := Filled(t, b, i), t[(b, i)];
    forall c | c in t ensures Filled(t, b, i + 1)[c] == f[(b, i) := id][c] {
      if c.0 == b && c.1 == i {
        assert c == (b, i);
      }
    }
    assert Slots(f, id) <= Slots(t, id) - {(b, i)};
    assert Slots(t, id) - {(b, i)} == Slots(f, id) + (Slots(t, id) - {(b, i)} - Slots(f, id));
    assert (b, i) in Slots(t, id);
  }

  lemma FilledRow(t: Table, b: int, i: int, width: int)
    requires forall c | c in t :: 0 <= c.1 < width
    requires 0 <= i <= width && |RowPrefix(t, b, i)| == |RowPrefix(t, b, width)|
    ensures Filled(t, b + 1, 0) == Filled(t, b, i)
  {
    forall c | c in t ensures Filled(t, b + 1, 0)[c] == Filled(t, b, i)[c] {
      if Before(c, b + 1, 0) && !Before(c, b, i) {
        assert c == (b, c.1);
        NoCell(t, b, i, c.1, width);
      }
    }
  }

  /** One index of bucket `bucket`. */
  method ReadIndex(a: AddrMan, nIndex: int, bucket: int, current: bool, ghost news: seq<Record>)
    requires a.Arrays() && Mirrors(a.vvNew, a.new_) && 0 <= bucket
    requires current ==> bucket < NEW_BUCKET_COUNT
    requires Loose(a.env, a.nKey, a.mapInfo, a.tried, a.new_) && NewsPresent(a.mapInfo, a.nNew, news)
    modifies a`mapInfo, a`new_, a.vvNew
    ensures Mirrors(a.vvNew, a.new_)
    ensures Loose(a.env, a.nKey, a.mapInfo, a.tried, a.new_) && SameButRefs(old(a.mapInfo), a.mapInfo)
    ensures a.new_ == if current then WithIndex(a.env, a.nKey, news, bucket, old(a.new_), nIndex) else old(a.new_)
  {
    hide TriedOk, NewOk, Loose, BucketPosition, Slots;
    if 0 <= nIndex < a.nNew {
      var info := a.mapInfo[nIndex];
      var nUBucketPos := BucketPosition(a.env, a.nKey, true, bucket, info.addr.service);
      LooseCount(a.env, a.nKey, a.mapInfo, a.tried, a.new_, nIndex);
      if current {
        assert a.new_[(bucket, nUBucketPos)] == a.vvNew[bucket, nUBucketPos];
      }
      if current && a.vvNew[bucket, nUBucketPos] == -1 && info.refCount < NEW_BUCKETS_PER_ADDRESS {
        LooseRef(a.env, a.nKey, a.mapInfo, a.tried, a.new_, (bucket, nUBucketPos), nIndex);
        a.mapInfo := a.mapInfo[nIndex := info.(refCount := info.refCount + 1)];
        a.vvNew[bucket, nUBucketPos] := nIndex;
        a.new_ := a.new_[(bucket, nUBucketPos) := nIndex];
      }
    }
  }

  lemma LooseCount(env: Env, key: nat, m: Infos, tried: Table, new_: Table, id: int)
    requires Loose(env, key, m, tried, new_) && id in m && !m[id].inTried
    ensures m[id].refCount == |Slots(new_, id)|
  {
    RefNonNegative(env, key, m, new_, Zero(m), id);
  }

  /** The first entries are the untried ones, with the addresses of the records. */
  ghost predicate NewsPresent(m: Infos, nNew: int, news: seq<Record>) {
    nNew == |news| && forall k | 0 <= k < nNew :: k in m && !m[k].inTried && m[k].addr == news[k].addr
  }

  /** From `base` on, the stream holds the rows of the table. */
  ghost predicate RowsFrom(s: seq<Token>, base: nat, src: Source, n: int, width: int) {
    base <= |s| && s[base..] == Rows(src.table, n, width)
  }

  ghost predicate TableLoadable(env: Env, src: Source, width: int) {
    && (forall c | c in src.table :: 0 <= c.1 < width)
    && (forall c | c in src.table && src.table[c] != -1 :: PlacedRecord(env, src, c))
    && (forall k | 0 <= k < |src.news| :: |Slots(src.table, k)| <= NEW_BUCKETS_PER_ADDRESS)
  }

  lemma RefsTrans(m0: Infos, m1: Infos, m2: Infos, nNew: int, news: seq<Record>)
    requires SameButRefs(m0, m1) && SameButRefs(m1, m2)
    ensures SameButRefs(m0, m2)
    ensures NewsPresent(m1, nNew, news) ==> NewsPresent(m2, nNew, news)
  {
  }

  /** The k-th index of bucket b in the stream names the entry of cell (b, j), which is the next one to fill. */
  ghost predicate FillsNext(env: Env, s: seq<Token>, base: nat, src: Source, width: int, b: int, i: int, k: int,
                            j: int) {
    && (b, j) in src.table
    && var id := src.table[(b, j)];
    && 0 <= id < |src.news|
    && 0 <= base + |Rows(src.table, b, width)| + 1 + k < |s|
    && s[base + |Rows(src.table, b, width)| + 1 + k] == Int(id)
    && BucketPosition(env, src.key, true, b, src.news[id].addr.service) == j
    && (b, j) in Filled(src.table, b, i) && Filled(src.table, b, i)[(b, j)] == -1
    && |Slots(Filled(src.table, b, i), id)| < NEW_BUCKETS_PER_ADDRESS
    && Filled(src.table, b, j + 1) == Filled(src.table, b, i)[(b, j) := id]
    && k + 1 == |RowPrefix(src.table, b, j + 1)| <= |RowPrefix(src.table, b, width)|
  }

  /** In a loadable stream, the index read next fills the next occupied cell. */
  lemma NextIndex(env: Env, s: seq<Token>, base: nat, src: Source, n: int, width: int, b: int, i: int, k: int)
    returns (j: int)
    requires RowsFrom(s, base, src, n, width) && TableLoadable(env, src, width)
    requires 0 <= b < n && 0 <= i <= width && k == |RowPrefix(src.table, b, i)| < |RowPrefix(src.table, b, width)|
    ensures i <= j < width && FillsNext(env, s, base, src, width, b, i, k, j)
  {
    hide Rows, Row, Filled, Slots, BucketPosition, RowPrefix;
    var t := src.table;
    j := NextCell(t, b, i, width);
    RowsAt(t, n, width, b, j);
    FilledSkip(t, b, i, j);
    FilledNext(t, b, j);
    assert PlacedRecord(env, src, (b, j));
    RowStep(t, b, j);
    RowGrows(t, b, j + 1, width);
    assert s[base..][|Rows(t, b, width)| + 1 + k] == s[base + |Rows(t, b, width)| + 1 + k];
    assert (b, j) in Filled(t, b, i) by { FilledDomain(t, b, i); }
  }

  lemma FilledDomain(t: Table, b: int, i: int)
    ensures Filled(t, b, i).Keys == t.Keys
  {
  }

  lemma RowStep(t: Table, b: int, i: int)
    requires 0 <= i && (b, i) in t && t[(b, i)] != -1
    ensures |RowPrefix(t, b, i + 1)| == |RowPrefix(t, b, i)| + 1
  {
  }

  method ReadBucket(a: AddrMan, s: seq<Token>, start: nat, bucket: int, current: bool,
                    ghost good: bool, ghost base: nat, ghost src: Source, ghost news: seq<Record>)
    returns (ok: bool, p: nat)
    requires a.Arrays() && Mirrors(a.vvNew, a.new_) && 0 <= bucket && (current ==> bucket < NEW_BUCKET_COUNT)
    requires Loose(a.env, a.nKey, a.mapInfo, a.tried, a.new_) && NewsPresent(a.mapInfo, a.nNew, news)
    requires good ==> && current && src.key == a.nKey && news == src.news
                      && RowsFrom(s, base, src, a.vvNew.Length0, a.vvNew.Length1)
                      && TableLoadable(a.env, src, a.vvNew.Length1)
                      && start == base + |Rows(src.table, bucket, a.vvNew.Length1)|
                      && a.new_ == Filled(src.table, bucket, 0)
    modifies a`mapInfo, a`new_, a.vvNew
    ensures Mirrors(a.vvNew, a.new_)
    ensures Loose(a.env, a.nKey, a.mapInfo, a.tried, a.new_) && SameButRefs(old(a.mapInfo), a.mapInfo)
    ensures ok <==> RowAt(s, start)
    ensures ok ==> p == start + 1 + RowSize(s, start) && NewsPresent(a.mapInfo, a.nNew, news)
    ensures ok ==> a.new_ == if current
                             then WithRow(a.env, a.nKey, news, bucket, old(a.new_), s, start + 1, RowSize(s, start))
                             else old(a.new_)
    ensures good ==> && ok && p == base + |Rows(src.table, bucket + 1, a.vvNew.Length1)|
                     && a.new_ == Filled(src.table, bucket + 1, 0)
  {
    hide TriedOk, NewOk, Loose, Rows, Row, RowPrefix, Filled, Slots, BucketPosition, SameButRefs, RowsFrom,
      NewsPresent, TableLoadable, Shape, WithRow, WithIndex;
    ghost var width := a.vvNew.Length1;
    p := start;
    SameRefs(a.mapInfo);
    if good {
      RowHead(s, base, src, a.vvNew.Length0, width, bucket);
    }
    if p >= |s| || !s[p].Int? {
      return false, p;
    }
    var nSize := s[p].n;
    p := p + 1;
    var n := 0;
    ghost var i := 0;
    RowStart(a.env, a.nKey, news, bucket, a.new_, s, start + 1);
    while n < nSize
      invariant 0 <= n && Mirrors(a.vvNew, a.new_) && NewsPresent(a.mapInfo, a.nNew, news)
      invariant p == start + 1 + n && n <= RowSize(s, start) && IntsAt(s, start + 1, n)
      invariant a.new_ == if current then WithRow(a.env, a.nKey, news, bucket, old(a.new_), s, start + 1, n)
                          else old(a.new_)
      invariant Loose(a.env, a.nKey, a.mapInfo, a.tried, a.new_) && SameButRefs(old(a.mapInfo), a.mapInfo)
      invariant good ==> && nSize == |RowPrefix(src.table, bucket, width)|
                         && 0 <= i <= width && n == |RowPrefix(src.table, bucket, i)| <= nSize
                         && p == base + |Rows(src.table, bucket, width)| + 1 + n
                         && a.new_ == Filled(src.table, bucket, i)
    {
      ghost var j := 0;
      if good {
        j := NextIndex(a.env, s, base, src, a.vvNew.Length0, width, bucket, i, n);
      }
      if p >= |s| || !s[p].Int? {
        return false, p;
      }
      ghost var m1 := a.mapInfo;
      ReadIndex(a, s[p].n, bucket, current, news);
      RowNext(a.env, a.nKey, news, bucket, old(a.new_), s, start + 1, n);
      if good {
        IndexFills(a.env, s, base, src, width, bucket, i, n, j);
      }
      RefsTrans(old(a.mapInfo), m1, a.mapInfo, a.nNew, news);
      p := p + 1;
      n := n + 1;
      i := j + 1;
    }
    if good {
      LoadableWidth(a.env, src, width);
      FilledRow(src.table, bucket, i, width);
    }
    ok := true;
  }

  lemma LoadableWidth(env: Env, src: Source, width: int)
    requires TableLoadable(env, src, width)
    ensures forall c | c in src.table :: 0 <= c.1 < width
  {
  }

  lemma SameRefs(m: Infos)
    ensures SameButRefs(m, m)
  {
  }

  lemma RowStart(env: Env, key: nat, news: seq<Record>, b: int, t: Table, s: seq<Token>, p: nat)
    requires p <= |s|
    ensures WithRow(env, key, news, b, t, s, p, 0) == t
  {
  }

  lemma RowNext(env: Env, key: nat, news: seq<Record>, b: int, t: Table, s: seq<Token>, p: nat, n: nat)
    requires IntsAt(s, p, n + 1)
    ensures WithRow(env, key, news, b, t, s, p, n + 1) ==
            WithIndex(env, key, news, b, WithRow(env, key, news, b, t, s, p, n), s[p + n].n)
  {
  }

  /** The index that comes next in a loadable stream fills its cell. */
  lemma IndexFills(env: Env, s: seq<Token>, base: nat, src: Source, width: int, b: int, i: int, k: int, j: int)
    requires FillsNext(env, s, base, src, width, b, i, k, j)
    ensures WithIndex(env, src.key, src.news, b, Filled(src.table, b, i),
                      s[base + |Rows(src.table, b, width)| + 1 + k].n)
         == Filled(src.table, b, j + 1)
  {
    hide Rows, Filled, Slots, BucketPosition, RowPrefix;
  }

  lemma RowHead(s: seq<Token>, base: nat, src: Source, n: int, width: int, b: int)
    requires RowsFrom(s, base, src, n, width) && 0 <= b < n && 0 < width
    ensures
      var p := base + |Rows(src.table, b, width)|;
      && p < |s| && s[p] == Int(|RowPrefix(src.table, b, width)|) && |RowPrefix(src.table, b, 0)| == 0
      && |Rows(src.table, b + 1, width)| == |Rows(src.table, b, width)| + 1 + |RowPrefix(src.table, b, width)|
  {
    RowsAt(src.table, n, width, b, 0);
    assert s[base..][|Rows(src.table, b, width)|] == s[base + |Rows(src.table, b, width)|];
  }

  method ReadBuckets(a: AddrMan, s: seq<Token>, start: nat, nUBuckets: int, current: bool,
                     ghost good: bool, ghost src: Source, ghost news: seq<Record>) returns (ok: bool)
    requires a.Arrays() && Mirrors(a.vvNew, a.new_) && (current ==> nUBuckets == NEW_BUCKET_COUNT)
    requires Loose(a.env, a.nKey, a.mapInfo, a.tried, a.new_) && NewsPresent(a.mapInfo, a.nNew, news)
    requires good ==> && current && src.key == a.nKey && news == src.news
                      && RowsFrom(s, start, src, a.vvNew.Length0, a.vvNew.Length1)
                      && TableLoadable(a.env, src, a.vvNew.Length1) && Shape(src.table, NEW_BUCKET_COUNT)
                      && Shape(a.new_, NEW_BUCKET_COUNT) && forall c | c in a.new_ :: a.new_[c] == -1
    modifies a`mapInfo, a`new_, a.vvNew
    ensures Mirrors(a.vvNew, a.new_)
    ensures Loose(a.env, a.nKey, a.mapInfo, a.tried, a.new_) && SameButRefs(old(a.mapInfo), a.mapInfo)
    ensures ok <==> AfterRows(s, start, Max(0, nUBuckets)) >= 0
    ensures ok ==> a.new_ == if current then WithRows(a.env, a.nKey, news, old(a.new_), s, start, NEW_BUCKET_COUNT)
                             else old(a.new_)
    ensures good ==> ok && a.new_ == src.table
  {
    hide TriedOk, NewOk, Loose, Row, RowPrefix, Filled, Slots, SameButRefs, RowsFrom, NewsPresent, TableLoadable,
      AfterRows, WithRows, WithRow, RowAt;
    ghost var width := a.vvNew.Length1;
    SameRefs(a.mapInfo);
    var p := start;
    var bucket := 0;
    RowsStart(a.env, a.nKey, news, a.new_, s, start);
    if good {
      FilledEnds(src.table, a.new_);
    }
    while bucket < nUBuckets
      invariant 0 <= bucket <= Max(0, nUBuckets) && Mirrors(a.vvNew, a.new_) && NewsPresent(a.mapInfo, a.nNew, news)
      invariant p == AfterRows(s, start, bucket)
      invariant a.new_ == if current then WithRows(a.env, a.nKey, news, old(a.new_), s, start, bucket) else old(a.new_)
      invariant Loose(a.env, a.nKey, a.mapInfo, a.tried, a.new_) && SameButRefs(old(a.mapInfo), a.mapInfo)
      invariant good ==> && p == start + |Rows(src.table, bucket, width)| && a.new_ == Filled(src.table, bucket, 0)
    {
      ghost var m1 := a.mapInfo;
      RowsNext(a.env, a.nKey, news, old(a.new_), s, start, bucket);
      ok, p := ReadBucket(a, s, p, bucket, current, good, start, src, news);
      RefsTrans(old(a.mapInfo), m1, a.mapInfo, a.nNew, news);
      if !ok {
        RowsMissing(s, start, bucket + 1, nUBuckets);
        return;
      }
      bucket := bucket + 1;
    }
    ok := true;
  }

  lemma RowsStart(env: Env, key: nat, news: seq<Record>, t: Table, s: seq<Token>, p: nat)
    ensures AfterRows(s, p, 0) == p && WithRows(env, key, news, t, s, p, 0) == t
  {
  }

  lemma RowsNext(env: Env, key: nat, news: seq<Record>, t: Table, s: seq<Token>, p: nat, n: nat)
    requires AfterRows(s, p, n) >= 0
    ensures var q := AfterRows(s, p, n);
            if RowAt(s, q) then
              && AfterRows(s, p, n + 1) == q + 1 + RowSize(s, q)
              && WithRows(env, key, news, t, s, p, n + 1)
                 == WithRow(env, key, news, n, WithRows(env, key, news, t, s, p, n), s, q + 1, RowSize(s, q))
            else AfterRows(s, p, n + 1) == -1
  {
  }

  lemma FilledEnds(t: Table, empty: Table)
    requires Shape(t, NEW_BUCKET_COUNT) && Shape(empty, NEW_BUCKET_COUNT) && forall c | c in empty :: empty[c] == -1
    ensures Filled(t, 0, 0) == empty && Filled(t, NEW_BUCKET_COUNT, 0) == t
  {
    assert forall c :: c in t <==> c in empty;
  }

  // ---- pruning ----

  lemma ZeroAfterDelete(m: Infos, m': Infos, id: int)
    requires SameExcept(m, m', {id}) && id !in m'
    ensures Zero(m') == Zero(m) - {id}
  {
    forall j ensures j in Zero(m') <==> j in Zero(m) - {id} {
      if j != id {
        assert (j in m <==> j in m') && (j in m ==> m[j].Core() == m'[j].Core());
      }
    }
  }

  method Prune(a: AddrMan)
    requires a.Tables(Zero(a.mapInfo), 0)
    modifies a`mapInfo, a`mapAddr, a`vRandom, a`nNew
    ensures a.Tables({}, 0)
    ensures AddrOk(old(a.mapInfo), old(a.mapAddr)) ==> AddrOk(a.mapInfo, a.mapAddr)
    ensures Zero(old(a.mapInfo)) == {} ==> a.mapInfo == old(a.mapInfo) && a.nNew == old(a.nNew)
    ensures SameExcept(old(a.mapInfo), a.mapInfo, Zero(old(a.mapInfo)))
            && forall j | j in Zero(old(a.mapInfo)) :: j !in a.mapInfo
  {
    hide TriedOk, NewOk, CountOk, AddrOk, SameExcept, RandomOk;
    ZeroBounds(a.mapInfo, a.vRandom, a.nIdCount);
    SameExceptAny(a.mapInfo, Zero(a.mapInfo));
    for id := 0 to a.nIdCount
      invariant a.Tables(Zero(a.mapInfo), 0)
      invariant forall j | j in Zero(a.mapInfo) :: id <= j < a.nIdCount
      invariant AddrOk(old(a.mapInfo), old(a.mapAddr)) ==> AddrOk(a.mapInfo, a.mapAddr)
      invariant Zero(old(a.mapInfo)) == {} ==> a.mapInfo == old(a.mapInfo) && a.nNew == old(a.nNew)
      invariant Zero(a.mapInfo) <= Zero(old(a.mapInfo)) && SameExcept(old(a.mapInfo), a.mapInfo, Zero(old(a.mapInfo)))
      invariant forall j | j in Zero(old(a.mapInfo)) && j !in Zero(a.mapInfo) :: j !in a.mapInfo
    {
      if id in a.mapInfo && !a.mapInfo[id].inTried && a.mapInfo[id].refCount == 0 {
        ghost var m := a.mapInfo;
        assert id in Zero(m);
        a.Delete(id, Zero(m), 0);
        ZeroAfterDelete(m, a.mapInfo, id);
        SameExceptMore(old(a.mapInfo), m, a.mapInfo, Zero(old(a.mapInfo)), id);
      }
    }
    if Zero(a.mapInfo) != {} {
      ghost var id := Element(Zero(a.mapInfo));
    }
  }

  lemma SameExceptAny(m: Infos, changed: set<int>)
    ensures SameExcept(m, m, changed)
  {
  }

  lemma SameExceptMore(m0: Infos, m1: Infos, m2: Infos, changed: set<int>, id: int)
    requires SameExcept(m0, m1, changed) && SameExcept(m1, m2, {id}) && id in changed
    ensures SameExcept(m0, m2, changed) && forall j | j !in m1 && j != id :: j !in m2
  {
  }

  lemma ZeroBounds(m: Infos, random: seq<int>, idCount: int)
    requires RandomOk(m, random, idCount)
    ensures 0 <= idCount && forall j | j in Zero(m) :: 0 <= j < idCount
  {
  }

  // ---- the whole ----

  /** The state a stream describes: its records at consecutive ids, and its table. */
  ghost predicate Restored(a: AddrMan, src: Source)
    reads a
  {
    && a.nKey == src.key && a.nNew == |src.news| && a.nTried == |src.trieds| && a.new_ == src.table
    && (forall id :: id in a.mapInfo <==> 0 <= id < |src.news| + |src.trieds|)
    && (forall k | 0 <= k < |src.news| ::
          k in a.mapInfo && AsRead(a.mapInfo[k], src.news[k]) && !a.mapInfo[k].inTried)
    && (forall k | 0 <= k < |src.trieds| ::
          && |src.news| + k in a.mapInfo
          && AsRead(a.mapInfo[|src.news| + k], src.trieds[k]) && a.mapInfo[|src.news| + k].inTried)
  }

  lemma {:induction false} IntervalSize(s: set<int>, lo: int, hi: int)
    requires lo <= hi && forall i :: i in s <==> lo <= i < hi
    ensures |s| == hi - lo
    decreases hi - lo
  {
    if lo == hi {
      if s != {} {
        var i := Element(s);
      }
    } else {
      IntervalSize(s - {hi - 1}, lo, hi - 1);
    }
  }

  /** The tried entries are the ones after the new ones. */
  lemma LoadedTried(m: Infos, m2: Infos, m1: Infos, news: seq<Record>, kept: seq<Record>)
    requires NewsLoaded(m1, news) && TriedsLoaded(m2, m1, |news|, kept) && SameButRefs(m2, m)
    ensures forall id :: id in m <==> 0 <= id < |news| + |kept|
    ensures forall id | id in m :: m[id].inTried <==> |news| <= id
  {
    var f := |news|;
    forall id | id in m ensures m[id].inTried <==> f <= id {
      assert id in m2 && m[id].inTried == m2[id].inTried;
      if id < f {
        assert m2[id] == m1[id] && id in m1;
      } else {
        var k := id - f;
        assert m2[f + k] == Loaded(kept[k]).(inTried := true, randomPos := f + k);
      }
    }
  }

  lemma LoadedCounts(m: Infos, m2: Infos, m1: Infos, news: seq<Record>, kept: seq<Record>)
    requires NewsLoaded(m1, news) && TriedsLoaded(m2, m1, |news|, kept) && SameButRefs(m2, m)
    ensures |NonTried(m)| == |news| && |Tried(m)| == |kept|
  {
    hide NewsLoaded, TriedsLoaded, SameButRefs;
    LoadedTried(m, m2, m1, news, kept);
    IntervalSize(NonTried(m), 0, |news|);
    IntervalSize(Tried(m), |news|, |news| + |kept|);
  }

  /** What loading leaves behind when nothing was dropped. */
  lemma LoadedRestored(a: AddrMan, m1: Infos, m2: Infos, src: Source)
    requires NewsLoaded(m1, src.news) && TriedsLoaded(m2, m1, |src.news|, src.trieds) && SameButRefs(m2, a.mapInfo)
    requires a.nKey == src.key && a.nNew == |src.news| && a.nTried == |src.trieds| && a.new_ == src.table
    ensures Restored(a, src)
  {
    var m, f := a.mapInfo, |src.news|;
    forall k | 0 <= k < f ensures k in m && AsRead(m[k], src.news[k]) && !m[k].inTried {
      assert m2[k] == m1[k] && k in m1;
    }
    forall k | 0 <= k < |src.trieds| ensures f + k in m && AsRead(m[f + k], src.trieds[k]) && m[f + k].inTried {
      assert f + k in m2;
    }
  }

  lemma LoadableNews(env: Env, m1: Infos, m2: Infos, tried: Table, new_: Table, src: Source, width: int)
    requires Loadable(env, src) && width == BUCKET_SIZE
    requires NewsLoaded(m1, src.news) && TriedsLoaded(m2, m1, |src.news|, src.trieds)
    ensures NewsPresent(m2, |src.news|, src.news) && TableLoadable(env, src, width)
  {
    forall k | 0 <= k < |src.news| ensures k in m2 && !m2[k].inTried && m2[k].addr == src.news[k].addr {
      assert m2[k] == m1[k] && k in m1;
    }
  }

  /** All references were restored, so nothing is pruned. */
  lemma NothingToPrune(env: Env, key: nat, m: Infos, tried: Table, src: Source)
    requires Loadable(env, src) && Loose(env, key, m, tried, src.table)
    requires forall id | id in m && !m[id].inTried :: 0 <= id < |src.news|
    ensures Zero(m) == {}
  {
    forall id ensures id !in Zero(m) {
      if id in m && !m[id].inTried {
        RefNonNegative(env, key, m, src.table, Zero(m), id);
      }
    }
    if Zero(m) != {} {
      var id := Element(Zero(m));
    }
  }

  /** Where the parts of an encoded stream start. */
  lemma EncodedAt(s: seq<Token>, src: Source, n: int, width: int)
    requires s == Encode(src, n, width)
    ensures |s| >= 6 && s[..6] == Header(src)
    ensures RecordsAt(s, 6, |src.news|) && RecordsFrom(s, 6, |src.news|) == src.news
    ensures var q := 6 + |src.news|; RecordsAt(s, q, |src.trieds|) && RecordsFrom(s, q, |src.trieds|) == src.trieds
    ensures RowsFrom(s, 6 + |src.news| + |src.trieds|, src, n, width)
  {
    hide Rows, FlipBit30;
    var x, y := RecTokens(src.news), RecTokens(src.trieds);
    var f, g := |src.news|, |src.trieds|;
    forall k | 0 <= k < f ensures s[6 + k] == Rec(src.news[k]) {
      assert s[6 + k] == x[k];
    }
    forall k | 0 <= k < g ensures s[6 + f + k] == Rec(src.trieds[k]) {
      assert s[6 + f + k] == y[k];
    }
    forall k | 6 <= k < 6 + f ensures s[k].Rec? {
      assert s[k] == s[6 + (k - 6)];
    }
    forall k | 6 + f <= k < 6 + f + g ensures s[k].Rec? {
      assert s[k] == s[6 + f + (k - 6 - f)];
    }
  }

  lemma AnyKey(env: Env, key: nat, key': nat, tried: Table, new_: Table)
    requires TriedOk(env, key, map[], tried) && NewOk(env, key, map[], new_, {})
    ensures Loose(env, key', map[], tried, new_)
  {
    assert Zero(map[]) == {};
  }

  /** The header fields have their types, the key size fits and neither count is excessive. */
  ghost predicate HeaderOk(s: seq<Token>) {
    && |s| >= 6
    && s[0].Byte? && s[1].Byte? && s[1].b == 32 && s[2].Key? && s[3].Int? && s[4].Int? && s[5].Int?
    && 0 <= s[3].n <= NEW_BUCKET_COUNT * BUCKET_SIZE && 0 <= s[4].n <= TRIED_BUCKET_COUNT * BUCKET_SIZE
  }

  /** Counts below zero, which no writer produces and the source does not reject, are not modelled. */
  method ReadHeader(a: AddrMan, s: seq<Token>) returns (ok: bool, nVersion: int, nUBuckets: int)
    modifies a`nKey, a`nNew, a`nTried
    ensures ok <==> HeaderOk(s)
    ensures ok ==> a.nKey == s[2].k && a.nNew == s[3].n && a.nTried == s[4].n
    ensures ok ==> nVersion == s[0].b && nUBuckets == if nVersion != 0 then FlipBit30(s[5].n) else s[5].n
  {
    nVersion, nUBuckets := 0, 0;
    if |s| < 6 || !s[0].Byte? || !s[1].Byte? || s[1].b != 32 || !s[2].Key? || !s[3].Int? || !s[4].Int? || !s[5].Int? {
      return false, 0, 0;
    }
    nVersion := s[0].b;
    a.nKey := s[2].k;
    a.nNew := s[3].n;
    a.nTried := s[4].n;
    nUBuckets := s[5].n;
    if nVersion != 0 {
      nUBuckets := FlipBit30(nUBuckets);
    }
    if a.nNew > NEW_BUCKET_COUNT * BUCKET_SIZE || a.nTried > TRIED_BUCKET_COUNT * BUCKET_SIZE || a.nNew < 0
       || a.nTried < 0 {
      return false, nVersion, nUBuckets;
    }
    ok := true;
  }

  lemma HeaderReads(env: Env, s: seq<Token>, src: Source)
    requires |s| >= 6 && s[..6] == Header(src) && Loadable(env, src)
    ensures HeaderOk(s) && s[0].b == 1 && s[2].k == src.key && s[3].n == |src.news| && s[4].n == |src.trieds|
    ensures FlipBit30(s[5].n) == NEW_BUCKET_COUNT
  {
    FlipTwice(NEW_BUCKET_COUNT);
    forall k | 0 <= k < 6 ensures s[k] == Header(src)[k] {
      assert s[k] == s[..6][k];
    }
  }

  /** The two lists of entries. */
  method ReadEntries(a: AddrMan, s: seq<Token>, current: bool)
    returns (ok: bool, ghost m1: Infos, ghost news: seq<Record>, ghost kept: seq<Record>)
    requires a.Arrays() && Mirrors(a.vvTried, a.tried) && Mirrors(a.vvNew, a.new_) && HeaderOk(s)
    requires a.mapInfo == map[] && a.mapAddr == map[] && a.vRandom == [] && a.nNew == s[3].n && a.nTried == s[4].n
    requires Loose(a.env, a.nKey, a.mapInfo, a.tried, a.new_) && forall c | c in a.new_ :: a.new_[c] == -1
    modifies a`mapInfo, a`mapAddr, a`vRandom, a`nIdCount, a`nTried, a`tried, a`new_, a.vvNew, a.vvTried
    ensures ok <==> RecordsAt(s, 6, s[3].n) && RecordsAt(s, 6 + s[3].n, s[4].n)
    ensures ok ==> && news == RecordsFrom(s, 6, s[3].n) && NewsLoaded(m1, news)
                   && TriedsLoaded(a.mapInfo, m1, |news|, kept)
                   && a.nTried == |kept| && a.nNew == |news|
                   && Mirrors(a.vvTried, a.tried) && Mirrors(a.vvNew, a.new_)
                   && Loose(a.env, a.nKey, a.mapInfo, a.tried, a.new_) && RandomOk(a.mapInfo, a.vRandom, a.nIdCount)
                   && (DistinctNets(news + kept) ==> AddrOk(a.mapInfo, a.mapAddr))
    ensures ok ==> kept == Fitting(a.env, a.nKey, RecordsFrom(s, 6 + s[3].n, s[4].n))
    ensures ok ==> a.new_ == if current then old(a.new_) else WithSources(a.env, a.nKey, news, old(a.new_))
  {
    hide WithSources, RandomOk, AddrOk, TriedOk, NewOk, Loose, NewsLoaded, TriedsLoaded, DistinctNets, Fitting,
      Mirrors, Loaded;
    m1, news, kept := map[], [], [];
    ok := ReadNew(a, s, 6, current);
    if !ok {
      return;
    }
    m1 := a.mapInfo;
    news := RecordsFrom(s, 6, a.nNew);
    a.nIdCount := a.nNew;
    var nLost;
    ok, nLost, kept := ReadTried(a, s, 6 + a.nNew, a.nTried, news);
    a.nTried := a.nTried - nLost;
  }

  /** The rows, and the removal of entries that no row mentioned. */
  method ReadPlaces(a: AddrMan, s: seq<Token>, start: nat, nUBuckets: int, current: bool,
                    ghost good: bool, ghost src: Source, ghost m1: Infos, ghost news: seq<Record>,
                    ghost kept: seq<Record>)
    returns (ok: bool)
    requires a.Arrays() && Mirrors(a.vvTried, a.tried) && Mirrors(a.vvNew, a.new_)
             && (current ==> nUBuckets == NEW_BUCKET_COUNT)
    requires Loose(a.env, a.nKey, a.mapInfo, a.tried, a.new_) && RandomOk(a.mapInfo, a.vRandom, a.nIdCount)
    requires NewsLoaded(m1, news) && TriedsLoaded(a.mapInfo, m1, |news|, kept) && a.nNew == |news| && a.nTried == |kept|
    requires good ==> && current && src.key == a.nKey && news == src.news && kept == src.trieds && Loadable(a.env, src)
                      && RowsFrom(s, start, src, a.vvNew.Length0, a.vvNew.Length1)
                      && forall c | c in a.new_ :: a.new_[c] == -1
    modifies a`mapInfo, a`mapAddr, a`vRandom, a`nNew, a`new_, a.vvNew
    ensures ok <==> AfterRows(s, start, Max(0, nUBuckets)) >= 0
    ensures ok ==> a.new_ == if current then WithRows(a.env, a.nKey, news, old(a.new_), s, start, NEW_BUCKET_COUNT)
                             else old(a.new_)
    ensures ok ==> a.Tables({}, 0) && (AddrOk(old(a.mapInfo), old(a.mapAddr)) ==> a.Inv({}, 0))
                   && Survived(a, news, kept)
    ensures good ==> ok && Restored(a, src)
  {
    hide RandomOk, AddrOk, TriedOk, NewOk, Loose, NewsLoaded, TriedsLoaded, Restored, SameButRefs, NewsPresent,
      RowsFrom, TableLoadable, Loadable, Mirrors, Tried, NonTried, AfterRows, WithRows, Survived, SameExcept;
    ghost var m2 := a.mapInfo;
    NewsUntried(m1, m2, news, kept);
    if good {
      LoadableNews(a.env, m1, m2, a.tried, a.new_, src, a.vvNew.Length1);
      Shapes(a.env, a.nKey, m2, a.tried, a.new_, src);
    }
    ok := ReadBuckets(a, s, start, nUBuckets, current, good, src, news);
    if !ok {
      return;
    }
    RefsKeepIndex(m2, a.mapInfo, a.mapAddr, a.vRandom, a.nIdCount);
    LoadedCounts(a.mapInfo, m2, m1, news, kept);
    LooseParts(a.env, a.nKey, a.mapInfo, a.tried, a.new_);
    if good {
      LoadedTried(a.mapInfo, m2, m1, news, kept);
      NothingToPrune(a.env, a.nKey, a.mapInfo, a.tried, src);
      LoadedRestored(a, m1, m2, src);
    }
    ghost var m3 := a.mapInfo;
    Prune(a);
    PruneSurvives(a, m1, m2, m3, news, kept);
    if good {
      LoadedRestored(a, m1, m2, src);
    }
  }

  lemma LooseParts(env: Env, key: nat, m: Infos, tried: Table, new_: Table)
    requires Loose(env, key, m, tried, new_)
    ensures TriedOk(env, key, m, tried) && NewOk(env, key, m, new_, Zero(m))
  {
  }

  lemma RefsKeepIndex(m: Infos, m': Infos, byAddr: map<NetAddr, int>, random: seq<int>, idCount: int)
    requires SameButRefs(m, m')
    ensures RandomOk(m, random, idCount) ==> RandomOk(m', random, idCount)
    ensures AddrOk(m, byAddr) ==> AddrOk(m', byAddr)
  {
    forall id | id in m ensures m'[id].randomPos == m[id].randomPos && m'[id].Net() == m[id].Net() {
      assert m'[id] == m[id].(refCount := m'[id].refCount);
    }
    RecountKeepsIndex(m, m', byAddr, random, idCount);
  }

  lemma NewsUntried(m1: Infos, m2: Infos, news: seq<Record>, kept: seq<Record>)
    requires NewsLoaded(m1, news) && TriedsLoaded(m2, m1, |news|, kept)
    ensures NewsPresent(m2, |news|, news)
  {
    forall id | 0 <= id < |news| ensures id in m2 && !m2[id].inTried && m2[id].addr == news[id].addr {
      assert m2[id] == m1[id] && id in m1;
    }
  }

  /** The entries left: every tried record kept, and the untried ones that have a cell, each with its record's data. */
  ghost predicate Survived(a: AddrMan, news: seq<Record>, kept: seq<Record>)
    reads a
  {
    && (forall id ::
          id in a.mapInfo <==> (0 <= id < |news| && Slots(a.new_, id) != {}) || |news| <= id < |news| + |kept|)
    && (forall id | id in a.mapInfo ::
          AsRead(a.mapInfo[id], (news + kept)[id]) && (a.mapInfo[id].inTried <==> id >= |news|))
  }

  lemma PruneSurvives(a: AddrMan, m1: Infos, m2: Infos, m3: Infos, news: seq<Record>, kept: seq<Record>)
    requires NewsLoaded(m1, news) && TriedsLoaded(m2, m1, |news|, kept) && SameButRefs(m2, m3)
    requires SameExcept(m3, a.mapInfo, Zero(m3)) && (forall j | j in Zero(m3) :: j !in a.mapInfo)
    requires NewOk(a.env, a.nKey, a.mapInfo, a.new_, {}) && NewOk(a.env, a.nKey, m3, a.new_, Zero(m3))
    ensures Survived(a, news, kept)
  {
    hide NewOk, TriedsLoaded, NewsLoaded;
    LoadedTried(m3, m2, m1, news, kept);
    forall id
      ensures id in a.mapInfo <==> (0 <= id < |news| && Slots(a.new_, id) != {}) || |news| <= id < |news| + |kept|
    {
      SurvivesAt(a.env, a.nKey, m3, a.mapInfo, a.new_, id);
    }
    forall id | id in a.mapInfo
      ensures AsRead(a.mapInfo[id], (news + kept)[id]) && (a.mapInfo[id].inTried <==> id >= |news|)
    {
      SurvivesAt(a.env, a.nKey, m3, a.mapInfo, a.new_, id);
      LoadedRecord(m3, m2, m1, news, kept, id);
    }
  }

  lemma SurvivesAt(env: Env, key: nat, m: Infos, m': Infos, new_: Table, id: int)
    requires SameExcept(m, m', Zero(m)) && (forall j | j in Zero(m) :: j !in m') && NewOk(env, key, m, new_, Zero(m))
    ensures id in m' <==> id in m && (m[id].inTried || Slots(new_, id) != {})
    ensures id in m' ==> id in m && m'[id].Core() == m[id].Core()
  {
    if id in m && !m[id].inTried {
      RefNonNegative(env, key, m, new_, Zero(m), id);
    }
  }

  lemma LoadedRecord(m: Infos, m2: Infos, m1: Infos, news: seq<Record>, kept: seq<Record>, id: int)
    requires NewsLoaded(m1, news) && TriedsLoaded(m2, m1, |news|, kept) && SameButRefs(m2, m) && id in m
    ensures 0 <= id < |news| + |kept| && AsRead(m[id], (news + kept)[id])
  {
    assert id in m2;
    if id < |news| {
      assert m2[id] == m1[id] && id in m1;
    } else {
      assert |news| + (id - |news|) in m2;
    }
  }

  lemma Shapes(env: Env, key: nat, m: Infos, tried: Table, new_: Table, src: Source)
    requires Loose(env, key, m, tried, new_) && Loadable(env, src)
    ensures Shape(new_, NEW_BUCKET_COUNT) && Shape(src.table, NEW_BUCKET_COUNT)
  {
  }

  // ---- what a stream means ----

  ghost predicate Accepted(s: seq<Token>) {
    && HeaderOk(s) && RecordsAt(s, 6, s[3].n) && RecordsAt(s, 6 + s[3].n, s[4].n)
    && AfterRows(s, RowsStartAt(s), RowCount(s)) >= 0
  }

  ghost function News(s: seq<Token>): seq<Record>
    requires HeaderOk(s) && RecordsAt(s, 6, s[3].n)
  {
    RecordsFrom(s, 6, s[3].n)
  }

  ghost function Trieds(s: seq<Token>): seq<Record>
    requires HeaderOk(s) && RecordsAt(s, 6 + s[3].n, s[4].n)
  {
    RecordsFrom(s, 6 + s[3].n, s[4].n)
  }

  ghost function RowsStartAt(s: seq<Token>): nat
    requires HeaderOk(s)
  {
    6 + s[3].n + s[4].n
  }

  ghost function Buckets(s: seq<Token>): int
    requires HeaderOk(s)
  {
    if s[0].b != 0 then FlipBit30(s[5].n) else s[5].n
  }

  ghost function RowCount(s: seq<Token>): nat
    requires HeaderOk(s)
  {
    Max(0, Buckets(s))
  }

  /** The rows can be used: the version is known and the number of buckets is this program's. */
  ghost predicate IsCurrent(s: seq<Token>)
    requires HeaderOk(s)
  {
    s[0].b == 1 && Buckets(s) == NEW_BUCKET_COUNT
  }

  /**
   Reads a manager from a stream: which streams are accepted, and all that is then in the manager.  `read` are the
   untried records and the tried ones that found their cell free.  Pending collisions are not touched.
   */
  method Unserialize(a: AddrMan, s: seq<Token>, randomKey: nat, ghost src: Source)
    returns (ok: bool, ghost read: seq<Record>)
    requires a.Arrays()
    modifies a`nKey, a`nIdCount, a`mapInfo, a`mapAddr, a`vRandom, a`nTried, a`nNew, a`nLastGood, a`tried, a`new_,
             a.vvNew, a.vvTried
    ensures ok <==> Accepted(s)
    ensures ok ==> && a.nKey == s[2].k && read == News(s) + Fitting(a.env, a.nKey, Trieds(s))
                   && a.new_ ==
                      TableRead(a.env, a.nKey, News(s), IsCurrent(s), Blank(NEW_BUCKET_COUNT), s, RowsStartAt(s),
                                RowCount(s))
                   && Survived(a, News(s), Fitting(a.env, a.nKey, Trieds(s)))
    ensures ok ==> a.Tables({}, 0) && (DistinctNets(read) ==> a.Inv({}, 0))
    ensures s == Encode(src, a.vvNew.Length0, a.vvNew.Length1) && Loadable(a.env, src) ==>
              ok && a.Inv({}, 0) && Restored(a, src)
  {
    hide RandomOk, AddrOk, CountOk, TriedOk, NewOk, Loose, NewsLoaded, TriedsLoaded, DistinctNets, DistinctSlots,
      Fitting, Restored, RowsFrom, RecordsAt, Encode, Loadable, Mirrors, FlipBit30, HeaderOk, AfterRows, WithRows,
      WithSources, Survived;
    read := [];
    ghost var good := s == Encode(src, a.vvNew.Length0, a.vvNew.Length1) && Loadable(a.env, src);
    if good {
      EncodedAt(s, src, a.vvNew.Length0, a.vvNew.Length1);
      HeaderReads(a.env, s, src);
      LoadableDistinct(a.env, src);
      AllFit(a.env, src.key, src.trieds);
    }
    Clear(a, randomKey);
    var nVersion, nUBuckets;
    ghost var oldKey := a.nKey;
    ok, nVersion, nUBuckets := ReadHeader(a, s);
    if !ok {
      return;
    }
    HeaderShape(s);
    var current := nVersion == 1 && nUBuckets == NEW_BUCKET_COUNT;
    AnyKey(a.env, oldKey, a.nKey, a.tried, a.new_);
    ghost var m1, news, kept;
    WipedIsBlank(a.env, a.nKey, a.mapInfo, a.tried, a.new_);
    ok, m1, news, kept := ReadEntries(a, s, current);
    if !ok {
      return;
    }
    ok := ReadPlaces(a, s, 6 + s[3].n + s[4].n, nUBuckets, current, good, src, m1, news, kept);
    read := news + kept;
  }

  lemma WipedIsBlank(env: Env, key: nat, m: Infos, tried: Table, t: Table)
    requires Loose(env, key, m, tried, t) && forall c | c in t :: t[c] == -1
    ensures t == Blank(NEW_BUCKET_COUNT)
  {
    assert forall c :: c in t <==> c in Blank(NEW_BUCKET_COUNT);
  }

  lemma HeaderShape(s: seq<Token>)
    requires HeaderOk(s)
    ensures |s| >= 6 && s[3].Int? && s[4].Int? && s[3].n >= 0 && s[4].n >= 0
  {
  }

  lemma LoadableDistinct(env: Env, src: Source)
    requires Loadable(env, src)
    ensures DistinctNets(src.news + src.trieds) && DistinctSlots(env, src.key, src.trieds)
  {
  }
}
