/** CAddrMan::Check_ (src/addrman.cpp:397), and that it accepts every state the operations keep. */
module AddrCheck {
  import opened Collections
  import opened AddrTypes
  import opened AddrInvariant
  import opened AddrManager

  /** The tests on one entry.  `mapAddr[info]` yields 0 for an address that is missing. */
  ghost predicate EntryOk(info: AddrInfo, id: int, byAddr: map<NetAddr, int>, random: seq<int>) {
    && (if info.inTried then info.lastSuccess != 0 && info.refCount == 0
        else 1 <= info.refCount <= NEW_BUCKETS_PER_ADDRESS)
    && (if info.Net() in byAddr then byAddr[info.Net()] else 0) == id
    && 0 <= info.randomPos < |random| && random[info.randomPos] == id
    && info.lastTry >= 0 && info.lastSuccess >= 0
  }

  ghost predicate EntriesOk(m: Infos, byAddr: map<NetAddr, int>, random: seq<int>) {
    forall id | id in m :: EntryOk(m[id], id, byAddr, random)
  }

  ghost predicate TriedTableOk(env: Env, key: nat, m: Infos, t: Table) {
    && (forall c | c in t && t[c] != -1 :: t[c] in Tried(m) && TriedSlot(env, key, m[t[c]].addr.service) == c)
    && (forall id | id in Tried(m) :: id != -1 && Slots(t, id) != {})
  }

  ghost predicate NewTableOk(env: Env, key: nat, m: Infos, t: Table) {
    && (forall c | c in t && t[c] != -1 ::
          t[c] in NonTried(m) && BucketPosition(env, key, true, c.0, m[t[c]].addr.service) == c.1)
    && (forall id | id in NonTried(m) :: id != -1 && |Slots(t, id)| == m[id].refCount)
  }

  ghost predicate AllMapped(m: Infos, byAddr: map<NetAddr, int>) {
    forall id | id in m :: m[id].Net() in byAddr
  }

  /** All that Check_ tests. */
  ghost predicate Passes(a: AddrMan)
    reads a
  {
    && |a.vRandom| == a.nTried + a.nNew
    && EntriesOk(a.mapInfo, a.mapAddr, a.vRandom)
    && |Tried(a.mapInfo)| == a.nTried && |NonTried(a.mapInfo)| == a.nNew
    && TriedTableOk(a.env, a.nKey, a.mapInfo, a.tried)
    && NewTableOk(a.env, a.nKey, a.mapInfo, a.new_)
    && a.nKey != 0
  }

  /** What a code says of one entry. */
  ghost predicate EntryFault(err: int, info: AddrInfo, id: int, byAddr: map<NetAddr, int>, random: seq<int>) {
    || (err == -1 && info.inTried && info.lastSuccess == 0)
    || (err == -2 && info.inTried && info.refCount != 0)
    || (err == -3 && !info.inTried && (info.refCount < 0 || info.refCount > 8))
    || (err == -4 && !info.inTried && info.refCount == 0)
    || (err == -5 && (info.Net() in byAddr ==> byAddr[info.Net()] != id))
    || (err == -6 && info.lastTry < 0)
    || (err == -8 && info.lastSuccess < 0)
    || (err == -14 && !ListedAt(info, id, random))
  }

  ghost predicate EntriesFault(err: int, m: Infos, byAddr: map<NetAddr, int>, random: seq<int>) {
    exists id | id in m :: EntryFault(err, m[id], id, byAddr, random)
  }

  /** What a code says of a cell of the tried table: no or a second place for a tried entry, or the wrong one. */
  ghost predicate TriedFault(err: int, env: Env, key: nat, m: Infos, t: Table, c: (int, int)) {
    && c in t && t[c] != -1
    && (|| (err == -11 && (t[c] !in Tried(m) || exists d | d in t && d != c :: t[d] == t[c]))
        || (err == -17 && t[c] in Tried(m) && TriedBucket(env, key, m[t[c]].addr.service) != c.0)
        || (err == -18 && t[c] in Tried(m) && BucketPosition(env, key, false, c.0, m[t[c]].addr.service) != c.1))
  }

  ghost predicate NewFault(err: int, env: Env, key: nat, m: Infos, t: Table, c: (int, int)) {
    && c in t && t[c] != -1
    && (|| (err == -12 && (t[c] !in NonTried(m) || |Slots(t, t[c])| > m[t[c]].refCount))
        || (err == -19 && t[c] in NonTried(m) && BucketPosition(env, key, true, c.0, m[t[c]].addr.service) != c.1))
  }

  /** Every code names something that is wrong. */
  ghost predicate Fault(err: int, a: AddrMan)
    reads a
  {
    || (err == -7 && |a.vRandom| != a.nTried + a.nNew)
    || EntriesFault(err, a.mapInfo, a.mapAddr, a.vRandom)
    || (err == -9 && |Tried(a.mapInfo)| != a.nTried)
    || (err == -10 && |NonTried(a.mapInfo)| != a.nNew)
    || (exists c :: TriedFault(err, a.env, a.nKey, a.mapInfo, a.tried, c))
    || (err == -13 && exists id | id in Tried(a.mapInfo) :: id == -1 || Slots(a.tried, id) == {})
    || (exists c :: NewFault(err, a.env, a.nKey, a.mapInfo, a.new_, c))
    || (err == -15 && exists id | id in NonTried(a.mapInfo) :: id == -1 || |Slots(a.new_, id)| < a.mapInfo[id].refCount)
    || (err == -16 && a.nKey == 0)
  }

  /** The invariant of the operations is at least as strong as the repository's own check. */
  lemma InvariantPasses(a: AddrMan)
    requires a.Inv({}, 0) && TimesOk(a.mapInfo) && a.nKey != 0
    ensures Passes(a)
  {
    hide RandomOk, AddrOk, TriedOk, NewOk, TimesOk;
    IndexSize(a.mapInfo, a.mapAddr, a.vRandom, a.nIdCount);
    EntriesPass(a.env, a.nKey, a.mapInfo, a.mapAddr, a.vRandom, a.nIdCount, a.tried, a.new_);
    TablesPass(a.env, a.nKey, a.mapInfo, a.tried, a.new_);
    assert Tried(a.mapInfo) + NonTried(a.mapInfo) == a.mapInfo.Keys;
    assert Tried(a.mapInfo) * NonTried(a.mapInfo) == {};
  }

  /** What Check_ cannot see: stray addresses in mapAddr, and ids outside the range given out. */
  ghost predicate Unstrayed(a: AddrMan)
    reads a
  {
    && (forall n | n in a.mapAddr :: a.mapAddr[n] in a.mapInfo && a.mapInfo[a.mapAddr[n]].Net() == n)
    && 0 <= a.nIdCount && (forall id | id in a.mapInfo :: 0 <= id < a.nIdCount && a.mapInfo[id].Net() in a.mapAddr)
  }

  /** But for what it cannot see, what Check_ tests is exactly the invariant, with sane times and a key. */
  lemma PassesIsInvariant(a: AddrMan)
    requires Reflected(a) && Unstrayed(a)
    ensures Passes(a) <==> a.Inv({}, 0) && TimesOk(a.mapInfo) && a.nKey != 0
  {
    hide RandomOk, AddrOk, TriedOk, NewOk, TimesOk, Passes, Mirrors, CountOk, Shape, Unstrayed;
    if Passes(a) {
      PassesIndexes(a);
      PassesTables(a);
    }
    if a.Inv({}, 0) && TimesOk(a.mapInfo) && a.nKey != 0 {
      InvariantPasses(a);
    }
  }

  lemma PassesIndexes(a: AddrMan)
    requires Unstrayed(a) && Passes(a)
    ensures RandomOk(a.mapInfo, a.vRandom, a.nIdCount) && AddrOk(a.mapInfo, a.mapAddr)
    ensures TimesOk(a.mapInfo) && CountOk(a.mapInfo, a.nTried, a.nNew, 0) && a.nKey != 0
  {
    hide TriedTableOk, NewTableOk, Tried, NonTried;
    var m, random := a.mapInfo, a.vRandom;
    forall id | id in m ensures ListedAt(m[id], id, random) && MappedBy(m[id], id, a.mapAddr) && TimeOk(m[id]) {
      assert EntryOk(m[id], id, a.mapAddr, random);
    }
    TriedOrNot(m);
    EveryPlaceTaken(m, random);
  }

  lemma TriedOrNot(m: Infos)
    ensures |m.Keys| == |Tried(m)| + |NonTried(m)|
  {
    assert Tried(m) + NonTried(m) == m.Keys;
    assert Tried(m) * NonTried(m) == {};
  }

  ghost function Below(n: nat): (s: set<int>)
    ensures |s| == n && forall k :: k in s <==> 0 <= k < n
  {
    if n == 0 then {} else Below(n - 1) + {n - 1}
  }

  /** A list as long as the map in which every id stands at its place has nothing else in it. */
  lemma EveryPlaceTaken(m: Infos, random: seq<int>)
    requires |random| == |m.Keys| && forall id | id in m :: ListedAt(m[id], id, random)
    ensures forall k | 0 <= k < |random| :: random[k] in m && m[random[k]].randomPos == k
  {
    var taken := set id | id in m :: m[id].randomPos;
    PlacesDistinct(m, m.Keys, random);
    assert taken == set id | id in m.Keys :: m[id].randomPos;
    var all := Below(|random|);
    assert taken <= all;
    if k :| k in all && k !in taken {
      SubsetSize(taken, all - {k});
    }
    forall k | 0 <= k < |random| ensures random[k] in m && m[random[k]].randomPos == k {
      assert k in all;
      var id :| id in m && m[id].randomPos == k;
    }
  }

  lemma {:induction false} PlacesDistinct(m: Infos, ids: set<int>, random: seq<int>)
    requires ids <= m.Keys && forall id | id in m :: ListedAt(m[id], id, random)
    ensures |set id | id in ids :: m[id].randomPos| == |ids|
  {
    var places := set id | id in ids :: m[id].randomPos;
    if ids == {} {
      assert places == {};
    } else {
      var x := Element(ids);
      PlacesDistinct(m, ids - {x}, random);
      var rest := set id | id in ids - {x} :: m[id].randomPos;
      forall y | y in ids - {x} ensures m[y].randomPos != m[x].randomPos {
        assert ListedAt(m[x], x, random) && ListedAt(m[y], y, random);
      }
      assert places == rest + {m[x].randomPos};
    }
  }

  lemma PassesTables(a: AddrMan)
    requires Reflected(a) && Passes(a)
    ensures TriedOk(a.env, a.nKey, a.mapInfo, a.tried) && NewOk(a.env, a.nKey, a.mapInfo, a.new_, {})
  {
    hide Shape, Mirrors, TriedSlot, BucketPosition;
    var m := a.mapInfo;
    forall id | id in m && m[id].inTried
      ensures id != -1 && m[id].refCount == 0 && TriedSlot(a.env, a.nKey, m[id].addr.service) in a.tried
              && a.tried[TriedSlot(a.env, a.nKey, m[id].addr.service)] == id
    {
      assert EntryOk(m[id], id, a.mapAddr, a.vRandom) && id in Tried(m);
      var c :| c in Slots(a.tried, id);
    }
    forall id | id in m && !m[id].inTried ensures id != -1 && RefOk(m[id], |Slots(a.new_, id)|, false) {
      assert EntryOk(m[id], id, a.mapAddr, a.vRandom) && id in NonTried(m);
    }
  }

  lemma EntriesPass(env: Env, key: nat, m: Infos, byAddr: map<NetAddr, int>, random: seq<int>, idCount: int,
                    tried: Table, new_: Table)
    requires IndexOk(m, byAddr, random, idCount) && TriedOk(env, key, m, tried) && NewOk(env, key, m, new_, {})
             && TimesOk(m)
    ensures EntriesOk(m, byAddr, random)
  {
    forall id | id in m ensures EntryOk(m[id], id, byAddr, random) {
      assert IndexedAt(m[id], id, byAddr, random) && TimeOk(m[id]);
      if !m[id].inTried {
        assert RefOk(m[id], |Slots(new_, id)|, false);
      }
    }
  }

  lemma TablesPass(env: Env, key: nat, m: Infos, tried: Table, new_: Table)
    requires TriedOk(env, key, m, tried) && NewOk(env, key, m, new_, {})
    ensures TriedTableOk(env, key, m, tried) && NewTableOk(env, key, m, new_)
  {
    forall id | id in Tried(m) ensures Slots(tried, id) != {} {
      assert TriedSlot(env, key, m[id].addr.service) in Slots(tried, id);
    }
    forall id | id in NonTried(m) ensures |Slots(new_, id)| == m[id].refCount {
      assert RefOk(m[id], |Slots(new_, id)|, false);
    }
  }

  ghost function Listed(random: seq<int>, n: nat): set<int>
    requires n <= |random|
  {
    set k | 0 <= k < n :: random[k]
  }

  /** vRandom lists every id once, so it is as long as mapInfo. */
  lemma IndexSize(m: Infos, byAddr: map<NetAddr, int>, random: seq<int>, idCount: int)
    requires IndexOk(m, byAddr, random, idCount)
    ensures |random| == |m.Keys|
  {
    forall j, k | 0 <= j < k < |random| ensures random[j] != random[k] {
      assert m[random[j]].randomPos == j && m[random[k]].randomPos == k;
    }
    ListedSize(random, |random|);
    var listed := Listed(random, |random|);
    forall id ensures id in listed <==> id in m {
      if id in m {
        assert IndexedAt(m[id], id, byAddr, random);
        assert random[m[id].randomPos] in listed;
      }
    }
    assert listed == m.Keys;
  }

  lemma {:induction false} ListedSize(random: seq<int>, n: nat)
    requires n <= |random|
    requires forall j, k | 0 <= j < k < n :: random[j] != random[k]
    ensures |Listed(random, n)| == n
  {
    if n == 0 {
      assert Listed(random, 0) == {};
    } else {
      ListedSize(random, n - 1);
      assert Listed(random, n) == Listed(random, n - 1) + {random[n - 1]};
    }
  }

  /** The ghost contents are those of the two arrays. */
  ghost predicate Reflected(a: AddrMan)
    reads a, a.vvTried, a.vvNew
  {
    && a.Arrays() && Mirrors(a.vvTried, a.tried) && Mirrors(a.vvNew, a.new_)
    && Shape(a.tried, TRIED_BUCKET_COUNT) && Shape(a.new_, NEW_BUCKET_COUNT)
  }

  /** Check_ returns 0 exactly when all its tests pass, on any state whatsoever, and else the code of one that fails. */
  method Check(a: AddrMan) returns (err: int)
    requires Reflected(a)
    modifies a`mapAddr
    ensures err == 0 <==> old(Passes(a))
    ensures err != 0 ==> old(Fault(err, a))
    ensures AllMapped(a.mapInfo, old(a.mapAddr)) ==> a.mapAddr == old(a.mapAddr)
  {
    hide EntriesOk, TriedTableOk, NewTableOk, Tried, NonTried, Shape, Mirrors, EntriesFault, TriedFault, NewFault,
      Slots;
    if |a.vRandom| != a.nTried + a.nNew {
      return -7;
    }
    var setTried, mapNew;
    err, setTried, mapNew := CheckEntries(a);
    if err != 0 {
      return;
    }
    if |setTried| != a.nTried {
      return -9;
    }
    if |mapNew| != a.nNew {
      return -10;
    }
    assert |mapNew| == |mapNew.Keys|;
    err, setTried := CheckTried(a, setTried);
    if err != 0 {
      return;
    }
    err, mapNew := CheckNew(a, mapNew);
    if err != 0 {
      return;
    }
    if |setTried| != 0 {
      ghost var id := Element(setTried);
      return -13;
    }
    if |mapNew| != 0 {
      ghost var id := Element(mapNew.Keys);
      return -15;
    }
    if a.nKey == 0 {
      return -16;
    }
  }

  lemma SortedOut(m: Infos, tried: set<int>, untried: set<int>)
    requires forall id :: id in tried <==> id in m && m[id].inTried
    requires forall id :: id in untried <==> id in m && !m[id].inTried
    ensures tried == Tried(m) && untried == NonTried(m)
  {
    assert forall id :: id in tried <==> id in Tried(m);
    assert forall id :: id in untried <==> id in NonTried(m);
  }

  /** The lookups so far left mapAddr as it was, but for zeros under addresses that it did not have. */
  ghost predicate Looked(before: map<NetAddr, int>, after: map<NetAddr, int>) {
    && (forall n | n in before :: n in after && after[n] == before[n])
    && (forall n | n in after && n !in before :: after[n] == 0)
  }

  /** The tests on one entry; `first` is mapAddr before all lookups. */
  method CheckEntry(a: AddrMan, n: int, ghost first: map<NetAddr, int>) returns (err: int)
    requires n in a.mapInfo && Looked(first, a.mapAddr)
    modifies a`mapAddr
    ensures err == 0 <==> EntryOk(a.mapInfo[n], n, first, a.vRandom)
    ensures err != 0 ==> EntryFault(err, a.mapInfo[n], n, first, a.vRandom)
    ensures Looked(first, a.mapAddr)
    ensures a.mapInfo[n].Net() in first ==> a.mapAddr == old(a.mapAddr)
  {
    var info := a.mapInfo[n];
    if info.inTried {
      if info.lastSuccess == 0 {
        return -1;
      }
      if info.refCount != 0 {
        return -2;
      }
    } else {
      if info.refCount < 0 || info.refCount > NEW_BUCKETS_PER_ADDRESS {
        return -3;
      }
      if info.refCount == 0 {
        return -4;
      }
    }
    if info.Net() !in a.mapAddr {
      a.mapAddr := a.mapAddr[info.Net() := 0];  // operator[]
    }
    if a.mapAddr[info.Net()] != n {
      return -5;
    }
    if info.randomPos < 0 || info.randomPos >= |a.vRandom| || a.vRandom[info.randomPos] != n {
      return -14;
    }
    if info.lastTry < 0 {
      return -6;
    }
    if info.lastSuccess < 0 {
      return -8;
    }
    return 0;
  }

  method CheckEntries(a: AddrMan) returns (err: int, setTried: set<int>, mapNew: map<int, int>)
    modifies a`mapAddr
    ensures err == 0 <==> EntriesOk(a.mapInfo, old(a.mapAddr), a.vRandom)
    ensures err != 0 ==> EntriesFault(err, a.mapInfo, old(a.mapAddr), a.vRandom)
    ensures AllMapped(a.mapInfo, old(a.mapAddr)) ==> a.mapAddr == old(a.mapAddr)
    ensures err == 0 ==> setTried == Tried(a.mapInfo)
    ensures err == 0 ==>
              mapNew.Keys == NonTried(a.mapInfo) && forall id | id in mapNew :: mapNew[id] == a.mapInfo[id].refCount > 0
  {
    hide EntryFault;
    err, setTried, mapNew := 0, {}, map[];
    var todo := a.mapInfo.Keys;
    while todo != {}
      modifies a`mapAddr
      invariant err == 0 && todo <= a.mapInfo.Keys && Looked(old(a.mapAddr), a.mapAddr)
      invariant forall id | id in a.mapInfo && id !in todo :: EntryOk(a.mapInfo[id], id, old(a.mapAddr), a.vRandom)
      invariant forall id :: id in setTried <==> id in a.mapInfo && id !in todo && a.mapInfo[id].inTried
      invariant forall id :: id in mapNew <==> id in a.mapInfo && id !in todo && !a.mapInfo[id].inTried
      invariant forall id | id in mapNew :: mapNew[id] == a.mapInfo[id].refCount > 0
      invariant AllMapped(a.mapInfo, old(a.mapAddr)) ==> a.mapAddr == old(a.mapAddr)
      decreases todo
    {
      ghost var some := Element(todo);
      var n :| n in todo;
      todo := todo - {n};
      err := CheckEntry(a, n, old(a.mapAddr));
      if err != 0 {
        return;
      }
      if a.mapInfo[n].inTried {
        setTried := setTried + {n};
      } else {
        mapNew := mapNew[n := a.mapInfo[n].refCount];
      }
    }
    assert forall id | id in a.mapInfo :: id !in todo;
    SortedOut(a.mapInfo, setTried, mapNew.Keys);
  }

  /** The cell comes before bucket n, position i in the order of the table scans. */
  ghost predicate Seen(c: (int, int), n: int, i: int) {
    c.0 < n || (c.0 == n && c.1 < i)
  }

  ghost predicate CellInTried(env: Env, key: nat, m: Infos, id: int, c: (int, int)) {
    id in Tried(m) && TriedSlot(env, key, m[id].addr.service) == c
  }

  /** The scan so far found no bad cell, and setTried holds the ids still to be found. */
  ghost predicate TriedScan(env: Env, key: nat, m: Infos, t: Table, n: int, i: int, setTried: set<int>) {
    && (forall c | c in t && Seen(c, n, i) && t[c] != -1 :: CellInTried(env, key, m, t[c], c))
    && setTried <= Tried(m)
    && (forall id | id in Tried(m) :: id in setTried <==> SeenSlots(t, id, n, i) == {})
  }

  lemma TriedCell(env: Env, key: nat, m: Infos, t: Table, n: int, i: int, setTried: set<int>)
    requires TriedScan(env, key, m, t, n, i, setTried) && (n, i) in t
    requires t[(n, i)] == -1 || CellInTried(env, key, m, t[(n, i)], (n, i))
    ensures TriedScan(env, key, m, t, n, i + 1, if t[(n, i)] == -1 then setTried else setTried - {t[(n, i)]})
  {
    forall c | c in t && Seen(c, n, i + 1) && t[c] != -1 ensures CellInTried(env, key, m, t[c], c) {
      assert c == (n, i) || Seen(c, n, i);
    }
    forall id | id in Tried(m)
      ensures SeenSlots(t, id, n, i + 1) == {} <==> SeenSlots(t, id, n, i) == {} && (t[(n, i)] != id || id == -1)
    {
      if t[(n, i)] == id && id != -1 {
        assert (n, i) in SeenSlots(t, id, n, i + 1);
      } else {
        assert SeenSlots(t, id, n, i + 1) == SeenSlots(t, id, n, i);
      }
    }
  }

  lemma TriedRow(env: Env, key: nat, m: Infos, t: Table, n: int, setTried: set<int>)
    requires Shape(t, TRIED_BUCKET_COUNT) && TriedScan(env, key, m, t, n, BUCKET_SIZE, setTried)
    ensures TriedScan(env, key, m, t, n + 1, 0, setTried)
  {
    forall c | c in t ensures Seen(c, n + 1, 0) == Seen(c, n, BUCKET_SIZE) {}
    forall id | id in Tried(m) ensures SeenSlots(t, id, n + 1, 0) == SeenSlots(t, id, n, BUCKET_SIZE) {}
  }

  lemma TriedEnds(env: Env, key: nat, m: Infos, t: Table, setTried: set<int>)
    requires Shape(t, TRIED_BUCKET_COUNT)
    ensures TriedScan(env, key, m, t, 0, 0, Tried(m))
    ensures TriedScan(env, key, m, t, TRIED_BUCKET_COUNT, 0, setTried) ==>
              && (TriedTableOk(env, key, m, t) <==> setTried == {})
              && forall id :: id in setTried <==> id in Tried(m) && (id == -1 || Slots(t, id) == {})
  {
    forall id | id in Tried(m)
      ensures SeenSlots(t, id, 0, 0) == {}
      ensures SeenSlots(t, id, TRIED_BUCKET_COUNT, 0) == if id == -1 then {} else Slots(t, id)
    {
    }
    if setTried != {} {
      var id := Element(setTried);
    }
  }

  /** A cell whose id is not among those still to be found makes the table wrong. */
  lemma TriedSurplus(env: Env, key: nat, m: Infos, t: Table, n: int, i: int, setTried: set<int>)
    requires TriedScan(env, key, m, t, n, i, setTried) && (n, i) in t
    requires t[(n, i)] != -1 && t[(n, i)] !in setTried
    ensures !TriedTableOk(env, key, m, t) && TriedFault(-11, env, key, m, t, (n, i))
  {
    var id := t[(n, i)];
    if id in Tried(m) {
      assert SeenSlots(t, id, n, i) != {};
      var c :| c in SeenSlots(t, id, n, i);
      assert CellInTried(env, key, m, t[c], c);
    }
  }

  /** The scan of the tried table; `setTried` is then what was not met. */
  method CheckTried(a: AddrMan, triedIds: set<int>) returns (err: int, setTried: set<int>)
    requires Reflected(a) && triedIds == Tried(a.mapInfo)
    ensures err == 0 && setTried == {} <==> TriedTableOk(a.env, a.nKey, a.mapInfo, a.tried)
    ensures err != 0 ==> exists c :: TriedFault(err, a.env, a.nKey, a.mapInfo, a.tried, c)
    ensures err == 0 ==>
              forall id :: id in setTried <==> id in Tried(a.mapInfo) && (id == -1 || Slots(a.tried, id) == {})
  {
    hide TriedScan, Shape;
    err, setTried := 0, triedIds;
    ghost var env, key, m, t := a.env, a.nKey, a.mapInfo, a.tried;
    TriedEnds(env, key, m, t, setTried);
    for n := 0 to TRIED_BUCKET_COUNT
      invariant setTried <= triedIds && TriedScan(env, key, m, t, n, 0, setTried)
    {
      for i := 0 to BUCKET_SIZE
        invariant setTried <= triedIds && TriedScan(env, key, m, t, n, i, setTried)
      {
        var id := a.vvTried[n, i];
        assert (n, i) in t && t[(n, i)] == id;
        ghost var before := setTried;
        if id != -1 {
          if id !in setTried {
            TriedSurplus(env, key, m, t, n, i, setTried);
            return -11, setTried;
          }
          if TriedBucket(a.env, a.nKey, a.mapInfo[id].addr.service) != n {
            assert TriedFault(-17, env, key, m, t, (n, i));
            return -17, setTried;
          }
          if BucketPosition(a.env, a.nKey, false, n, a.mapInfo[id].addr.service) != i {
            assert TriedFault(-18, env, key, m, t, (n, i));
            return -18, setTried;
          }
          setTried := setTried - {id};
        }
        TriedCell(env, key, m, t, n, i, before);
      }
      TriedRow(env, key, m, t, n, setTried);
    }
    TriedEnds(env, key, m, t, setTried);
  }

  ghost function SeenSlots(t: Table, id: int, n: int, i: int): set<(int, int)> {
    set c | c in t && t[c] == id && id != -1 && Seen(c, n, i)
  }

  ghost predicate CellInNew(env: Env, key: nat, m: Infos, id: int, c: (int, int)) {
    id in NonTried(m) && BucketPosition(env, key, true, c.0, m[id].addr.service) == c.1
  }

  /** The scan so far found no bad cell, and mapNew holds the references still to be found. */
  ghost predicate NewScan(env: Env, key: nat, m: Infos, t: Table, n: int, i: int, mapNew: map<int, int>) {
    && (forall c | c in t && Seen(c, n, i) && t[c] != -1 :: CellInNew(env, key, m, t[c], c))
    && (forall id | id in NonTried(m) :: Outstanding(m[id].refCount, |SeenSlots(t, id, n, i)|, id, mapNew))
    && mapNew.Keys <= NonTried(m)
  }

  ghost predicate Outstanding(refCount: int, found: nat, id: int, mapNew: map<int, int>) {
    if id in mapNew then mapNew[id] == refCount - found > 0 else refCount == found
  }

  lemma ScanStart(env: Env, key: nat, m: Infos, t: Table, mapNew: map<int, int>)
    requires Shape(t, NEW_BUCKET_COUNT) && mapNew.Keys == NonTried(m)
    requires forall id | id in mapNew :: mapNew[id] == m[id].refCount > 0
    ensures NewScan(env, key, m, t, 0, 0, mapNew)
  {
    forall id | id in NonTried(m) ensures SeenSlots(t, id, 0, 0) == {} {}
  }

  lemma ScanRow(env: Env, key: nat, m: Infos, t: Table, n: int, mapNew: map<int, int>)
    requires Shape(t, NEW_BUCKET_COUNT) && NewScan(env, key, m, t, n, BUCKET_SIZE, mapNew)
    ensures NewScan(env, key, m, t, n + 1, 0, mapNew)
  {
    forall c | c in t ensures Seen(c, n + 1, 0) == Seen(c, n, BUCKET_SIZE) {}
    forall id | id in NonTried(m) ensures Outstanding(m[id].refCount, |SeenSlots(t, id, n + 1, 0)|, id, mapNew) {
      assert SeenSlots(t, id, n + 1, 0) == SeenSlots(t, id, n, BUCKET_SIZE);
      assert Outstanding(m[id].refCount, |SeenSlots(t, id, n, BUCKET_SIZE)|, id, mapNew);
    }
  }

  lemma ScanCell(env: Env, key: nat, m: Infos, t: Table, n: int, i: int, mapNew: map<int, int>, mapNew': map<int, int>)
    requires NewScan(env, key, m, t, n, i, mapNew) && (n, i) in t
    requires t[(n, i)] == -1 ==> mapNew' == mapNew
    requires t[(n, i)] != -1 ==> t[(n, i)] in mapNew && CellInNew(env, key, m, t[(n, i)], (n, i))
    requires t[(n, i)] != -1 ==>
               mapNew' == if mapNew[t[(n, i)]] == 1 then mapNew - {t[(n, i)]}
               else mapNew[t[(n, i)] := mapNew[t[(n, i)]] - 1]
    ensures NewScan(env, key, m, t, n, i + 1, mapNew')
  {
    hide SeenSlots, CellInNew;
    forall c | c in t && Seen(c, n, i + 1) && t[c] != -1 ensures CellInNew(env, key, m, t[c], c) {
      assert c == (n, i) || Seen(c, n, i);
    }
    forall id | id in NonTried(m) ensures Outstanding(m[id].refCount, |SeenSlots(t, id, n, i + 1)|, id, mapNew') {
      assert Outstanding(m[id].refCount, |SeenSlots(t, id, n, i)|, id, mapNew);
      SeenNext(t, id, n, i);
    }
  }

  lemma SeenNext(t: Table, id: int, n: int, i: int)
    requires (n, i) in t
    ensures |SeenSlots(t, id, n, i + 1)| == |SeenSlots(t, id, n, i)| + if t[(n, i)] == id && id != -1 then 1 else 0
  {
    var more := if t[(n, i)] == id && id != -1 then {(n, i)} else {};
    forall c: (int, int) ensures Seen(c, n, i + 1) <==> Seen(c, n, i) || c == (n, i) {
      assert c == (c.0, c.1);
    }
    assert SeenSlots(t, id, n, i + 1) == SeenSlots(t, id, n, i) + more;
  }

  /** A cell whose id has no outstanding reference makes the table wrong. */
  lemma ScanSurplus(env: Env, key: nat, m: Infos, t: Table, n: int, i: int, mapNew: map<int, int>)
    requires NewScan(env, key, m, t, n, i, mapNew) && (n, i) in t
    requires t[(n, i)] != -1 && t[(n, i)] !in mapNew
    ensures !NewTableOk(env, key, m, t) && NewFault(-12, env, key, m, t, (n, i))
  {
    var id := t[(n, i)];
    if id in NonTried(m) {
      assert Outstanding(m[id].refCount, |SeenSlots(t, id, n, i)|, id, mapNew);
      assert SeenSlots(t, id, n, i) <= Slots(t, id) - {(n, i)};
      SubsetSize(SeenSlots(t, id, n, i), Slots(t, id) - {(n, i)});
    }
  }

  lemma ScanEnd(env: Env, key: nat, m: Infos, t: Table, mapNew: map<int, int>)
    requires Shape(t, NEW_BUCKET_COUNT) && NewScan(env, key, m, t, NEW_BUCKET_COUNT, 0, mapNew)
    requires forall id | id in NonTried(m) :: m[id].refCount > 0
    ensures NewTableOk(env, key, m, t) <==> mapNew == map[]
    ensures forall id :: id in mapNew <==> id in NonTried(m) && (id == -1 || |Slots(t, id)| < m[id].refCount)
  {
    forall id | id in NonTried(m)
      ensures (id != -1 && |Slots(t, id)| == m[id].refCount) <==> id !in mapNew
      ensures (id == -1 || |Slots(t, id)| < m[id].refCount) <==> id in mapNew
    {
      assert SeenSlots(t, id, NEW_BUCKET_COUNT, 0) == if id == -1 then {} else Slots(t, id);
      assert Outstanding(m[id].refCount, |SeenSlots(t, id, NEW_BUCKET_COUNT, 0)|, id, mapNew);
    }
    if mapNew != map[] {
      var id := Element(mapNew.Keys);
    }
  }

  /** The scan of the new table; `mapNew` then holds the references not met. */
  method CheckNew(a: AddrMan, references: map<int, int>) returns (err: int, mapNew: map<int, int>)
    requires Reflected(a) && references.Keys == NonTried(a.mapInfo)
    requires forall id | id in references :: references[id] == a.mapInfo[id].refCount > 0
    ensures err == 0 && mapNew == map[] <==> NewTableOk(a.env, a.nKey, a.mapInfo, a.new_)
    ensures err != 0 ==> exists c :: NewFault(err, a.env, a.nKey, a.mapInfo, a.new_, c)
    ensures err == 0 ==> forall id :: id in mapNew <==>
                                      id in NonTried(a.mapInfo)
                                      && (id == -1 || |Slots(a.new_, id)| < a.mapInfo[id].refCount)
  {
    hide NewScan, NewTableOk, Shape, Tried, NonTried, NewFault, Slots;
    err, mapNew := 0, references;
    ghost var env, key, m, t := a.env, a.nKey, a.mapInfo, a.new_;
    ScanStart(env, key, m, t, mapNew);
    for n := 0 to NEW_BUCKET_COUNT
      invariant NewScan(env, key, m, t, n, 0, mapNew)
    {
      for i := 0 to BUCKET_SIZE
        invariant NewScan(env, key, m, t, n, i, mapNew)
      {
        var id := a.vvNew[n, i];
        assert (n, i) in t && t[(n, i)] == id;
        ghost var before := mapNew;
        if id != -1 {
          if id !in mapNew {
            ScanSurplus(env, key, m, t, n, i, mapNew);
            return -12, mapNew;
          }
          ScanKnows(env, key, m, t, n, i, mapNew, id);
          if BucketPosition(a.env, a.nKey, true, n, a.mapInfo[id].addr.service) != i {
            Misplaced(env, key, m, t, (n, i));
            return -19, mapNew;
          }
          mapNew := mapNew[id := mapNew[id] - 1];
          if mapNew[id] == 0 {
            mapNew := mapNew - {id};
          }
        }
        ScanCell(env, key, m, t, n, i, before, mapNew);
      }
      ScanRow(env, key, m, t, n, mapNew);
    }
    ScanEnd(env, key, m, t, mapNew);
  }

  lemma ScanKnows(env: Env, key: nat, m: Infos, t: Table, n: int, i: int, mapNew: map<int, int>, id: int)
    requires NewScan(env, key, m, t, n, i, mapNew) && id in mapNew
    ensures id in NonTried(m) && id in m
  {
  }

  lemma Misplaced(env: Env, key: nat, m: Infos, t: Table, c: (int, int))
    requires c in t && t[c] != -1 && t[c] in NonTried(m)
    requires BucketPosition(env, key, true, c.0, m[t[c]].addr.service) != c.1
    ensures !NewTableOk(env, key, m, t) && NewFault(-19, env, key, m, t, c)
  {
  }
}
