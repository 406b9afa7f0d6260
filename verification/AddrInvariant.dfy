/**
 The consistency conditions that CAddrMan::Check_ tests, on values.  Each condition is
 stated with the entries `limbo` that an operation is in the middle of moving: they are
 listed in mapInfo but sit in no bucket yet.
 */
module AddrInvariant {
  import opened AddrTypes

  type Infos = map<int, AddrInfo>

  /** The contents of a bucket table: bucket and position to id, -1 for an empty cell. */
  type Table = map<(int, int), int>

  /** `c` is the contents of the array `t`. */
  ghost predicate Mirrors(t: array2<int>, c: Table)
    reads t
  {
    forall b, i | 0 <= b < t.Length0 && 0 <= i < t.Length1 :: (b, i) in c && c[(b, i)] == t[b, i]
  }

  ghost function Grid(buckets: nat): (g: set<(int, int)>)
    ensures forall c :: c in g <==> 0 <= c.0 < buckets && 0 <= c.1 < BUCKET_SIZE
  {
    set b, i | 0 <= b < buckets && 0 <= i < BUCKET_SIZE :: (b, i)
  }

  ghost predicate Shape(t: Table, buckets: int) {
    forall c :: c in t <==> 0 <= c.0 < buckets && 0 <= c.1 < BUCKET_SIZE
  }

  /** vRandom lists the ids of mapInfo, each at its recorded position; ids are below idCount. */
  ghost predicate RandomOk(m: Infos, random: seq<int>, idCount: int) {
    && 0 <= idCount
    && (forall k | 0 <= k < |random| :: random[k] in m && m[random[k]].randomPos == k)
    && (forall id | id in m :: ListedAt(m[id], id, random) && 0 <= id < idCount)
  }

  ghost predicate ListedAt(info: AddrInfo, id: int, random: seq<int>) {
    0 <= info.randomPos < |random| && random[info.randomPos] == id
  }

  /** mapAddr is the inverse of mapInfo. */
  ghost predicate AddrOk(m: Infos, byAddr: map<NetAddr, int>) {
    && (forall id | id in m :: MappedBy(m[id], id, byAddr))
    && (forall a | a in byAddr :: byAddr[a] in m && m[byAddr[a]].Net() == a)
  }

  ghost predicate MappedBy(info: AddrInfo, id: int, byAddr: map<NetAddr, int>) {
    info.Net() in byAddr && byAddr[info.Net()] == id
  }

  ghost predicate IndexOk(m: Infos, byAddr: map<NetAddr, int>, random: seq<int>, idCount: int) {
    RandomOk(m, random, idCount) && AddrOk(m, byAddr)
  }

  ghost predicate IndexedAt(info: AddrInfo, id: int, byAddr: map<NetAddr, int>, random: seq<int>) {
    ListedAt(info, id, random) && MappedBy(info, id, byAddr)
  }

  ghost function Tried(m: Infos): set<int> { set id | id in m && m[id].inTried }

  ghost function NonTried(m: Infos): set<int> { set id | id in m && !m[id].inTried }

  /** The two counters; `debt` entries outside the tried table are not yet counted in nNew. */
  ghost predicate CountOk(m: Infos, nTried: int, nNew: int, debt: int) {
    nTried == |Tried(m)| && nNew + debt == |NonTried(m)|
  }

  ghost function TriedSlot(env: Env, key: nat, s: Service): (int, int) {
    var b := TriedBucket(env, key, s);
    (b, BucketPosition(env, key, false, b, s))
  }

  /** vvTried holds exactly the tried entries, each at its own bucket and position. */
  ghost predicate TriedOk(env: Env, key: nat, m: Infos, t: Table) {
    && Shape(t, TRIED_BUCKET_COUNT)
    && (forall c | c in t && t[c] != -1 ::
          t[c] in m && m[t[c]].inTried && TriedSlot(env, key, m[t[c]].addr.service) == c)
    && (forall id | id in m && m[id].inTried ::
          m[id].refCount == 0 && TriedSlot(env, key, m[id].addr.service) in t
          && t[TriedSlot(env, key, m[id].addr.service)] == id)
  }

  /** The cells of a bucket table that hold `id`. */
  ghost function Slots(t: Table, id: int): set<(int, int)> {
    set c | c in t && t[c] == id
  }

  /** vvNew holds the untried entries, at their positions, as often as their reference counts say. */
  ghost predicate NewOk(env: Env, key: nat, m: Infos, t: Table, limbo: set<int>) {
    && Shape(t, NEW_BUCKET_COUNT)
    && -1 !in m
    && NewPlaced(env, key, m, t)
    && RefsOk(m, t, limbo)
    && (forall id | id in limbo :: id in m && !m[id].inTried)
  }

  ghost predicate RefsOk(m: Infos, t: Table, limbo: set<int>) {
    forall id | id in m && !m[id].inTried :: RefOk(m[id], |Slots(t, id)|, id in limbo)
  }

  ghost predicate NewPlaced(env: Env, key: nat, m: Infos, t: Table) {
    forall c | c in t && t[c] != -1 ::
      t[c] in m && !m[t[c]].inTried && BucketPosition(env, key, true, c.0, m[t[c]].addr.service) == c.1
  }

  ghost predicate RefOk(info: AddrInfo, slots: nat, inLimbo: bool) {
    && info.refCount == slots <= NEW_BUCKETS_PER_ADDRESS
    && (if inLimbo then info.refCount == 0 else info.refCount >= 1)
  }

  /** The two recorded times are sane: what keeps Check_ from returning -1, -6 or -8. */
  ghost predicate TimesOk(m: Infos) {
    forall id | id in m :: TimeOk(m[id])
  }

  ghost predicate TimeOk(info: AddrInfo) {
    info.lastTry >= 0 && info.lastSuccess >= 0 && (info.inTried ==> info.lastSuccess != 0)
  }

  /** Outside `changed`, the two maps list the same ids with the same data up to vRandom positions. */
  ghost predicate SameExcept(m: Infos, m': Infos, changed: set<int>) {
    forall id | id !in changed :: (id in m <==> id in m') && (id in m ==> m[id].Core() == m'[id].Core())
  }

  /** `id` lost one reference and, when that was its last, its whole entry; nothing else changed. */
  ghost predicate LostReference(m: Infos, m': Infos, id: int) {
    && id in m
    && SameExcept(m, m', {id})
    && (id in m' <==> m[id].refCount > 1)
    && (id in m' ==> m'[id].Core() == m[id].Core().(refCount := m[id].refCount - 1))
  }

  /** `id` now holds `info`, having taken a new-table cell from `lost` (-1: from nobody). */
  ghost predicate Replaced(m: Infos, m': Infos, id: int, info: AddrInfo, lost: int) {
    && id in m' && id != lost && m'[id].Core() == info.Core()
    && if lost == -1 then SameExcept(m, m', {id}) else LostReference(m - {id}, m' - {id}, lost)
  }

  ghost predicate BackEvicted(m: Infos, m': Infos, ev: int, lost: int) {
    ev in m && Replaced(m, m', ev, m[ev].(inTried := false, refCount := 1), lost)
  }

  ghost function NewSlotFrom(env: Env, key: nat, s: Service, source: NetAddr): (int, int) {
    var b := NewBucket(env, key, s, source);
    (b, BucketPosition(env, key, true, b, s))
  }

  ghost function NewSlot(env: Env, key: nat, info: AddrInfo): (int, int) {
    NewSlotFrom(env, key, info.addr.service, info.source)
  }

  /** The table with `id` removed from the buckets below `k`. */
  ghost function Scrub(t: Table, id: int, k: int): Table {
    map c | c in t :: if t[c] == id && c.0 < k then -1 else t[c]
  }

  /**
   `id` left every new bucket and took its cell of the tried table; an entry that held the
   cell went back to the new table.  No other entry changed.
   */
  ghost predicate MovedToTried(env: Env, key: nat, m: Infos, tried: Table, new_: Table,
                               m': Infos, tried': Table, new_': Table, id: int) {
    && id in m && id in m'
    && m'[id].Core() == m[id].Core().(refCount := 0, inTried := true)
    && var c := TriedSlot(env, key, m[id].addr.service);
    var scrubbed := Scrub(new_, id, NEW_BUCKET_COUNT);
    && c in tried && tried' == tried[c := id]
    && if tried[c] == -1 then new_' == scrubbed && SameExcept(m, m', {id})
       else
         && tried[c] in m
         && var slot := NewSlot(env, key, m[tried[c]]);
         && slot in scrubbed && new_' == scrubbed[slot := tried[c]]
         && BackEvicted(m - {id}, m' - {id}, tried[c], scrubbed[slot])
  }

  // ---- what each kind of step keeps ----

  lemma SameCoreKeeps(env: Env, key: nat, m: Infos, m': Infos, tried: Table, new_: Table, limbo: set<int>)
    requires SameExcept(m, m', {})
    requires TriedOk(env, key, m, tried) && NewOk(env, key, m, new_, limbo)
    ensures m.Keys == m'.Keys && Tried(m) == Tried(m') && NonTried(m) == NonTried(m')
    ensures TriedOk(env, key, m', tried) && NewOk(env, key, m', new_, limbo)
    ensures TimesOk(m) ==> TimesOk(m')
  {
    forall id
      ensures id in m <==> id in m'
      ensures id in m ==> m'[id] == m[id].(randomPos := m'[id].randomPos)
    {
      assert id in m ==> m[id].Core() == m'[id].Core();
    }
  }

  /** Updates that keep ids, addresses and vRandom positions keep the indexes. */
  lemma RecountKeepsIndex(m: Infos, m': Infos, byAddr: map<NetAddr, int>, random: seq<int>, idCount: int)
    requires m'.Keys == m.Keys
    requires forall id | id in m :: m'[id].randomPos == m[id].randomPos && m'[id].Net() == m[id].Net()
    ensures RandomOk(m, random, idCount) ==> RandomOk(m', random, idCount)
    ensures AddrOk(m, byAddr) ==> AddrOk(m', byAddr)
  {
    if RandomOk(m, random, idCount) {
      forall id | id in m' ensures ListedAt(m'[id], id, random) {
        assert ListedAt(m[id], id, random);
      }
    }
    if AddrOk(m, byAddr) {
      forall id | id in m' ensures MappedBy(m'[id], id, byAddr) {
        assert MappedBy(m[id], id, byAddr);
      }
    }
  }

  lemma CreateKeepsRandom(m: Infos, random: seq<int>, idCount: int, info: AddrInfo)
    requires RandomOk(m, random, idCount) && info.randomPos == |random|
    ensures idCount !in m && 0 <= idCount
    ensures RandomOk(m[idCount := info], random + [idCount], idCount + 1)
  {
    forall id | id in m ensures ListedAt(m[id], id, random + [idCount]) {
      assert ListedAt(m[id], id, random);
    }
  }

  lemma CreateKeepsIndex(m: Infos, byAddr: map<NetAddr, int>, random: seq<int>, idCount: int, info: AddrInfo)
    requires IndexOk(m, byAddr, random, idCount)
    requires info.Net() !in byAddr && info.randomPos == |random|
    ensures idCount !in m && 0 <= idCount
    ensures IndexOk(m[idCount := info], byAddr[info.Net() := idCount], random + [idCount], idCount + 1)
  {
    CreateKeepsRandom(m, random, idCount, info);
    forall id | id in m ensures MappedBy(m[id], id, byAddr[info.Net() := idCount]) {
      assert MappedBy(m[id], id, byAddr);
    }
  }

  lemma CreateKeepsTables(env: Env, key: nat, m: Infos, tried: Table, new_: Table, limbo: set<int>, id: int,
                          info: AddrInfo)
    requires TriedOk(env, key, m, tried) && NewOk(env, key, m, new_, limbo)
    requires id !in m && 0 <= id && !info.inTried && info.refCount == 0
    ensures TriedOk(env, key, m[id := info], tried) && NewOk(env, key, m[id := info], new_, limbo + {id})
  {
    assert Slots(new_, id) == {};
  }

  lemma CreateKeepsCounts(m: Infos, id: int, info: AddrInfo)
    requires id !in m && !info.inTried
    ensures |Tried(m[id := info])| == |Tried(m)| && |NonTried(m[id := info])| == |NonTried(m)| + 1
  {
    assert Tried(m[id := info]) == Tried(m) && NonTried(m[id := info]) == NonTried(m) + {id};
  }

  lemma SwapKeepsRandom(m: Infos, random: seq<int>, idCount: int, p: int, q: int)
    requires RandomOk(m, random, idCount)
    requires 0 <= p < |random| && 0 <= q < |random| && p != q
    ensures
      var m' := m[random[p] := m[random[p]].(randomPos := q)][random[q] := m[random[q]].(randomPos := p)];
      RandomOk(m', random[p := random[q]][q := random[p]], idCount) && SameExcept(m, m', {})
  {
    var m' := m[random[p] := m[random[p]].(randomPos := q)][random[q] := m[random[q]].(randomPos := p)];
    var r' := random[p := random[q]][q := random[p]];
    assert random[p] != random[q];
    forall id | id in m' ensures ListedAt(m'[id], id, r') {
      assert ListedAt(m[id], id, random);
    }
  }

  lemma SameCoreAddr(m: Infos, m': Infos, byAddr: map<NetAddr, int>)
    requires SameExcept(m, m', {})
    ensures AddrOk(m, byAddr) ==> AddrOk(m', byAddr)
  {
    forall id ensures (id in m <==> id in m') && (id in m ==> m[id].Net() == m'[id].Net()) {
      assert (id in m <==> id in m') && (id in m ==> m[id].Core() == m'[id].Core());
    }
    if AddrOk(m, byAddr) {
      forall id | id in m' ensures MappedBy(m'[id], id, byAddr) {
        assert MappedBy(m[id], id, byAddr);
      }
    }
  }

  lemma RandomBounds(m: Infos, random: seq<int>, idCount: int, id: int)
    requires RandomOk(m, random, idCount) && id in m
    ensures 0 <= id < idCount && 0 <= m[id].randomPos < |random| && random[m[id].randomPos] == id
  {
    assert ListedAt(m[id], id, random);
  }

  lemma IndexBounds(m: Infos, byAddr: map<NetAddr, int>, random: seq<int>, idCount: int, id: int)
    requires IndexOk(m, byAddr, random, idCount) && id in m
    ensures 0 <= id < idCount && 0 <= m[id].randomPos < |random| && random[m[id].randomPos] == id
    ensures m[id].Net() in byAddr && byAddr[m[id].Net()] == id
  {
  }

  /** mapAddr finds the one entry that can have a given service. */
  lemma NoOtherService(m: Infos, byAddr: map<NetAddr, int>, random: seq<int>, idCount: int, s: Service, found: bool,
                       nId: int)
    requires IndexOk(m, byAddr, random, idCount)
    requires found <==> s.net in byAddr
    requires found ==> nId in m && m[nId].Net() == s.net
    ensures forall id | id in m && m[id].addr.service == s :: found && id == nId
  {
    forall id | id in m && m[id].addr.service == s ensures found && id == nId {
      assert IndexedAt(m[id], id, byAddr, random);
      if found {
        assert IndexedAt(m[nId], nId, byAddr, random);
      }
    }
  }

  lemma PlacedFacts(env: Env, key: nat, m: Infos, new_: Table, limbo: set<int>, c: (int, int))
    requires NewOk(env, key, m, new_, limbo) && c in new_ && new_[c] != -1
    ensures new_[c] in m && !m[new_[c]].inTried && new_[c] !in limbo
  {
    assert c in Slots(new_, new_[c]);
    assert RefOk(m[new_[c]], |Slots(new_, new_[c])|, new_[c] in limbo);
  }

  lemma TriedFacts(env: Env, key: nat, m: Infos, tried: Table, c: (int, int))
    requires TriedOk(env, key, m, tried) && c in tried && tried[c] != -1
    ensures tried[c] in m && m[tried[c]].inTried && TriedSlot(env, key, m[tried[c]].addr.service) == c
  {
  }

  lemma NoMinusOne(env: Env, key: nat, m: Infos, new_: Table, limbo: set<int>)
    requires NewOk(env, key, m, new_, limbo)
    ensures -1 !in m
  {
  }

  lemma MinusOneBreaks(env: Env, key: nat, m: Infos, new_: Table, limbo: set<int>)
    requires -1 in m
    ensures !NewOk(env, key, m, new_, limbo)
  {
  }

  lemma RefBound(env: Env, key: nat, m: Infos, new_: Table, id: int)
    requires NewOk(env, key, m, new_, {}) && id in m && !m[id].inTried
    ensures 1 <= m[id].refCount <= NEW_BUCKETS_PER_ADDRESS
  {
    assert RefOk(m[id], |Slots(new_, id)|, false);
  }

  lemma CreatedFacts(env: Env, key: nat, m: Infos, tried: Table, new_: Table, limbo: set<int>, id: int, info: AddrInfo)
    requires TriedOk(env, key, m, tried) && NewOk(env, key, m, new_, limbo)
    requires id in m && !m[id].inTried
    requires info == m[id].(addr := info.addr) && info.addr.service == m[id].addr.service
    ensures TriedOk(env, key, m[id := info], tried) && NewOk(env, key, m[id := info], new_, limbo)
    ensures Tried(m[id := info]) == Tried(m) && NonTried(m[id := info]) == NonTried(m)
  {
  }

  lemma LimboFacts(env: Env, key: nat, m: Infos, new_: Table, limbo: set<int>, id: int)
    requires NewOk(env, key, m, new_, limbo) && id in limbo
    ensures id in m && !m[id].inTried && m[id].refCount == 0
  {
    assert RefOk(m[id], |Slots(new_, id)|, true);
  }

  lemma DropKeepsRest(m: Infos, m': Infos, id: int)
    requires SameExcept(m, m', {})
    ensures SameExcept(m, m' - {id}, {id})
  {
  }

  lemma DeletedIsLost(m: Infos, m': Infos, id: int)
    requires id in m && m[id].refCount == 1 && id !in m'
    requires SameExcept(m[id := m[id].(refCount := 0)], m', {id})
    ensures LostReference(m, m', id)
  {
  }

  lemma LostKeepsOther(m: Infos, m': Infos, lost: int, id: int)
    requires LostReference(m, m', lost) && id != lost && id in m
    ensures id in m' && m'[id].Core() == m[id].Core()
  {
    assert (id in m <==> id in m') && (id in m ==> m[id].Core() == m'[id].Core());
  }

  lemma UnrefIsLost(m: Infos, id: int)
    requires id in m && m[id].refCount > 1
    ensures LostReference(m, m[id := m[id].(refCount := m[id].refCount - 1)], id)
  {
  }

  /** A table of empty cells. */
  ghost function Blank(buckets: nat): Table { map c | c in Grid(buckets) :: -1 }

  lemma BlankMirrors(t: array2<int>, buckets: nat)
    requires t.Length0 == buckets && t.Length1 == BUCKET_SIZE
             && forall b, i | 0 <= b < t.Length0 && 0 <= i < t.Length1 :: t[b, i] == -1
    ensures Mirrors(t, Blank(buckets))
  {
  }

  lemma EmptyKeeps(env: Env, key: nat, tried: Table, new_: Table)
    requires tried == Blank(TRIED_BUCKET_COUNT) && new_ == Blank(NEW_BUCKET_COUNT)
    ensures IndexOk(map[], map[], [], 0) && CountOk(map[], 0, 0, 0)
    ensures TriedOk(env, key, map[], tried) && NewOk(env, key, map[], new_, {})
  {
    assert Tried(map[]) == {} && NonTried(map[]) == {};
  }

  lemma DeleteKeepsRandom(m: Infos, random: seq<int>, idCount: int, id: int)
    requires RandomOk(m, random, idCount)
    requires id in m && |random| > 0 && random[|random| - 1] == id
    ensures RandomOk(m - {id}, random[..|random| - 1], idCount)
  {
    forall j | j in m - {id} ensures ListedAt(m[j], j, random[..|random| - 1]) {
      assert ListedAt(m[j], j, random);
    }
    forall k | 0 <= k < |random| - 1 ensures random[k] in m - {id} {
      assert random[k] in m && m[random[k]].randomPos == k;
    }
  }

  lemma DeleteKeepsAddr(m: Infos, byAddr: map<NetAddr, int>, id: int)
    requires AddrOk(m, byAddr) && id in m
    ensures AddrOk(m - {id}, byAddr - {m[id].Net()})
  {
    assert MappedBy(m[id], id, byAddr);
    var b' := byAddr - {m[id].Net()};
    forall j | j in m - {id} ensures MappedBy(m[j], j, b') {
      assert MappedBy(m[j], j, byAddr);
    }
    forall a | a in b' ensures b'[a] in m - {id} {
      assert byAddr[a] in m && m[byAddr[a]].Net() == a;
    }
  }

  lemma DeleteKeepsTables(env: Env, key: nat, m: Infos, tried: Table, new_: Table, limbo: set<int>, id: int)
    requires TriedOk(env, key, m, tried) && NewOk(env, key, m, new_, limbo)
    requires id in limbo && id >= 0
    ensures TriedOk(env, key, m - {id}, tried) && NewOk(env, key, m - {id}, new_, limbo - {id})
    ensures |Tried(m - {id})| == |Tried(m)| && |NonTried(m - {id})| == |NonTried(m)| - 1
  {
    assert RefOk(m[id], |Slots(new_, id)|, true);
    assert Tried(m - {id}) == Tried(m) && NonTried(m - {id}) == NonTried(m) - {id};
    forall c | c in new_ ensures new_[c] != id {
      assert new_[c] == id ==> c in Slots(new_, id);
    }
    var m' := m - {id};
    forall j | j in m' && !m'[j].inTried ensures RefOk(m'[j], |Slots(new_, j)|, j in limbo - {id}) {
      assert RefOk(m[j], |Slots(new_, j)|, j in limbo);
    }
  }

  /** Writing one cell moves only that cell between the slot sets. */
  lemma SlotsAfterWrite(t: Table, c: (int, int), id: int)
    requires c in t && t[c] != id
    ensures Slots(t[c := id], id) == Slots(t, id) + {c} && c !in Slots(t, id)
    ensures Slots(t[c := id], t[c]) == Slots(t, t[c]) - {c} && c in Slots(t, t[c])
    ensures forall j | j != id && j != t[c] :: Slots(t[c := id], j) == Slots(t, j)
  {
    forall j | j != id && j != t[c] ensures Slots(t[c := id], j) == Slots(t, j) {}
  }

  /** Emptying a cell and counting the reference down leaves, at zero, an entry in limbo. */
  lemma UnrefKeeps(env: Env, key: nat, m: Infos, tried: Table, new_: Table, limbo: set<int>, c: (int, int))
    requires TriedOk(env, key, m, tried) && NewOk(env, key, m, new_, limbo)
    requires c in new_ && new_[c] != -1
    ensures new_[c] in m && m[new_[c]].refCount > 0 && new_[c] !in limbo
    ensures
      var id := new_[c];
      var m' := m[id := m[id].(refCount := m[id].refCount - 1)];
      && TriedOk(env, key, m', tried)
      && NewOk(env, key, m', new_[c := -1], if m'[id].refCount == 0 then limbo + {id} else limbo)
      && Tried(m') == Tried(m) && NonTried(m') == NonTried(m)
  {
    hide RefsOk, Slots, RefOk;
    UnrefRefs(m, new_, limbo, c);
  }

  lemma UnrefRefs(m: Infos, new_: Table, limbo: set<int>, c: (int, int))
    requires RefsOk(m, new_, limbo) && -1 !in m
    requires c in new_ && new_[c] in m && !m[new_[c]].inTried
    ensures m[new_[c]].refCount > 0 && new_[c] !in limbo
    ensures
      var id := new_[c];
      var m' := m[id := m[id].(refCount := m[id].refCount - 1)];
      RefsOk(m', new_[c := -1], if m'[id].refCount == 0 then limbo + {id} else limbo)
  {
    var id := new_[c];
    SlotsAfterWrite(new_, c, -1);
    assert RefOk(m[id], |Slots(new_, id)|, id in limbo);
    var m' := m[id := m[id].(refCount := m[id].refCount - 1)];
    var limbo' := if m'[id].refCount == 0 then limbo + {id} else limbo;
    forall j | j in m' && !m'[j].inTried ensures RefOk(m'[j], |Slots(new_[c := -1], j)|, j in limbo') {
      assert RefOk(m[j], |Slots(new_, j)|, j in limbo);
    }
  }

  /** Entering an untried entry into an empty cell at its position, counting the reference. */
  lemma RefKeeps(env: Env, key: nat, m: Infos, tried: Table, new_: Table, limbo: set<int>, c: (int, int), id: int)
    requires TriedOk(env, key, m, tried) && NewOk(env, key, m, new_, limbo)
    requires c in new_ && new_[c] == -1
    requires id in m && !m[id].inTried && m[id].refCount < NEW_BUCKETS_PER_ADDRESS
    requires BucketPosition(env, key, true, c.0, m[id].addr.service) == c.1
    ensures
      var m' := m[id := m[id].(refCount := m[id].refCount + 1)];
      && TriedOk(env, key, m', tried)
      && NewOk(env, key, m', new_[c := id], limbo - {id})
      && Tried(m') == Tried(m) && NonTried(m') == NonTried(m)
  {
    hide RefsOk, Slots, RefOk;
    RefRefs(m, new_, limbo, c, id);
  }

  lemma RefRefs(m: Infos, new_: Table, limbo: set<int>, c: (int, int), id: int)
    requires RefsOk(m, new_, limbo) && -1 !in m
    requires c in new_ && new_[c] == -1
    requires id in m && !m[id].inTried && m[id].refCount < NEW_BUCKETS_PER_ADDRESS
    ensures RefsOk(m[id := m[id].(refCount := m[id].refCount + 1)], new_[c := id], limbo - {id})
  {
    SlotsAfterWrite(new_, c, id);
    var m' := m[id := m[id].(refCount := m[id].refCount + 1)];
    forall j | j in m' && !m'[j].inTried ensures RefOk(m'[j], |Slots(new_[c := id], j)|, j in limbo - {id}) {
      assert RefOk(m[j], |Slots(new_, j)|, j in limbo);
    }
  }

  lemma ScrubStep(env: Env, key: nat, m: Infos, t: Table, id: int, k: int)
    requires NewOk(env, key, m, t, {}) && id in m && id >= 0 && 0 <= k < NEW_BUCKET_COUNT
    ensures
      var c := (k, BucketPosition(env, key, true, k, m[id].addr.service));
      var s := Scrub(t, id, k);
      && c in s && (s[c] == id <==> t[c] == id)
      && Scrub(t, id, k + 1) == (if s[c] == id then s[c := -1] else s)
      && |Slots(Scrub(t, id, k + 1), id)| == |Slots(s, id)| - (if s[c] == id then 1 else 0)
  {
    var c := (k, BucketPosition(env, key, true, k, m[id].addr.service));
    var s := Scrub(t, id, k);
    if s[c] == id {
      SlotsAfterWrite(s, c, -1);
      assert Scrub(t, id, k + 1) == s[c := -1];
    } else {
      assert Scrub(t, id, k + 1) == s;
    }
  }

  lemma ScrubKeeps(env: Env, key: nat, m: Infos, tried: Table, new_: Table, id: int)
    requires TriedOk(env, key, m, tried) && NewOk(env, key, m, new_, {})
    requires id in m && !m[id].inTried
    ensures
      var m' := m[id := m[id].(refCount := 0)];
      var t' := Scrub(new_, id, NEW_BUCKET_COUNT);
      && TriedOk(env, key, m', tried) && NewOk(env, key, m', t', {id})
      && Slots(t', id) == {} && (forall c | c in t' :: t'[c] != id)
      && Tried(m') == Tried(m) && NonTried(m') == NonTried(m)
  {
    var m' := m[id := m[id].(refCount := 0)];
    var t' := Scrub(new_, id, NEW_BUCKET_COUNT);
    forall j | j in m' && !m'[j].inTried ensures RefOk(m'[j], |Slots(t', j)|, j in {id}) {
      assert RefOk(m[j], |Slots(new_, j)|, false);
      if j == id {
        assert Slots(t', j) == {};
      } else {
        assert Slots(t', j) == Slots(new_, j);
      }
    }
    assert Shape(t', NEW_BUCKET_COUNT);
  }

  /** Taking an entry out of the tried table leaves it in limbo. */
  lemma EvictKeeps(env: Env, key: nat, m: Infos, tried: Table, new_: Table, limbo: set<int>, c: (int, int))
    requires TriedOk(env, key, m, tried) && NewOk(env, key, m, new_, limbo)
    requires c in tried && tried[c] != -1
    ensures tried[c] in m && m[tried[c]].inTried && m[tried[c]].refCount == 0 && tried[c] !in limbo
    ensures
      var id := tried[c];
      var m' := m[id := m[id].(inTried := false)];
      && TriedOk(env, key, m', tried[c := -1]) && NewOk(env, key, m', new_, limbo + {id})
      && |Tried(m')| == |Tried(m)| - 1 && |NonTried(m')| == |NonTried(m)| + 1
  {
    var id := tried[c];
    var m' := m[id := m[id].(inTried := false)];
    assert Slots(new_, id) == {};
    forall j | j in m' && !m'[j].inTried ensures RefOk(m'[j], |Slots(new_, j)|, j in limbo + {id}) {
      if j != id {
        assert RefOk(m[j], |Slots(new_, j)|, j in limbo);
      }
    }
    assert Tried(m') == Tried(m) - {id} && NonTried(m') == NonTried(m) + {id};
  }

  /** Entering an entry in limbo into its own, empty, cell of the tried table. */
  lemma PromoteKeeps(env: Env, key: nat, m: Infos, tried: Table, new_: Table, id: int)
    requires TriedOk(env, key, m, tried) && NewOk(env, key, m, new_, {id})
    requires id in m && TriedSlot(env, key, m[id].addr.service) in tried
             && tried[TriedSlot(env, key, m[id].addr.service)] == -1
    ensures
      var c := TriedSlot(env, key, m[id].addr.service);
      var m' := m[id := m[id].(inTried := true)];
      && TriedOk(env, key, m', tried[c := id]) && NewOk(env, key, m', new_, {})
      && |Tried(m')| == |Tried(m)| + 1 && |NonTried(m')| == |NonTried(m)| - 1
  {
    var c := TriedSlot(env, key, m[id].addr.service);
    var m' := m[id := m[id].(inTried := true)];
    assert RefOk(m[id], |Slots(new_, id)|, true);
    forall d | d in new_ ensures new_[d] != id {
      assert new_[d] == id ==> d in Slots(new_, id);
    }
    forall j | j in m' && !m'[j].inTried ensures RefOk(m'[j], |Slots(new_, j)|, false) {
      assert RefOk(m[j], |Slots(new_, j)|, j in {id});
    }
    assert Tried(m') == Tried(m) + {id} && NonTried(m') == NonTried(m) - {id};
  }

  lemma LimboNotPlaced(env: Env, key: nat, m: Infos, new_: Table, limbo: set<int>, id: int)
    requires NewOk(env, key, m, new_, limbo) && id in limbo
    ensures forall c | c in new_ :: new_[c] != id
  {
    assert RefOk(m[id], |Slots(new_, id)|, true);
    forall c | c in new_ ensures new_[c] != id {
      assert new_[c] == id ==> c in Slots(new_, id);
    }
  }

  lemma UnscrubbedFacts(env: Env, key: nat, m: Infos, new_: Table, id: int)
    requires NewOk(env, key, m, new_, {}) && id in m && !m[id].inTried
    ensures Scrub(new_, id, 0) == new_ && m[id].refCount == |Slots(new_, id)| > 0
  {
    assert RefOk(m[id], |Slots(new_, id)|, false);
  }

  lemma BackEvictedIntro(m: Infos, m2: Infos, ev: int, lost: int)
    requires ev in m && m[ev].refCount == 0 && m[ev].inTried && ev != lost
    requires var m1 := m[ev := m[ev].(inTried := false)];
             if lost == -1 then m2 == m1 else LostReference(m1, m2, lost)
    ensures ev in m2 && BackEvicted(m, m2[ev := m2[ev].(refCount := 1)], ev, lost)
  {
    var m1 := m[ev := m[ev].(inTried := false)];
    var m' := m2[ev := m2[ev].(refCount := 1)];
    if lost != -1 {
      assert m1[ev].Core() == m2[ev].Core();
      forall id | id != lost && id != ev
        ensures (id in m <==> id in m') && (id in m ==> m[id].Core() == m'[id].Core())
      {
        assert (id in m1 <==> id in m2) && (id in m1 ==> m1[id].Core() == m2[id].Core());
      }
    }
  }

  lemma MovedIntro(env: Env, key: nat, m: Infos, tried: Table, new_: Table, m2: Infos, tried2: Table, new2: Table,
                   id: int)
    requires id in m && !m[id].inTried
    requires var c := TriedSlot(env, key, m[id].addr.service);
             var scrubbed := Scrub(new_, id, NEW_BUCKET_COUNT);
             var m1 := m[id := m[id].(refCount := 0)];
             && c in tried && tried2 == tried[c := -1]
             && if tried[c] == -1 then new2 == scrubbed && m2 == m1
                else
                  && tried[c] in m && tried[c] != id
                  && var slot := NewSlot(env, key, m[tried[c]]);
                  && slot in scrubbed && scrubbed[slot] != id && new2 == scrubbed[slot := tried[c]]
                  && BackEvicted(m1, m2, tried[c], scrubbed[slot])
    ensures id in m2 && m2[id].Core() == m[id].Core().(refCount := 0)
    ensures MovedToTried(env, key, m, tried, new_, m2[id := m2[id].(inTried := true)],
                         tried2[TriedSlot(env, key, m[id].addr.service) := id], new2, id)
  {
    var c := TriedSlot(env, key, m[id].addr.service);
    if tried[c] != -1 {
      var m1 := m[id := m[id].(refCount := 0)];
      var slot := NewSlot(env, key, m[tried[c]]);
      WithoutKeeps(m1, m2, tried[c], Scrub(new_, id, NEW_BUCKET_COUNT)[slot], id);
      assert m1 - {id} == m - {id};
      assert m2[id := m2[id].(inTried := true)] - {id} == m2 - {id};
    }
  }

  lemma WithoutKeeps(m: Infos, m': Infos, ev: int, lost: int, id: int)
    requires BackEvicted(m, m', ev, lost) && id != ev && id != lost && id in m
    ensures id in m' && m'[id].Core() == m[id].Core() && BackEvicted(m - {id}, m' - {id}, ev, lost)
  {
    if lost == -1 {
      assert SameExcept(m, m', {ev});
      assert (id in m <==> id in m') && (id in m ==> m[id].Core() == m'[id].Core());
    } else {
      var n, n' := m - {ev}, m' - {ev};
      assert (id in n <==> id in n') && (id in n ==> n[id].Core() == n'[id].Core());
      assert m - {id} - {ev} == n - {id} && m' - {id} - {ev} == n' - {id};
      forall j | j !in {lost}
        ensures (j in n - {id} <==> j in n' - {id}) && (j in n - {id} ==> n[j].Core() == n'[j].Core())
      {
        assert (j in n <==> j in n') && (j in n ==> n[j].Core() == n'[j].Core());
      }
    }
  }
}
