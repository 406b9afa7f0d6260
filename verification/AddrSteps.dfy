/**
 What the public operations of the address manager do, as relations between the entries and
 tables before and after, and the facts that follow from them for every run.
 */
module AddrSteps {
  import opened Collections
  import opened Powers
  import opened AddrTypes
  import opened AddrInvariant

  /** An entry may be updated like this in place without touching any index or table. */
  ghost predicate SamePlace(info: AddrInfo, info': AddrInfo) {
    && info'.addr.service == info.addr.service
    && info'.source == info.source
    && info'.refCount == info.refCount && info'.inTried == info.inTried && info'.randomPos == info.randomPos
  }

  lemma UpdateKeeps(env: Env, key: nat, m: Infos, tried: Table, new_: Table, limbo: set<int>, id: int, info: AddrInfo)
    requires TriedOk(env, key, m, tried) && NewOk(env, key, m, new_, limbo)
    requires id in m && SamePlace(m[id], info)
    ensures TriedOk(env, key, m[id := info], tried) && NewOk(env, key, m[id := info], new_, limbo)
    ensures Tried(m[id := info]) == Tried(m) && NonTried(m[id := info]) == NonTried(m)
  {
  }

  // ---- Good_ ----

  /** The effect of Good_ on an entry `id` whose service is exactly the given one. */
  ghost predicate GoodStep(env: Env, key: nat, m: Infos, tried: Table, new_: Table, collisions: set<int>,
                           m': Infos, tried': Table, new_': Table, collisions': set<int>,
                           id: int, testBeforeEvict: bool, time: int)
    requires id in m
  {
    var m1 := m[id := MarkedGood(m[id], time)];
    var slot := TriedSlot(env, key, m[id].addr.service);
    if m[id].inTried then
      m' == m1 && tried' == tried && new_' == new_ && collisions' == collisions
    else if testBeforeEvict && slot in tried && tried[slot] != -1 then
      && m' == m1 && tried' == tried && new_' == new_
      && collisions' == if |collisions| < SET_TRIED_COLLISION_SIZE then collisions + {id} else collisions
    else
      MovedToTried(env, key, m1, tried, new_, m', tried', new_', id) && collisions' == collisions
  }

  // ---- Add_ ----

  /** `id` claims the new-table cell its address and `source` give, or is dropped. */
  ghost predicate PlaceStep(env: Env, key: nat, m: Infos, new_: Table, m': Infos, new_': Table,
                            id: int, source: NetAddr, now: int)
  {
    && id in m
    && var slot := NewSlotFrom(env, key, m[id].addr.service, source);
    && slot in new_
    && var cell := new_[slot];
    if cell == id then
      m' == m && new_' == new_
    else if cell == -1 || (cell in m
                           && (IsTerrible(m[cell], now) || (m[cell].refCount > 1 && m[id].refCount == 0))) then
      && new_' == new_[slot := id]
      && Replaced(m, m', id, m[id].(refCount := m[id].refCount + 1), cell)
    else
      && new_' == new_
      && if m[id].refCount == 0 then id !in m' && SameExcept(m, m', {id}) else m' == m
  }

  ghost predicate AddStep(env: Env, key: nat, m: Infos, byAddr: map<NetAddr, int>, new_: Table, m': Infos, new_': Table,
                          addr: Address, source: NetAddr, penalty: int, now: int, later: int, rnd: nat,
                          freshId: int, freshPos: int, added: bool)
  {
    var penalty := if addr.service.net == source then 0 else penalty;
    if !env.routable(addr.service.net) then
      !added && m' == m && new_' == new_
    else if addr.service.net in byAddr then
      var id := byAddr[addr.service.net];
      && !added && id in m
      && var info := Refreshed(m[id], addr, penalty, now);
      if WantsReference(info, addr, rnd) then PlaceStep(env, key, m[id := info], new_, m', new_', id, source, later)
      else m' == m[id := info] && new_' == new_
    else
      && added
      && var info := Announced(addr, source, penalty).(randomPos := freshPos);
      PlaceStep(env, key, m[freshId := info], new_, m', new_', freshId, source, later)
  }

  /**
   An announcement of a host takes a cell from at most one other entry, which loses one reference, or goes with its
   last: one not worth keeping, or one with more references while the host was not known.
   */
  ghost predicate Displaces(m: Infos, m': Infos, host: NetAddr, now: int) {
    exists lost :: Displaced(m, m', host, now, lost)
  }

  ghost predicate Displaced(m: Infos, m': Infos, host: NetAddr, now: int, lost: int) {
    && (forall id | id != lost && (id in m ==> m[id].Net() != host) && (id in m' ==> m'[id].Net() != host) ::
          (id in m <==> id in m') && (id in m ==> m'[id].Core() == m[id].Core()))
    && (lost in m && m[lost].Net() != host ==>
          && !m[lost].inTried
          && (!Worthwhile(m[lost], now) || (m[lost].refCount > 1 && forall id | id in m :: m[id].Net() != host))
          && (lost in m' <==> m[lost].refCount > 1)
          && (lost in m' ==> m'[lost].Core() == m[lost].Core().(refCount := m[lost].refCount - 1)))
  }

  /** The cell goes to `id` if it is free, or its occupant not worth keeping or more referenced than an unknown host. */
  ghost predicate TakesCell(m: Infos, new_: Table, m': Infos, new_': Table, id: int, c: (int, int), known: bool,
                            now: int)
  {
    && c in new_
    && if new_[c] == -1 || new_[c] == id
          || (new_[c] in m && (!Worthwhile(m[new_[c]], now) || (!known && m[new_[c]].refCount > 1)))
       then new_' == new_[c := id] && id in m' else new_' == new_
  }

  /** A known entry, updated to `j`, is worth a further reference: an untried one with news, ever less often. */
  ghost predicate Eager(j: AddrInfo, refs: int, addr: Address, rnd: nat) {
    && !j.inTried && 0 <= refs < 8 && addr.time != 0 && (j.addr.time == 0 || addr.time > j.addr.time)
    && rnd % Pow2(refs) == 0
  }

  lemma {:induction false} FactorIs(refs: nat)
    ensures Factor(refs) == Pow2(refs)
  {
    if refs > 0 {
      FactorIs(refs - 1);
    }
  }

  lemma EagerIs(info: AddrInfo, j: AddrInfo, addr: Address, rnd: nat)
    requires j.Core() == info.Core().(refCount := j.refCount) && (!info.inTried ==> 1 <= info.refCount <= 8)
    ensures Eager(j, info.refCount, addr, rnd) <==> WantsReference(info, addr, rnd)
  {
    if !info.inTried {
      FactorIs(info.refCount);
    }
  }

  lemma PlaceTakes(env: Env, key: nat, m: Infos, new_: Table, m': Infos, new_': Table, id: int, source: NetAddr,
                   now: int)
    requires PlaceStep(env, key, m, new_, m', new_', id, source, now)
    ensures TakesCell(m, new_, m', new_', id, NewSlotFrom(env, key, m[id].addr.service, source), m[id].refCount !=
                                                                                                 0, now)
  {
    hide NewSlotFrom, IsTerrible, Worthwhile, SameExcept, LostReference;
    var cell := new_[NewSlotFrom(env, key, m[id].addr.service, source)];
    if cell in m {
      TerribleIs(m[cell], now);
    }
  }

  /** What claiming a cell does to the entries. */
  ghost predicate Claims(m: Infos, m': Infos, id: int, now: int, lost: int) {
    && id in m && SameExcept(m, m', {id, lost})
    && (id in m' ==> m'[id].Core() == m[id].Core().(refCount := m'[id].refCount)
                     && m[id].refCount <= m'[id].refCount <= m[id].refCount + 1)
    && (id !in m' ==> m[id].refCount == 0)
    && (lost in m && lost != id ==>
          && !m[lost].inTried && (!Worthwhile(m[lost], now) || (m[lost].refCount > 1 && m[id].refCount == 0))
          && (lost in m' <==> m[lost].refCount > 1)
          && (lost in m' ==> m'[lost].Core() == m[lost].Core().(refCount := m[lost].refCount - 1)))
  }

  lemma PlaceClaims(env: Env, key: nat, m: Infos, new_: Table, m': Infos, new_': Table, id: int, source: NetAddr,
                    now: int) returns (lost: int)
    requires PlaceStep(env, key, m, new_, m', new_', id, source, now) && NewPlaced(env, key, m, new_) && -1 !in m
    ensures Claims(m, m', id, now, lost)
    ensures m[id].refCount == 0 && (forall c | c in new_ :: new_[c] != id) && id in m' ==> m'[id].refCount == 1
  {
    hide NewSlotFrom, IsTerrible, Worthwhile, BucketPosition;
    var cell := new_[NewSlotFrom(env, key, m[id].addr.service, source)];
    lost := if m' == m || id !in m' then id else cell;
    if lost in m {
      TerribleIs(m[lost], now);
    }
    if lost == -1 {
      assert SameExcept(m, m', {id});
    } else if lost != id {
      assert LostReference(m - {id}, m' - {id}, lost);
      forall j | j != id && j != lost
        ensures (j in m <==> j in m') && (j in m ==> m[j].Core() == m'[j].Core())
      {
        assert (j in m - {id} <==> j in m' - {id}) && (j in m - {id} ==> (m - {id})[j].Core() == (m' - {id})[j].Core());
      }
    }
  }

  /** An announcement of a known host, said of the entries. */
  lemma KnownMeans(env: Env, key: nat, m: Infos, byAddr: map<NetAddr, int>, new_: Table, m': Infos, new_': Table,
                   addr: Address, source: NetAddr, penalty: int, now: int, later: int, rnd: nat)
    requires addr.service.net in byAddr && AddrOk(m, byAddr) && NewOk(env, key, m, new_, {})
    requires AddStep(env, key, m, byAddr, new_, m', new_', addr, source, penalty, now, later, rnd, 0, 0, false)
    requires env.routable(addr.service.net)
    ensures var id := byAddr[addr.service.net];
            && id in m && id in m'
            && UpdatedEntry(m[id], m'[id], addr, if addr.service.net == source then 0 else penalty, now)
            && (if Eager(m'[id], m[id].refCount, addr, rnd)
                then TakesCell(m, new_, m', new_', id, NewSlotFrom(env, key, m[id].addr.service, source), true, later)
                else new_' == new_)
    ensures Displaces(m, m', addr.service.net, later)
  {
    hide PlaceStep, NewOk, Worthwhile, NewPlaced, Displaces, SameExcept, UpdatedEntry, WantsReference,
      TakesCell, Eager, NewSlotFrom;
    var id, pen := byAddr[addr.service.net], if addr.service.net == source then 0 else penalty;
    assert MappedBy(m[id], id, byAddr);
    var info := Refreshed(m[id], addr, pen, now);
    var m1 := m[id := info];
    PlacedOnly(env, key, m, new_, id, info);
    var lost := id;
    if WantsReference(info, addr, rnd) {
      UntriedWants(info, addr, rnd);
      lost := PlaceClaims(env, key, m1, new_, m', new_', id, source, later);
      PlaceTakes(env, key, m1, new_, m', new_', id, source, later);
      OthersTake(m, new_, m', new_', id, info, NewSlotFrom(env, key, m[id].addr.service, source), true, later);
    }
    if !WantsReference(info, addr, rnd) {
      ClaimsNothing(m1, id, later);
    }
    ClaimsUpdate(m[id], m'[id], addr, pen, now, rnd);
    EagerIs(info, m'[id], addr, rnd);
    ClaimsDisplace(m, byAddr, m1, m', id, later, lost);
  }

  lemma ClaimsUpdate(i: AddrInfo, j: AddrInfo, addr: Address, penalty: int, now: int, rnd: nat)
    requires var info := Refreshed(i, addr, penalty, now);
             && j.Core() == info.Core().(refCount := j.refCount) && i.refCount <= j.refCount <= i.refCount + 1
             && (j.refCount > i.refCount ==> WantsReference(info, addr, rnd) && i.refCount < 8)
    ensures UpdatedEntry(i, j, addr, penalty, now)
  {
  }

  lemma ClaimsNothing(m: Infos, id: int, now: int)
    requires id in m
    ensures Claims(m, m, id, now, id)
  {
  }

  lemma OthersTake(m: Infos, new_: Table, m': Infos, new_': Table, id: int, info: AddrInfo, c: (int, int), known: bool,
                   now: int)
    requires TakesCell(m[id := info], new_, m', new_', id, c, known, now)
    ensures TakesCell(m, new_, m', new_', id, c, known, now)
  {
    hide Worthwhile;
  }

  lemma PlacedOnly(env: Env, key: nat, m: Infos, new_: Table, id: int, info: AddrInfo)
    requires NewOk(env, key, m, new_, {}) && id in m && SamePlace(m[id], info)
    ensures NewPlaced(env, key, m[id := info], new_) && -1 !in m[id := info]
    ensures !m[id].inTried ==> 1 <= m[id].refCount <= 8
  {
    if !m[id].inTried {
      assert RefOk(m[id], |Slots(new_, id)|, false);
    }
  }

  lemma ClaimsDisplace(m: Infos, byAddr: map<NetAddr, int>, m1: Infos, m': Infos, id: int, now: int, lost: int)
    requires AddrOk(m, byAddr) && Claims(m1, m', id, now, lost) && id in m1 && m1 == m[id := m1[id]]
    requires if id in m then m[id].Net() == m1[id].Net() else m1[id].Net() !in byAddr
    requires lost != id && m1[id].refCount == 0 ==> id !in m
    ensures Displaces(m, m', m1[id].Net(), now)
  {
    hide Worthwhile;
    var host := m1[id].Net();
    forall j | j in m ensures m[j].Net() == host <==> j == id {
      assert MappedBy(m[j], j, byAddr);
    }
    forall j | j != lost && j != id
      ensures (j in m <==> j in m') && (j in m ==> m'[j].Core() == m[j].Core())
    {
      assert (j in m1 <==> j in m') && (j in m1 ==> m1[j].Core() == m'[j].Core());
    }
    assert Displaced(m, m', host, now, lost);
  }

  /** An announcement of an unknown host, said of the entries. */
  lemma FreshMeans(env: Env, key: nat, m: Infos, byAddr: map<NetAddr, int>, new_: Table, m': Infos, new_': Table,
                   addr: Address, source: NetAddr, penalty: int, now: int, later: int, rnd: nat,
                   freshId: int, freshPos: int)
    requires addr.service.net !in byAddr && AddrOk(m, byAddr) && NewOk(env, key, m, new_, {})
    requires AddStep(env, key, m, byAddr, new_, m', new_', addr, source, penalty, now, later, rnd, freshId, freshPos,
                     true)
    requires env.routable(addr.service.net) && freshId !in m && freshId >= 0
    ensures freshId in m' ==>
              FreshEntry(m'[freshId], addr, source, if addr.service.net == source then 0 else penalty)
    ensures TakesCell(m, new_, m', new_', freshId, NewSlotFrom(env, key, addr.service, source), false, later)
    ensures Displaces(m, m', addr.service.net, later)
  {
    hide PlaceStep, Worthwhile, TakesCell, NewSlotFrom;
    var pen := if addr.service.net == source then 0 else penalty;
    var m1 := m[freshId := Announced(addr, source, pen).(randomPos := freshPos)];
    var lost := PlaceClaims(env, key, m1, new_, m', new_', freshId, source, later);
    PlaceTakes(env, key, m1, new_, m', new_', freshId, source, later);
    OthersTake(m, new_, m', new_', freshId, m1[freshId], NewSlotFrom(env, key, addr.service, source), false, later);
    ClaimsDisplace(m, byAddr, m1, m', freshId, later, lost);
  }

  lemma AddMeans(env: Env, key: nat, m: Infos, byAddr: map<NetAddr, int>, random: seq<int>, new_: Table,
                 m': Infos, new_': Table,
                 addr: Address, source: NetAddr, penalty: int, now: int, later: int, rnd: nat,
                 freshId: int, freshPos: int, added: bool)
    requires IndexOk(m, byAddr, random, freshId) && NewOk(env, key, m, new_, {})
    requires AddStep(env, key, m, byAddr, new_, m', new_', addr, source, penalty, now, later, rnd, freshId, freshPos,
                     added)
    ensures added <==> env.routable(addr.service.net) && forall id | id in m :: m[id].Net() != addr.service.net
    ensures added ==>
              && TakesCell(m, new_, m', new_', freshId, NewSlotFrom(env, key, addr.service, source), false, later)
              && (freshId in m' ==>
                    FreshEntry(m'[freshId], addr, source, if addr.service.net == source then 0 else penalty))
    ensures env.routable(addr.service.net) ==>
              forall id | id in m && m[id].Net() == addr.service.net ::
                && id in m'
                && UpdatedEntry(m[id], m'[id], addr, if addr.service.net == source then 0 else penalty, now)
                && if Eager(m'[id], m[id].refCount, addr, rnd)
                   then TakesCell(m, new_, m', new_', id, NewSlotFrom(env, key, m[id].addr.service, source), true,
                                  later)
                   else new_' == new_
    ensures if env.routable(addr.service.net) then Displaces(m, m', addr.service.net, later)
            else m' == m && new_' == new_
  {
    hide PlaceStep, NewOk, Displaces, UpdatedEntry, FreshEntry, WantsReference, Refreshed, Announced, TakesCell,
      Eager, NewSlotFrom;
    var host := addr.service.net;
    forall id | id in m ensures m[id].Net() == host <==> host in byAddr && id == byAddr[host] {
      assert MappedBy(m[id], id, byAddr);
    }
    if env.routable(host) {
      if host in byAddr {
        KnownMeans(env, key, m, byAddr, new_, m', new_', addr, source, penalty, now, later, rnd);
      } else {
        FreshMeans(env, key, m, byAddr, new_, m', new_', addr, source, penalty, now, later, rnd, freshId, freshPos);
      }
    }
  }

  /** What Good_ does to the entry. */
  lemma GoodMeans(env: Env, key: nat, m: Infos, tried: Table, new_: Table, collisions: set<int>,
                  m': Infos, tried': Table, new_': Table, collisions': set<int>,
                  id: int, testBeforeEvict: bool, time: int)
    requires id in m
    requires GoodStep(env, key, m, tried, new_, collisions, m', tried', new_', collisions', id, testBeforeEvict, time)
    ensures id in m' && GoodEntry(m[id], m'[id], time)
    ensures m'[id].inTried <==> m[id].inTried || !testBeforeEvict || !Occupied(env, key, m[id], tried)
    ensures collisions' == if !m'[id].inTried && |collisions| < 10 then collisions + {id} else collisions
  {
    hide BackEvicted, Scrub, SameExcept;
  }

  /** An untried entry that worked, without the test, takes its cell of the tried table. */
  lemma GoodTakes(env: Env, key: nat, m: Infos, tried: Table, new_: Table, collisions: set<int>,
                  m': Infos, tried': Table, new_': Table, collisions': set<int>, id: int, time: int)
    requires id in m
    requires GoodStep(env, key, m, tried, new_, collisions, m', tried', new_', collisions', id, false, time)
    ensures !m[id].inTried ==>
              var c := TriedSlot(env, key, m[id].addr.service);
              c in tried && tried' == tried[c := id]
  {
    hide BackEvicted, Scrub, SameExcept;
  }

  // ---- what no step ever does ----

  /** Entries keep their address, origin and history; only `promoted` ones can newly be tried. */
  ghost predicate OnlyMoved(m: Infos, m': Infos, promoted: set<int>) {
    forall id | id in m' :: id in m && SameRecord(m[id], m'[id]) && (m'[id].inTried ==> m[id].inTried || id in promoted)
  }

  ghost predicate SameRecord(i: AddrInfo, j: AddrInfo) {
    && i.addr == j.addr && i.source == j.source && i.lastTry == j.lastTry && i.lastSuccess == j.lastSuccess
    && i.lastCountAttempt == j.lastCountAttempt && i.attempts == j.attempts
  }

  lemma SameExceptOnlyMoves(m: Infos, m': Infos, id: int)
    requires SameExcept(m, m', {id})
    requires id in m' ==> id in m && SameRecord(m[id], m'[id])
    ensures OnlyMoved(m, m', {id})
  {
    forall j | j in m' && j != id ensures j in m && SameRecord(m[j], m'[j]) && m'[j].inTried == m[j].inTried {
      assert (j in m <==> j in m') && (j in m ==> m[j].Core() == m'[j].Core());
    }
  }

  lemma ReplacedOnlyMoves(m: Infos, m': Infos, id: int, info: AddrInfo, lost: int)
    requires id in m && Replaced(m, m', id, info, lost) && SameRecord(m[id], info)
    ensures OnlyMoved(m, m', if info.inTried then {id} else {})
  {
    assert m'[id].Core() == info.Core();
    if lost == -1 {
      SameExceptOnlyMoves(m, m', id);
    } else {
      var n, n' := m - {id}, m' - {id};
      forall j | j in m' && j != id ensures j in m && SameRecord(m[j], m'[j]) && m'[j].inTried == m[j].inTried {
        assert j in n';
        if j == lost {
          assert n'[j].Core() == n[j].Core().(refCount := n[j].refCount - 1);
        } else {
          assert (j in n <==> j in n') && (j in n ==> n[j].Core() == n'[j].Core());
        }
      }
    }
  }

  lemma MovedOnlyMoves(env: Env, key: nat, m: Infos, tried: Table, new_: Table, m': Infos, tried': Table, new_': Table,
                       id: int)
    requires MovedToTried(env, key, m, tried, new_, m', tried', new_', id)
    ensures OnlyMoved(m, m', {id})
    ensures forall c | c in tried && tried[c] != -1 && id != -1 :: c in tried' && tried'[c] != -1
  {
    hide Scrub, TriedSlot, NewSlot;
    var c := TriedSlot(env, key, m[id].addr.service);
    assert SameRecord(m[id], m'[id]);
    if tried[c] == -1 {
      SameExceptOnlyMoves(m, m', id);
    } else {
      var ev := tried[c];
      var n, n' := m - {id}, m' - {id};
      var lost := Scrub(new_, id, NEW_BUCKET_COUNT)[NewSlot(env, key, m[ev])];
      ReplacedOnlyMoves(n, n', ev, n[ev].(inTried := false, refCount := 1), lost);
      forall j | j in m' && j != id ensures j in m && SameRecord(m[j], m'[j]) && (m'[j].inTried ==> m[j].inTried) {
        assert j in n';
      }
    }
  }

  lemma PlaceOnlyMoves(env: Env, key: nat, m: Infos, new_: Table, m': Infos, new_': Table, id: int, source: NetAddr,
                       now: int)
    requires PlaceStep(env, key, m, new_, m', new_', id, source, now) && !m[id].inTried
    ensures OnlyMoved(m, m', {})
  {
    hide NewSlotFrom, IsTerrible, SameExcept, LostReference;
    var slot := NewSlotFrom(env, key, m[id].addr.service, source);
    if m' != m {
      if id in m' {
        ReplacedOnlyMoves(m, m', id, m[id].(refCount := m[id].refCount + 1), new_[slot]);
      } else {
        SameExceptOnlyMoves(m, m', id);
      }
    }
  }

  lemma OnlyMovedTimes(m: Infos, m': Infos, promoted: set<int>)
    requires OnlyMoved(m, m', promoted) && TimesOk(m)
    requires forall id | id in promoted && id in m :: m[id].lastSuccess != 0
    ensures TimesOk(m')
  {
    forall id | id in m' ensures TimeOk(m'[id]) {
      assert TimeOk(m[id]);
    }
  }

  // ---- pending collisions ----

  /** Every recorded collision concerns an id given out, and its tried cell is occupied. */
  ghost predicate CollisionsOk(env: Env, key: nat, m: Infos, tried: Table, idCount: int, collisions: set<int>) {
    forall id | id in collisions :: 0 <= id < idCount && (id in m ==> Occupied(env, key, m[id], tried))
  }

  ghost predicate Occupied(env: Env, key: nat, info: AddrInfo, tried: Table) {
    var c := TriedSlot(env, key, info.addr.service);
    c in tried && tried[c] != -1
  }

  /** Ids are not reused, entries keep their service, occupied tried cells stay occupied. */
  ghost predicate Onward(m: Infos, tried: Table, idCount: int, m': Infos, tried': Table, idCount': int) {
    && idCount <= idCount'
    && (forall id | id in m' && id < idCount :: id in m && m'[id].addr.service == m[id].addr.service)
    && (forall c | c in tried && tried[c] != -1 :: c in tried' && tried'[c] != -1)
  }

  lemma OnwardKeepsCollisions(env: Env, key: nat, m: Infos, tried: Table, idCount: int,
                              m': Infos, tried': Table, idCount': int, collisions: set<int>)
    requires Onward(m, tried, idCount, m', tried', idCount')
    requires CollisionsOk(env, key, m, tried, idCount, collisions)
    ensures CollisionsOk(env, key, m', tried', idCount', collisions)
  {
    forall id | id in collisions ensures id in m' ==> Occupied(env, key, m'[id], tried') {
      if id in m' {
        assert Occupied(env, key, m[id], tried);
      }
    }
  }

  lemma OnwardRefl(m: Infos, tried: Table, idCount: int)
    ensures Onward(m, tried, idCount, m, tried, idCount)
  {
  }

  lemma UpdateOnward(m: Infos, tried: Table, idCount: int, id: int, info: AddrInfo)
    requires id in m && info.addr.service == m[id].addr.service
    ensures Onward(m, tried, idCount, m[id := info], tried, idCount)
  {
  }

  lemma UpdateTimes(m: Infos, id: int, info: AddrInfo)
    requires TimesOk(m) && TimeOk(info)
    ensures TimesOk(m[id := info])
  {
  }

  lemma GoodMoves(env: Env, key: nat, m: Infos, tried: Table, new_: Table, idCount: int,
                  m': Infos, tried': Table, new_': Table, id: int, time: int)
    requires id in m && id >= 0
    requires MovedToTried(env, key, m[id := MarkedGood(m[id], time)], tried, new_, m', tried', new_', id)
    ensures Onward(m, tried, idCount, m', tried', idCount)
    ensures TimesOk(m) && time > 0 ==> TimesOk(m')
  {
    hide MovedToTried;
    var m1 := m[id := MarkedGood(m[id], time)];
    MovedOnlyMoves(env, key, m1, tried, new_, m', tried', new_', id);
    if TimesOk(m) && time > 0 {
      UpdateTimes(m, id, MarkedGood(m[id], time));
      OnlyMovedTimes(m1, m', {id});
    }
  }

  /** Whatever Good_ does: ids, services and occupied tried cells last, times and collisions stay sane. */
  lemma GoodStepKeeps(env: Env, key: nat, m: Infos, tried: Table, new_: Table, collisions: set<int>,
                      m': Infos, tried': Table, new_': Table, collisions': set<int>,
                      id: int, testBeforeEvict: bool, time: int, idCount: int)
    requires id in m && 0 <= id < idCount
    requires GoodStep(env, key, m, tried, new_, collisions, m', tried', new_', collisions', id, testBeforeEvict, time)
    ensures Onward(m, tried, idCount, m', tried', idCount)
    ensures TimesOk(m) && time > 0 ==> TimesOk(m')
    ensures CollisionsOk(env, key, m, tried, idCount, collisions) ==>
              CollisionsOk(env, key, m', tried', idCount, collisions')
  {
    hide MovedToTried, TriedSlot, Onward;
    var m1 := m[id := MarkedGood(m[id], time)];
    var slot := TriedSlot(env, key, m[id].addr.service);
    if m[id].inTried || (testBeforeEvict && slot in tried && tried[slot] != -1) {
      UpdateOnward(m, tried, idCount, id, MarkedGood(m[id], time));
      if TimesOk(m) && time > 0 {
        UpdateTimes(m, id, MarkedGood(m[id], time));
      }
      if !m[id].inTried {
        assert Occupied(env, key, m1[id], tried);
      }
    } else {
      GoodMoves(env, key, m, tried, new_, idCount, m', tried', new_', id, time);
    }
    if CollisionsOk(env, key, m, tried, idCount, collisions) {
      OnwardKeepsCollisions(env, key, m, tried, idCount, m', tried', idCount, collisions);
    }
  }

  lemma RefreshedPlace(info: AddrInfo, addr: Address, penalty: int, now: int)
    ensures SamePlace(info, Refreshed(info, addr, penalty, now))
  {
  }

  lemma ReplacedIntro(m: Infos, m2: Infos, id: int, lost: int)
    requires id in m && id != lost
    requires if lost == -1 then m2 == m else LostReference(m, m2, lost)
    ensures id in m2
    ensures Replaced(m, m2[id := m2[id].(refCount := m2[id].refCount + 1)], id, m[id].(refCount := m[id].refCount + 1),
                     lost)
  {
    var m' := m2[id := m2[id].(refCount := m2[id].refCount + 1)];
    if lost != -1 {
      assert m[id].Core() == m2[id].Core();
      assert m' - {id} == m2 - {id};
      forall j | j != lost && j != id
        ensures (j in m <==> j in m2) && (j in m ==> m[j].Core() == m2[j].Core())
      {
      }
    }
  }

  lemma AddStepKeeps(env: Env, key: nat, m: Infos, byAddr: map<NetAddr, int>, new_: Table, m': Infos, new_': Table,
                     addr: Address, source: NetAddr, penalty: int, now: int, later: int, rnd: nat,
                     freshId: int, freshPos: int, added: bool, tried: Table, idCount': int)
    requires AddStep(env, key, m, byAddr, new_, m', new_', addr, source, penalty, now, later, rnd, freshId, freshPos,
                     added)
    requires freshId <= idCount'
    ensures Onward(m, tried, freshId, m', tried, idCount')
    ensures TimesOk(m) ==> TimesOk(m')
  {
    hide WantsReference, PlaceStep;
    var penalty' := if addr.service.net == source then 0 else penalty;
    if env.routable(addr.service.net) {
      if addr.service.net in byAddr {
        var id := byAddr[addr.service.net];
        var info := Refreshed(m[id], addr, penalty', now);
        var m1 := m[id := info];
        if WantsReference(info, addr, rnd) {
          assert !info.inTried by { UntriedWants(info, addr, rnd); }
          PlaceOnlyMoves(env, key, m1, new_, m', new_', id, source, later);
          if TimesOk(m) {
            assert TimesOk(m1);
            OnlyMovedTimes(m1, m', {});
          }
        } else if TimesOk(m) {
          assert TimesOk(m1);
        }
      } else {
        var info := Announced(addr, source, penalty').(randomPos := freshPos);
        var m1 := m[freshId := info];
        PlaceOnlyMoves(env, key, m1, new_, m', new_', freshId, source, later);
        if TimesOk(m) {
          assert TimesOk(m1);
          OnlyMovedTimes(m1, m', {});
        }
      }
    }
  }

  lemma UntriedWants(info: AddrInfo, addr: Address, rnd: nat)
    requires WantsReference(info, addr, rnd)
    ensures !info.inTried && info.refCount != NEW_BUCKETS_PER_ADDRESS
  {
  }

  // ---- GetAddr_ ----

  /** Different entries of the map. */
  ghost predicate DistinctIds(m: Infos, seen: seq<int>) {
    Distinct(seen) && forall i | 0 <= i < |seen| :: seen[i] in m
  }

  /** The addresses of the entries looked at that were not terrible at their own reading of the clock, in order. */
  ghost function Offered(m: Infos, seen: seq<int>, clock: nat -> int): seq<Address>
    requires DistinctIds(m, seen)
  {
    if seen == [] then []
    else
      var k := |seen| - 1;
      Offered(m, seen[..k], clock) + (if IsTerrible(m[seen[k]], clock(k)) then [] else [m[seen[k]].addr])
  }

  /** The limit of GetAddr_: a percentage of the entries, and not more than a maximum. */
  function MaxAddresses(entries: nat): (n: nat)
    ensures n <= 2500 && 100 * n <= 23 * entries && (n == 2500 || 100 * (n + 1) > 23 * entries)
  {
    var n := GETADDR_MAX_PCT * entries / 100;
    if n > GETADDR_MAX then GETADDR_MAX else n
  }

  lemma NoneOffered(m: Infos, random: seq<int>, clock: nat -> int)
    ensures DistinctIds(m, random[..0]) && Offered(m, random[..0], clock) == []
  {
  }

  lemma SameAt(m: Infos, m': Infos, id: int)
    requires SameExcept(m, m', {})
    ensures (id in m <==> id in m') && (id in m ==> m[id].Core() == m'[id].Core())
  {
  }

  /** One more entry is looked at, in a map that differs in positions only. */
  lemma OfferStep(m: Infos, m': Infos, random: seq<int>, idCount: int, n: nat, clock: nat -> int)
    requires SameExcept(m, m', {}) && RandomOk(m', random, idCount) && n < |random|
    ensures DistinctIds(m, random[..n]) && DistinctIds(m, random[..n + 1]) && random[n] in m'
    ensures Offered(m, random[..n + 1], clock) ==
            Offered(m, random[..n], clock) + (if IsTerrible(m'[random[n]], clock(n)) then [] else [m'[random[n]].addr])
  {
    forall k | 0 <= k < |random| ensures random[k] in m && random[k] in m' && m'[random[k]].randomPos == k {
      SameAt(m, m', random[k]);
    }
    var id := random[n];
    SameAt(m, m', id);
    assert m[id].addr == m'[id].addr && IsTerrible(m[id], clock(n)) == IsTerrible(m'[id], clock(n));
    assert random[..n + 1][..n] == random[..n];
  }

  /** The list of all entries has every entry. */
  lemma AllSeen(m: Infos, m': Infos, random: seq<int>, idCount: int)
    requires SameExcept(m, m', {}) && RandomOk(m', random, idCount)
    ensures DistinctIds(m, random) && forall id | id in m :: id in random
  {
    forall k | 0 <= k < |random| ensures random[k] in m && random[k] in m' && m'[random[k]].randomPos == k {
      SameAt(m, m', random[k]);
    }
    forall id | id in m ensures id in random {
      SameAt(m, m', id);
      assert random[m'[id].randomPos] == id;
    }
  }

  /** What is offered comes from an entry looked at. */
  lemma {:induction false} OfferedFrom(m: Infos, seen: seq<int>, clock: nat -> int, a: Address)
    requires DistinctIds(m, seen) && a in Offered(m, seen, clock)
    ensures exists k: nat :: k < |seen| && m[seen[k]].addr == a && !IsTerrible(m[seen[k]], clock(k))
  {
    var k := |seen| - 1;
    if a in Offered(m, seen[..k], clock) {
      OfferedFrom(m, seen[..k], clock, a);
      var i: nat :| i < k && m[seen[..k][i]].addr == a && !IsTerrible(m[seen[..k][i]], clock(i));
      assert m[seen[i]].addr == a;
    } else {
      assert m[seen[k]].addr == a;
    }
  }

  /** An entry looked at is offered exactly if it was worth it then. */
  lemma {:induction false} OfferedExactly(m: Infos, byAddr: map<NetAddr, int>, seen: seq<int>, clock: nat -> int,
                                          k: nat)
    requires DistinctIds(m, seen) && AddrOk(m, byAddr) && k < |seen|
    ensures m[seen[k]].addr in Offered(m, seen, clock) <==> Worthwhile(m[seen[k]], clock(k))
  {
    hide IsTerrible, Worthwhile, AddrOk;
    TerribleIs(m[seen[k]], clock(k));
    var n := |seen| - 1;
    if k < n {
      OfferedExactly(m, byAddr, seen[..n], clock, k);
      OtherEntries(m, byAddr, seen, k, n);
    } else if m[seen[n]].addr in Offered(m, seen[..n], clock) {
      OfferedFrom(m, seen[..n], clock, m[seen[n]].addr);
      var h: nat :| h < n && m[seen[..n][h]].addr == m[seen[n]].addr;
      OtherEntries(m, byAddr, seen, h, n);
    }
  }

  lemma OfferedAll(m: Infos, byAddr: map<NetAddr, int>, seen: seq<int>, clock: nat -> int)
    requires DistinctIds(m, seen) && AddrOk(m, byAddr)
    ensures forall k: nat | k < |seen| ::
              m[seen[k]].addr in Offered(m, seen, clock) <==> Worthwhile(m[seen[k]], clock(k))
    ensures forall a | a in Offered(m, seen, clock) :: exists k: nat :: k < |seen| && m[seen[k]].addr == a
  {
    hide AddrOk, Offered, Worthwhile, IsTerrible;
    forall k: nat | k < |seen|
      ensures m[seen[k]].addr in Offered(m, seen, clock) <==> Worthwhile(m[seen[k]], clock(k))
    {
      OfferedExactly(m, byAddr, seen, clock, k);
    }
    forall a | a in Offered(m, seen, clock) ensures exists k: nat :: k < |seen| && m[seen[k]].addr == a {
      OfferedFrom(m, seen, clock, a);
    }
  }

  lemma OtherEntries(m: Infos, byAddr: map<NetAddr, int>, seen: seq<int>, i: nat, j: nat)
    requires DistinctIds(m, seen) && AddrOk(m, byAddr) && i < j < |seen|
    ensures m[seen[i]].addr.service.net != m[seen[j]].addr.service.net
  {
    assert MappedBy(m[seen[i]], seen[i], byAddr) && MappedBy(m[seen[j]], seen[j], byAddr);
  }

  ghost predicate HostsApart(out: seq<Address>) {
    forall i, j | 0 <= i < j < |out| :: out[i].service.net != out[j].service.net
  }

  /** Different entries have different hosts, so nothing is offered twice. */
  lemma {:induction false} OfferedApart(m: Infos, byAddr: map<NetAddr, int>, seen: seq<int>, clock: nat -> int)
    requires DistinctIds(m, seen) && AddrOk(m, byAddr)
    ensures HostsApart(Offered(m, seen, clock))
  {
    if seen != [] {
      var k := |seen| - 1;
      OfferedApart(m, byAddr, seen[..k], clock);
      forall i | 0 <= i < |Offered(m, seen[..k], clock)|
        ensures Offered(m, seen[..k], clock)[i].service.net != m[seen[k]].addr.service.net
      {
        OtherHost(m, byAddr, seen, clock, Offered(m, seen[..k], clock)[i]);
      }
      HostsMore(Offered(m, seen[..k], clock), m[seen[k]].addr);
    }
  }

  lemma HostsMore(out: seq<Address>, a: Address)
    requires HostsApart(out) && forall i | 0 <= i < |out| :: out[i].service.net != a.service.net
    ensures HostsApart(out + []) && HostsApart(out + [a])
  {
  }

  lemma OtherHost(m: Infos, byAddr: map<NetAddr, int>, seen: seq<int>, clock: nat -> int, a: Address)
    requires seen != [] && DistinctIds(m, seen) && AddrOk(m, byAddr)
    requires a in Offered(m, seen[..|seen| - 1], clock)
    ensures a.service.net != m[seen[|seen| - 1]].addr.service.net
  {
    var k := |seen| - 1;
    OfferedFrom(m, seen[..k], clock, a);
    var h: nat :| h < k && m[seen[..k][h]].addr == a;
    OtherEntries(m, byAddr, seen, h, k);
  }

  lemma SameExceptRefl(m: Infos)
    ensures SameExcept(m, m, {})
  {
  }

  lemma SameExceptTrans(m0: Infos, m1: Infos, m2: Infos)
    requires SameExcept(m0, m1, {}) && SameExcept(m1, m2, {})
    ensures SameExcept(m0, m2, {})
  {
  }

  lemma SameCoreOnward(m: Infos, m': Infos, tried: Table, idCount: int)
    requires SameExcept(m, m', {})
    ensures Onward(m, tried, idCount, m', tried, idCount)
    ensures TimesOk(m) ==> TimesOk(m')
  {
    forall id | id in m' ensures id in m && m'[id].addr == m[id].addr {
      assert (id in m <==> id in m') && (id in m ==> m[id].Core() == m'[id].Core());
    }
    forall id | id in m' && TimesOk(m) ensures TimeOk(m'[id]) {
      assert id in m && m[id].Core() == m'[id].Core() && TimeOk(m[id]);
    }
  }

  // ---- ResolveCollisions_ ----

  /** The four answers to a pending collision of `id`, and the move they cause. */
  ghost predicate ResolveStep(env: Env, key: nat, m: Infos, tried: Table, new_: Table, collisions: set<int>,
                              m': Infos, tried': Table, new_': Table, collisions': set<int>,
                              id: int, clock: nat -> int, resolved: bool)
  {
    if id !in m then
      resolved && Untouched(m, tried, new_, collisions, m', tried', new_', collisions')
    else
      var slot := TriedSlot(env, key, m[id].addr.service);
      if !env.valid(m[id].Net()) then
        resolved && Untouched(m, tried, new_, collisions, m', tried', new_', collisions')
      else if slot in tried && tried[slot] != -1 then
        && tried[slot] in m
        && var rival := m[tried[slot]];
        if clock(0) - rival.lastSuccess < REPLACEMENT_HOURS * (60 * 60) then
          resolved && Untouched(m, tried, new_, collisions, m', tried', new_', collisions')
        else if clock(1) - rival.lastTry < REPLACEMENT_HOURS * (60 * 60) && clock(2) - rival.lastTry > 60 then
          resolved && GoodStep(env, key, m, tried, new_, collisions, m', tried', new_', collisions', id, false,
                               clock(3))
        else
          !resolved && Untouched(m, tried, new_, collisions, m', tried', new_', collisions')
      else
        resolved && GoodStep(env, key, m, tried, new_, collisions, m', tried', new_', collisions', id, false, clock(3))
  }

  /**
   The answer to a collision with an occupied cell: an occupant that worked within four hours keeps it; one that was
   tried within four hours, more than a minute ago, loses it; otherwise the collision stays pending.
   */
  ghost predicate Answer(rival: AddrInfo, clock: nat -> int, resolved: bool, replaced: bool) {
    && (clock(0) - rival.lastSuccess < 14400 ==> resolved && !replaced)
    && (clock(0) - rival.lastSuccess >= 14400 ==>
          (resolved <==> clock(1) - rival.lastTry < 14400 && clock(2) - rival.lastTry > 60) && (replaced <==> resolved))
  }

  ghost predicate Untouched(m: Infos, tried: Table, new_: Table, collisions: set<int>,
                            m': Infos, tried': Table, new_': Table, collisions': set<int>)
  {
    m' == m && tried' == tried && new_' == new_ && collisions' == collisions
  }

  /** What a resolution step works on. */
  datatype Snapshot = Snapshot(infos: Infos, tried: Table, new_: Table, collisions: set<int>)

  function Later(clock: nat -> int, ticks: nat): nat -> int { (k: nat) => clock(k + ticks) }

  /** The collisions `order` were answered one after the other, leading through `states`; those resolved are dropped. */
  ghost predicate Resolves(env: Env, key: nat, order: seq<int>, answers: seq<bool>, states: seq<Snapshot>,
                           clock: nat -> int) {
    && |order| == |answers| == |states| - 1
    && forall k: nat | k < |order| ::
         ResolvesAt(env, key, order[k], answers[k], states[k], states[k + 1], Later(clock, 4 * k))
  }

  ghost predicate ResolvesAt(env: Env, key: nat, id: int, resolved: bool, s: Snapshot, s': Snapshot,
                             clock: nat -> int) {
    && ResolveStep(env, key, s.infos, s.tried, s.new_, s.collisions, s'.infos, s'.tried, s'.new_, s.collisions, id,
                   clock, resolved)
    && s'.collisions == if resolved then s.collisions - {id} else s.collisions
  }

  lemma AnswerGiven(env: Env, key: nat, id: int, resolved: bool, s: Snapshot, s': Snapshot, clock: nat -> int)
    requires ResolveStep(env, key, s.infos, s.tried, s.new_, s.collisions, s'.infos, s'.tried, s'.new_, s.collisions,
                         id, clock, resolved)
    requires s'.collisions == if resolved then s.collisions - {id} else s.collisions
    ensures ResolvesAt(env, key, id, resolved, s, s', clock)
  {
  }

  lemma ResolvesMore(env: Env, key: nat, order: seq<int>, answers: seq<bool>, states: seq<Snapshot>, clock: nat -> int,
                     id: int, resolved: bool, s': Snapshot)
    requires Resolves(env, key, order, answers, states, clock)
    requires ResolvesAt(env, key, id, resolved, states[|order|], s', Later(clock, 4 * |order|))
    ensures Resolves(env, key, order + [id], answers + [resolved], states + [s'], clock)
  {
    hide ResolvesAt;
    forall k: nat | k < |order| + 1
      ensures ResolvesAt(env, key, (order + [id])[k], (answers + [resolved])[k], (states + [s'])[k],
                         (states + [s'])[k + 1], Later(clock, 4 * k))
    {
      if k == |order| {
      }
    }
  }

  lemma OnwardTrans(m0: Infos, t0: Table, m1: Infos, t1: Table, m2: Infos, t2: Table, idCount: int)
    requires Onward(m0, t0, idCount, m1, t1, idCount) && Onward(m1, t1, idCount, m2, t2, idCount)
    ensures Onward(m0, t0, idCount, m2, t2, idCount)
  {
  }

  lemma FewerCollisions(env: Env, key: nat, m: Infos, tried: Table, idCount: int, collisions: set<int>, id: int)
    requires CollisionsOk(env, key, m, tried, idCount, collisions)
    ensures CollisionsOk(env, key, m, tried, idCount, collisions - {id})
  {
  }
}
