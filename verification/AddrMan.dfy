/**
 CAddrMan (src/addrman.cpp): the stochastic address manager.  The clock and the random
 generator are nondeterministic choices, so every contract holds for all their values.
 */
module AddrManager {
  import opened Collections
  import opened AddrTypes
  import opened AddrInvariant
  import opened AddrSteps

  class AddrMan {
    const env: Env
    var nKey: nat
    var nIdCount: int
    var mapInfo: map<int, AddrInfo>
    var mapAddr: map<NetAddr, int>
    var vRandom: seq<int>
    var nTried: int
    const vvTried: array2<int>
    var nNew: int
    const vvNew: array2<int>
    var nLastGood: int
    var triedCollisions: set<int>
    ghost var tried: Table  // the contents of vvTried
    ghost var new_: Table   // the contents of vvNew

    /** Everything Check_ tests but the recorded times, with `limbo` and `debt` as in AddrInvariant. */
    ghost predicate Inv(limbo: set<int>, debt: int)
      reads this, vvTried, vvNew
    {
      Tables(limbo, debt) && AddrOk(mapInfo, mapAddr)
    }

    /** Inv without the mapAddr index. */
    ghost predicate Tables(limbo: set<int>, debt: int)
      reads this, vvTried, vvNew
    {
      && Arrays() && Mirrors(vvTried, tried) && Mirrors(vvNew, new_)
      && RandomOk(mapInfo, vRandom, nIdCount)
      && CountOk(mapInfo, nTried, nNew, debt)
      && TriedOk(env, nKey, mapInfo, tried)
      && NewOk(env, nKey, mapInfo, new_, limbo)
    }

    ghost predicate Arrays() {
      && vvTried != vvNew
      && vvTried.Length0 == TRIED_BUCKET_COUNT && vvTried.Length1 == BUCKET_SIZE
      && vvNew.Length0 == NEW_BUCKET_COUNT && vvNew.Length1 == BUCKET_SIZE
    }

    ghost predicate Valid()
      reads this, vvTried, vvNew
    {
      Inv({}, 0) && |triedCollisions| <= SET_TRIED_COLLISION_SIZE
    }

    constructor (env: Env, key: nat)
      ensures Valid() && TimesOk(mapInfo) && CollisionsValid()
      ensures this.env == env && nKey == key && mapInfo == map[] && triedCollisions == {} && nLastGood == 1
      ensures fresh(vvTried) && fresh(vvNew)
    {
      hide RandomOk, AddrOk, TriedOk, NewOk, CountOk, Tried, NonTried, Mirrors, Blank, Grid;
      this.env := env;
      nKey := key;
      vvTried := new int[TRIED_BUCKET_COUNT, BUCKET_SIZE]((b, i) => -1);
      vvNew := new int[NEW_BUCKET_COUNT, BUCKET_SIZE]((b, i) => -1);
      vRandom := [];
      nIdCount := 0;
      nTried := 0;
      nNew := 0;
      nLastGood := 1;
      mapInfo := map[];
      mapAddr := map[];
      triedCollisions := {};
      tried := Blank(TRIED_BUCKET_COUNT);
      new_ := Blank(NEW_BUCKET_COUNT);
      new;
      EmptyKeeps(env, key, tried, new_);
      BlankMirrors(vvTried, TRIED_BUCKET_COUNT);
      BlankMirrors(vvNew, NEW_BUCKET_COUNT);
    }

    method Find(addr: NetAddr) returns (found: bool, nId: int)
      requires IndexOk(mapInfo, mapAddr, vRandom, nIdCount)
      ensures found <==> exists id :: id in mapInfo && mapInfo[id].Net() == addr
      ensures found ==> nId in mapInfo && mapInfo[nId].Net() == addr
      ensures found <==> addr in mapAddr
    {
      if addr !in mapAddr {
        assert forall id | id in mapInfo :: IndexedAt(mapInfo[id], id, mapAddr, vRandom);
        return false, -1;
      }
      nId := mapAddr[addr];
      found := nId in mapInfo;
    }

    method Create(addr: Address, source: NetAddr, ghost limbo: set<int>, ghost debt: int) returns (nId: int)
      requires Inv(limbo, debt)
      requires addr.service.net !in mapAddr
      modifies this`nIdCount, this`mapInfo, this`mapAddr, this`vRandom
      ensures Inv(limbo + {nId}, debt + 1)
      ensures nId == old(nIdCount) < nIdCount && nId !in old(mapInfo)
      ensures mapInfo == old(mapInfo)[nId := NewInfo(addr, source).(randomPos := |old(vRandom)|)]
    {
      hide RandomOk, AddrOk, TriedOk, NewOk, Tried, NonTried;
      nId := nIdCount;
      nIdCount := nIdCount + 1;
      mapInfo := mapInfo[nId := NewInfo(addr, source)];
      mapAddr := mapAddr[addr.service.net := nId];
      mapInfo := mapInfo[nId := mapInfo[nId].(randomPos := |vRandom|)];
      vRandom := vRandom + [nId];
      ghost var info := mapInfo[nId];
      assert mapInfo == old(mapInfo)[nId := info];
      CreateKeepsIndex(old(mapInfo), old(mapAddr), old(vRandom), old(nIdCount), info);
      CreateKeepsCounts(old(mapInfo), nId, info);
      CreateKeepsTables(env, nKey, old(mapInfo), tried, new_, limbo, nId, info);
    }

    method SwapRandom(pos1: int, pos2: int)
      requires RandomOk(mapInfo, vRandom, nIdCount)
      requires pos1 == pos2 || (0 <= pos1 < |vRandom| && 0 <= pos2 < |vRandom|)
      modifies this`mapInfo, this`vRandom
      ensures RandomOk(mapInfo, vRandom, nIdCount)
      ensures AddrOk(old(mapInfo), mapAddr) ==> AddrOk(mapInfo, mapAddr)
      ensures SameExcept(old(mapInfo), mapInfo, {})
      ensures pos1 != pos2 ==> vRandom == old(vRandom[pos1 := vRandom[pos2]][pos2 := vRandom[pos1]])
      ensures pos1 == pos2 ==> vRandom == old(vRandom) && mapInfo == old(mapInfo)
    {
      if pos1 == pos2 {
        return;
      }
      SwapKeepsRandom(mapInfo, vRandom, nIdCount, pos1, pos2);
      var nId1 := vRandom[pos1];
      var nId2 := vRandom[pos2];
      mapInfo := mapInfo[nId1 := mapInfo[nId1].(randomPos := pos2)];
      mapInfo := mapInfo[nId2 := mapInfo[nId2].(randomPos := pos1)];
      vRandom := vRandom[pos1 := nId2];
      vRandom := vRandom[pos2 := nId1];
      SameCoreAddr(old(mapInfo), mapInfo, mapAddr);
    }

    method Delete(nId: int, ghost limbo: set<int>, ghost debt: int)
      requires Tables(limbo, debt)
      requires nId in limbo
      modifies this`mapInfo, this`mapAddr, this`vRandom, this`nNew
      ensures Tables(limbo - {nId}, debt)
      ensures AddrOk(old(mapInfo), old(mapAddr)) ==> AddrOk(mapInfo, mapAddr)
      ensures nId !in mapInfo && SameExcept(old(mapInfo), mapInfo, {nId})
    {
      hide RandomOk, AddrOk, TriedOk, NewOk, SameExcept, Tried, NonTried;
      LimboFacts(env, nKey, mapInfo, new_, limbo, nId);
      RandomBounds(mapInfo, vRandom, nIdCount, nId);
      assert !mapInfo[nId].inTried;
      assert mapInfo[nId].refCount == 0;
      SwapRandom(mapInfo[nId].randomPos, |vRandom| - 1);
      ghost var m := mapInfo;
      SameCoreKeeps(env, nKey, old(mapInfo), m, tried, new_, limbo);
      DeleteKeepsRandom(m, vRandom, nIdCount, nId);
      DeleteKeepsTables(env, nKey, m, tried, new_, limbo, nId);
      if AddrOk(m, mapAddr) {
        DeleteKeepsAddr(m, mapAddr, nId);
      }
      vRandom := vRandom[..|vRandom| - 1];
      mapAddr := mapAddr - {mapInfo[nId].Net()};
      mapInfo := mapInfo - {nId};
      nNew := nNew - 1;
      DropKeepsRest(old(mapInfo), m, nId);
    }

    method ClearNew(b: int, i: int, ghost limbo: set<int>, ghost debt: int)
      requires Inv(limbo, debt)
      requires 0 <= b < NEW_BUCKET_COUNT && 0 <= i < BUCKET_SIZE
      modifies this`mapInfo, this`mapAddr, this`vRandom, this`nNew, this`new_, vvNew
      ensures Inv(limbo, debt)
      ensures new_ == old(new_)[(b, i) := -1]
      ensures old(vvNew[b, i]) == -1 ==> mapInfo == old(mapInfo) && mapAddr == old(mapAddr) && vRandom == old(vRandom)
      ensures old(vvNew[b, i]) != -1 ==> LostReference(old(mapInfo), mapInfo, old(vvNew[b, i]))
    {
      hide RandomOk, AddrOk, TriedOk, NewOk, SameExcept, Tried, NonTried;
      ghost var t := new_;
      assert t[(b, i)] == vvNew[b, i];
      if vvNew[b, i] != -1 {
        UnrefKeeps(env, nKey, mapInfo, tried, t, limbo, (b, i));
        var nIdDelete := vvNew[b, i];
        var infoDelete := mapInfo[nIdDelete];
        assert infoDelete.refCount > 0;
        mapInfo := mapInfo[nIdDelete := infoDelete.(refCount := infoDelete.refCount - 1)];
        vvNew[b, i] := -1;
        new_ := new_[(b, i) := -1];
        RecountKeepsIndex(old(mapInfo), mapInfo, mapAddr, vRandom, nIdCount);
        if mapInfo[nIdDelete].refCount == 0 {
          Delete(nIdDelete, limbo + {nIdDelete}, debt);
          DeletedIsLost(old(mapInfo), mapInfo, nIdDelete);
          assert limbo + {nIdDelete} - {nIdDelete} == limbo;
        } else {
          UnrefIsLost(old(mapInfo), nIdDelete);
        }
      } else {
        assert new_ == t[(b, i) := -1];
      }
    }

    /** Takes an untried entry out of every new bucket. */
    method RemoveFromNew(nId: int)
      requires Inv({}, 0)
      requires nId in mapInfo && !mapInfo[nId].inTried
      modifies this`mapInfo, this`nNew, this`new_, vvNew
      ensures Inv({nId}, 1)
      ensures new_ == Scrub(old(new_), nId, NEW_BUCKET_COUNT) && forall c | c in new_ :: new_[c] != nId
      ensures mapInfo == old(mapInfo)[nId := old(mapInfo)[nId].(refCount := 0)]
    {
      hide RandomOk, AddrOk, TriedOk, NewOk, Scrub, Tried, NonTried, Slots;
      ghost var m0 := mapInfo;
      ghost var new0 := new_;
      var service := mapInfo[nId].addr.service;
      IndexBounds(m0, mapAddr, vRandom, nIdCount, nId);
      UnscrubbedFacts(env, nKey, m0, new0, nId);
      for bucket := 0 to NEW_BUCKET_COUNT
        modifies this`mapInfo, this`new_, vvNew
        invariant new_ == Scrub(new0, nId, bucket) && Mirrors(vvNew, new_)
        invariant mapInfo == m0[nId := m0[nId].(refCount := |Slots(Scrub(new0, nId, bucket), nId)|)]
      {
        ScrubStep(env, nKey, m0, new0, nId, bucket);
        var pos := BucketPosition(env, nKey, true, bucket, service);
        assert new_[(bucket, pos)] == vvNew[bucket, pos];
        if vvNew[bucket, pos] == nId {
          vvNew[bucket, pos] := -1;
          new_ := new_[(bucket, pos) := -1];
          mapInfo := mapInfo[nId := mapInfo[nId].(refCount := mapInfo[nId].refCount - 1)];
        }
      }
      nNew := nNew - 1;
      ScrubKeeps(env, nKey, m0, tried, new0, nId);
      assert mapInfo[nId].refCount == 0;
      RecountKeepsIndex(m0, mapInfo, mapAddr, vRandom, nIdCount);
    }

    /** Moves an untried entry to the tried table, back-evicting whatever holds its cell. */
    method MakeTried(nId: int)
      requires Inv({}, 0)
      requires nId in mapInfo && !mapInfo[nId].inTried
      modifies this`mapInfo, this`mapAddr, this`vRandom, this`nNew, this`nTried, this`new_, this`tried, vvNew, vvTried
      ensures Inv({}, 0)
      ensures MovedToTried(env, nKey, old(mapInfo), old(tried), old(new_), mapInfo, tried, new_, nId)
    {
      hide RandomOk, AddrOk, TriedOk, NewOk, SameExcept, BackEvicted, Scrub, Tried, NonTried, Slots, MovedToTried,
        TriedBucket, BucketPosition;
      RemoveFromNew(nId);
      ghost var m1 := mapInfo;
      var service := mapInfo[nId].addr.service;
      var kBucket := TriedBucket(env, nKey, service);
      var kPos := BucketPosition(env, nKey, false, kBucket, service);
      assert tried[(kBucket, kPos)] == vvTried[kBucket, kPos];
      if vvTried[kBucket, kPos] != -1 {
        EvictKeeps(env, nKey, m1, tried, new_, {nId}, (kBucket, kPos));
        EvictTried(nId, kBucket, kPos);
        assert tried[(kBucket, kPos)] == vvTried[kBucket, kPos];
      } else {
        assert tried == tried[(kBucket, kPos) := -1];
      }
      assert vvTried[kBucket, kPos] == -1;
      MovedIntro(env, nKey, old(mapInfo), old(tried), old(new_), mapInfo, tried, new_, nId);
      EnterTried(nId, kBucket, kPos);
    }

    /** Stores an entry in limbo in its empty tried cell. */
    method EnterTried(nId: int, kBucket: int, kPos: int)
      requires Inv({nId}, 1)
      requires nId in mapInfo && TriedSlot(env, nKey, mapInfo[nId].addr.service) == (kBucket, kPos)
      requires 0 <= kBucket < TRIED_BUCKET_COUNT && 0 <= kPos < BUCKET_SIZE
      requires vvTried[kBucket, kPos] == -1
      modifies this`mapInfo, this`nTried, this`tried, vvTried
      ensures Inv({}, 0)
      ensures tried == old(tried)[(kBucket, kPos) := nId]
      ensures mapInfo == old(mapInfo)[nId := old(mapInfo)[nId].(inTried := true)]
    {
      hide RandomOk, AddrOk, TriedOk, NewOk, Tried, NonTried, TriedSlot;
      assert tried[(kBucket, kPos)] == vvTried[kBucket, kPos];
      PromoteKeeps(env, nKey, mapInfo, tried, new_, nId);
      vvTried[kBucket, kPos] := nId;
      tried := tried[(kBucket, kPos) := nId];
      nTried := nTried + 1;
      mapInfo := mapInfo[nId := mapInfo[nId].(inTried := true)];
      RecountKeepsIndex(old(mapInfo), mapInfo, mapAddr, vRandom, nIdCount);
    }

    /** Empties a tried cell, leaving its entry in limbo. */
    method LeaveTried(kBucket: int, kPos: int, ghost limbo: set<int>, ghost debt: int) returns (nIdEvict: int)
      requires Inv(limbo, debt)
      requires 0 <= kBucket < TRIED_BUCKET_COUNT && 0 <= kPos < BUCKET_SIZE
      requires vvTried[kBucket, kPos] != -1
      modifies this`mapInfo, this`nTried, this`tried, vvTried
      ensures nIdEvict == old(vvTried[kBucket, kPos]) && nIdEvict in old(mapInfo) && nIdEvict !in limbo
      ensures old(mapInfo)[nIdEvict].inTried && old(mapInfo)[nIdEvict].refCount == 0
      ensures Inv(limbo + {nIdEvict}, debt + 1)
      ensures tried == old(tried)[(kBucket, kPos) := -1]
      ensures mapInfo == old(mapInfo)[nIdEvict := old(mapInfo)[nIdEvict].(inTried := false)]
    {
      hide RandomOk, AddrOk, TriedOk, NewOk, Tried, NonTried;
      nIdEvict := vvTried[kBucket, kPos];
      assert tried[(kBucket, kPos)] == nIdEvict;
      EvictKeeps(env, nKey, mapInfo, tried, new_, limbo, (kBucket, kPos));
      mapInfo := mapInfo[nIdEvict := mapInfo[nIdEvict].(inTried := false)];
      vvTried[kBucket, kPos] := -1;
      tried := tried[(kBucket, kPos) := -1];
      nTried := nTried - 1;
      RecountKeepsIndex(old(mapInfo), mapInfo, mapAddr, vRandom, nIdCount);
    }

    /** Enters an untried entry into an empty new cell at its position, counting the reference. */
    method EnterNew(nId: int, b: int, i: int, ghost limbo: set<int>, ghost debt: int)
      requires Inv(limbo, debt)
      requires 0 <= b < NEW_BUCKET_COUNT && 0 <= i < BUCKET_SIZE
      requires vvNew[b, i] == -1
      requires nId in mapInfo && !mapInfo[nId].inTried && mapInfo[nId].refCount < NEW_BUCKETS_PER_ADDRESS
      requires BucketPosition(env, nKey, true, b, mapInfo[nId].addr.service) == i
      modifies this`mapInfo, this`new_, vvNew
      ensures Inv(limbo - {nId}, debt)
      ensures new_ == old(new_)[(b, i) := nId]
      ensures mapInfo == old(mapInfo)[nId := old(mapInfo)[nId].(refCount := old(mapInfo)[nId].refCount + 1)]
    {
      hide RandomOk, AddrOk, TriedOk, NewOk, Tried, NonTried, BucketPosition;
      assert new_[(b, i)] == vvNew[b, i];
      RefKeeps(env, nKey, mapInfo, tried, new_, limbo, (b, i), nId);
      mapInfo := mapInfo[nId := mapInfo[nId].(refCount := mapInfo[nId].refCount + 1)];
      vvNew[b, i] := nId;
      new_ := new_[(b, i) := nId];
      RecountKeepsIndex(old(mapInfo), mapInfo, mapAddr, vRandom, nIdCount);
    }

    /** The entry in the given tried cell goes back to the new table, clearing its cell there. */
    method EvictTried(ghost nId: int, kBucket: int, kPos: int)
      requires Inv({nId}, 1)
      requires 0 <= kBucket < TRIED_BUCKET_COUNT && 0 <= kPos < BUCKET_SIZE
      requires vvTried[kBucket, kPos] != -1
      modifies this`mapInfo, this`mapAddr, this`vRandom, this`nNew, this`nTried, this`new_, this`tried, vvNew, vvTried
      ensures Inv({nId}, 1)
      ensures tried == old(tried)[(kBucket, kPos) := -1]
      ensures old(vvTried[kBucket, kPos]) in old(mapInfo)
      ensures
        var ev := old(vvTried[kBucket, kPos]);
        var slot := NewSlot(env, nKey, old(mapInfo)[ev]);
        && slot in old(new_)
        && new_ == old(new_)[slot := ev]
        && BackEvicted(old(mapInfo), mapInfo, ev, old(new_)[slot])
    {
      hide RandomOk, AddrOk, TriedOk, NewOk, SameExcept, LostReference, BackEvicted, Tried, NonTried, NewBucket,
        BucketPosition;
      ghost var m0 := mapInfo;
      var nIdEvict := LeaveTried(kBucket, kPos, {nId}, 1);
      ghost var m1 := mapInfo;
      ghost var limbo := {nId} + {nIdEvict};
      var service := mapInfo[nIdEvict].addr.service;
      var uBucket := NewBucket(env, nKey, service, mapInfo[nIdEvict].source);
      var uPos := BucketPosition(env, nKey, true, uBucket, service);
      assert new_[(uBucket, uPos)] == vvNew[uBucket, uPos];
      LimboNotPlaced(env, nKey, m1, new_, limbo, nIdEvict);
      ClearNew(uBucket, uPos, limbo, 2);
      ghost var m2 := mapInfo;
      if old(new_)[(uBucket, uPos)] != -1 {
        LostKeepsOther(m1, m2, old(new_)[(uBucket, uPos)], nIdEvict);
      }
      assert m2[nIdEvict].Core() == m1[nIdEvict].Core();
      LimboFacts(env, nKey, m2, new_, limbo, nIdEvict);
      assert new_[(uBucket, uPos)] == vvNew[uBucket, uPos];
      // the source assigns nRefCount = 1; the count is 0 here
      EnterNew(nIdEvict, uBucket, uPos, limbo, 2);
      nNew := nNew + 1;
      BackEvictedIntro(m0, m2, nIdEvict, old(new_)[(uBucket, uPos)]);
      assert limbo - {nIdEvict} == {nId};
    }

    /** Every pending collision is about an id given out whose tried cell is occupied. */
    ghost predicate CollisionsValid()
      reads this
    {
      CollisionsOk(env, nKey, mapInfo, tried, nIdCount, triedCollisions)
    }

    /** Updates data of one entry that no index depends on. */
    method SetInfo(nId: int, info: AddrInfo)
      requires Inv({}, 0)
      requires nId in mapInfo && SamePlace(mapInfo[nId], info)
      modifies this`mapInfo
      ensures Inv({}, 0)
      ensures mapInfo == old(mapInfo)[nId := info]
    {
      hide RandomOk, AddrOk, TriedOk, NewOk, Tried, NonTried;
      UpdateKeeps(env, nKey, mapInfo, tried, new_, {}, nId, info);
      mapInfo := mapInfo[nId := info];
      RecountKeepsIndex(old(mapInfo), mapInfo, mapAddr, vRandom, nIdCount);
    }

    /** Some new bucket holds an untried entry: the search of Good_ always succeeds. */
    method FindNewBucket(nId: int, rnd: nat) returns (nUBucket: int)
      requires Inv({}, 0)
      requires nId in mapInfo && !mapInfo[nId].inTried
      ensures 0 <= nUBucket < NEW_BUCKET_COUNT
      ensures vvNew[nUBucket, BucketPosition(env, nKey, true, nUBucket, mapInfo[nId].addr.service)] == nId
    {
      hide RandomOk, AddrOk, TriedOk, Tried, NonTried;
      var nRnd := rnd % NEW_BUCKET_COUNT;
      UnscrubbedFacts(env, nKey, mapInfo, new_, nId);
      ghost var c :| c in Slots(new_, nId);
      assert new_[c] == vvNew[c.0, c.1];
      ghost var last := (c.0 - nRnd) % NEW_BUCKET_COUNT;
      assert (last + nRnd) % NEW_BUCKET_COUNT == c.0;
      var n := 0;
      nUBucket := nRnd;
      while n < NEW_BUCKET_COUNT
        && vvNew[nUBucket, BucketPosition(env, nKey, true, nUBucket, mapInfo[nId].addr.service)] != nId
        invariant 0 <= n <= last
        invariant nUBucket == (n + nRnd) % NEW_BUCKET_COUNT
      {
        n := n + 1;
        nUBucket := (n + nRnd) % NEW_BUCKET_COUNT;
      }
    }

    method Good(addr: Service, testBeforeEvict: bool, nTime: int, rnd: nat)
      requires Valid()
      modifies this`mapInfo, this`mapAddr, this`vRandom, this`nNew, this`nTried, this`new_, this`tried,
               this`nLastGood, this`triedCollisions, vvNew, vvTried
      ensures Valid() && nLastGood == nTime
      ensures forall id | id in old(mapInfo) && old(mapInfo)[id].addr.service == addr ::
                GoodStep(env, nKey, old(mapInfo), old(tried), old(new_), old(triedCollisions),
                         mapInfo, tried, new_, triedCollisions, id, testBeforeEvict, nTime)
      ensures forall id | id in old(mapInfo) && old(mapInfo)[id].addr.service == addr ::
                && id in mapInfo && GoodEntry(old(mapInfo)[id], mapInfo[id], nTime)
                && (mapInfo[id].inTried <==>
                    old(mapInfo)[id].inTried || !testBeforeEvict || !Occupied(env, nKey, old(mapInfo)[id], old(tried)))
                && triedCollisions == if !mapInfo[id].inTried && |old(triedCollisions)| < 10
                                      then old(triedCollisions) + {id} else old(triedCollisions)
      ensures (forall id | id in old(mapInfo) :: old(mapInfo)[id].addr.service != addr) ==>
                mapInfo == old(mapInfo) && tried == old(tried) && new_ == old(new_)
                && triedCollisions == old(triedCollisions)
      ensures nTime > 0 && TimesOk(old(mapInfo)) ==> TimesOk(mapInfo)
      ensures Onward(old(mapInfo), old(tried), nIdCount, mapInfo, tried, nIdCount)
      ensures old(CollisionsValid()) ==> CollisionsValid()
    {
      hide RandomOk, AddrOk, TriedOk, NewOk, Tried, NonTried, Onward, CollisionsOk, TimesOk, GoodStep, GoodEntry,
        Occupied;
      nLastGood := nTime;
      var found, nId := Find(addr.net);
      NoOtherService(mapInfo, mapAddr, vRandom, nIdCount, addr, found, nId);
      OnwardRefl(mapInfo, tried, nIdCount);
      if !found {
        return;
      }
      if mapInfo[nId].addr.service != addr {
        return;
      }
      IndexBounds(mapInfo, mapAddr, vRandom, nIdCount, nId);
      GoodKnown(nId, testBeforeEvict, nTime, rnd);
      GoodMeans(env, nKey, old(mapInfo), old(tried), old(new_), old(triedCollisions),
                mapInfo, tried, new_, triedCollisions, nId, testBeforeEvict, nTime);
      GoodStepKeeps(env, nKey, old(mapInfo), old(tried), old(new_), old(triedCollisions),
                    mapInfo, tried, new_, triedCollisions, nId, testBeforeEvict, nTime, nIdCount);
    }

    /** Good_ from the point where the entry is known to be the very service. */
    method GoodKnown(nId: int, testBeforeEvict: bool, nTime: int, rnd: nat)
      requires Valid() && nId in mapInfo
      modifies this`mapInfo, this`mapAddr, this`vRandom, this`nNew, this`nTried, this`new_, this`tried,
               this`triedCollisions, vvNew, vvTried
      ensures Valid()
      ensures GoodStep(env, nKey, old(mapInfo), old(tried), old(new_), old(triedCollisions),
                       mapInfo, tried, new_, triedCollisions, nId, testBeforeEvict, nTime)
    {
      hide RandomOk, AddrOk, TriedOk, NewOk, Tried, NonTried, MovedToTried, TriedBucket, BucketPosition;
      SetInfo(nId, MarkedGood(mapInfo[nId], nTime));
      if mapInfo[nId].inTried {
        return;
      }
      var nUBucket := FindNewBucket(nId, rnd);
      assert nUBucket != -1;  // the exit for "no bucket found" is never taken

      var service := mapInfo[nId].addr.service;
      var triedBucket := TriedBucket(env, nKey, service);
      var triedBucketPos := BucketPosition(env, nKey, false, triedBucket, service);
      assert tried[(triedBucket, triedBucketPos)] == vvTried[triedBucket, triedBucketPos];
      if testBeforeEvict && vvTried[triedBucket, triedBucketPos] != -1 {
        if |triedCollisions| < SET_TRIED_COLLISION_SIZE {
          triedCollisions := triedCollisions + {nId};
        }
      } else {
        MakeTried(nId);
      }
    }

    method Add(addr: Address, source: NetAddr, timePenalty: int, now: int, later: int, rnd: nat) returns (fNew: bool)
      requires Valid()
      modifies this`nIdCount, this`mapInfo, this`mapAddr, this`vRandom, this`nNew, this`new_, vvNew
      ensures Valid()
      ensures AddStep(env, nKey, old(mapInfo), old(mapAddr), old(new_), mapInfo, new_,
                      addr, source, timePenalty, now, later, rnd, old(nIdCount), |old(vRandom)|, fNew)
      ensures fNew <==> && env.routable(addr.service.net)
                        && forall id | id in old(mapInfo) :: old(mapInfo)[id].Net() != addr.service.net
      ensures fNew ==>
                && TakesCell(old(mapInfo), old(new_), mapInfo, new_, old(nIdCount),
                             NewSlotFrom(env, nKey, addr.service, source), false, later)
                && (old(nIdCount) in mapInfo ==>
                      FreshEntry(mapInfo[old(nIdCount)], addr, source,
                                 if addr.service.net == source then 0 else timePenalty))
      ensures env.routable(addr.service.net) ==>
                forall id | id in old(mapInfo) && old(mapInfo)[id].Net() == addr.service.net ::
                  && id in mapInfo
                  && UpdatedEntry(old(mapInfo)[id], mapInfo[id], addr,
                                  if addr.service.net == source then 0 else timePenalty, now)
                  && if Eager(mapInfo[id], old(mapInfo)[id].refCount, addr, rnd)
                     then TakesCell(old(mapInfo), old(new_), mapInfo, new_, id,
                                    NewSlotFrom(env, nKey, old(mapInfo)[id].addr.service, source), true, later)
                     else new_ == old(new_)
      ensures if env.routable(addr.service.net) then Displaces(old(mapInfo), mapInfo, addr.service.net, later)
              else mapInfo == old(mapInfo) && new_ == old(new_)
      ensures TimesOk(old(mapInfo)) ==> TimesOk(mapInfo)
      ensures Onward(old(mapInfo), tried, old(nIdCount), mapInfo, tried, nIdCount)
      ensures old(CollisionsValid()) ==> CollisionsValid()
    {
      hide RandomOk, AddrOk, TriedOk, NewOk, Tried, NonTried, Onward, CollisionsOk, TimesOk, PlaceStep, AddStep,
        Displaces, UpdatedEntry, FreshEntry, TakesCell, Eager, NewSlotFrom;
      fNew := AddInner(addr, source, timePenalty, now, later, rnd);
      AddStepKeeps(env, nKey, old(mapInfo), old(mapAddr), old(new_), mapInfo, new_,
                   addr, source, timePenalty, now, later, rnd, old(nIdCount), |old(vRandom)|, fNew, tried, nIdCount);
      AddMeans(env, nKey, old(mapInfo), old(mapAddr), old(vRandom), old(new_), mapInfo, new_,
               addr, source, timePenalty, now, later, rnd, old(nIdCount), |old(vRandom)|, fNew);
      if old(CollisionsValid()) {
        OnwardKeepsCollisions(env, nKey, old(mapInfo), tried, old(nIdCount), mapInfo, tried, nIdCount, triedCollisions);
      }
    }

    method AddInner(addr: Address, source: NetAddr, timePenalty: int, now: int, later: int, rnd: nat)
      returns (fNew: bool)
      requires Valid()
      modifies this`nIdCount, this`mapInfo, this`mapAddr, this`vRandom, this`nNew, this`new_, vvNew
      ensures Valid() && nIdCount >= old(nIdCount)
      ensures AddStep(env, nKey, old(mapInfo), old(mapAddr), old(new_), mapInfo, new_,
                      addr, source, timePenalty, now, later, rnd, old(nIdCount), |old(vRandom)|, fNew)
    {
      hide RandomOk, AddrOk, TriedOk, NewOk, Tried, NonTried, PlaceStep, WantsReference, Refreshed;
      if !env.routable(addr.service.net) {
        return false;
      }
      fNew := false;
      var found, nId := Find(addr.service.net);
      var nTimePenalty := if addr.service.net == source then 0 else timePenalty;
      if found {
        IndexBounds(mapInfo, mapAddr, vRandom, nIdCount, nId);
        RefreshedPlace(mapInfo[nId], addr, nTimePenalty, now);
        SetInfo(nId, Refreshed(mapInfo[nId], addr, nTimePenalty, now));
        var proceed := GoesOn(mapInfo[nId], addr, rnd);
        if !proceed {
          return false;
        }
        UntriedWants(mapInfo[nId], addr, rnd);
        RefBound(env, nKey, mapInfo, new_, nId);
        Place(nId, source, later, {});
      } else {
        nId := CreateAnnounced(addr, source, nTimePenalty);
        fNew := true;
        Place(nId, source, later, {nId});
      }
    }

    /** The chain of early returns for an entry that is already known. */
    method GoesOn(info: AddrInfo, addr: Address, rnd: nat) returns (proceed: bool)
      ensures proceed <==> WantsReference(info, addr, rnd)
    {
      if addr.time == 0 || (info.addr.time != 0 && addr.time <= info.addr.time) {
        return false;
      }
      if info.inTried {
        return false;
      }
      if info.refCount == NEW_BUCKETS_PER_ADDRESS {
        return false;
      }
      var nFactor := ReferenceFactor(info.refCount);
      if nFactor > 1 && rnd % nFactor != 0 {
        return false;
      }
      return true;
    }

    method CreateAnnounced(addr: Address, source: NetAddr, nTimePenalty: int) returns (nId: int)
      requires Inv({}, 0) && addr.service.net !in mapAddr
      modifies this`nIdCount, this`mapInfo, this`mapAddr, this`vRandom, this`nNew
      ensures Inv({nId}, 0) && nId == old(nIdCount) < nIdCount
      ensures mapInfo == old(mapInfo)[nId := Announced(addr, source, nTimePenalty).(randomPos := |old(vRandom)|)]
    {
      hide RandomOk, AddrOk, TriedOk, NewOk, Tried, NonTried;
      nId := Create(addr, source, {}, 0);
      ghost var m1 := mapInfo;
      assert {} + {nId} == {nId};
      var info := mapInfo[nId].(addr := addr.(time := ToUint32(Max(0, mapInfo[nId].addr.time - nTimePenalty))));
      CreatedFacts(env, nKey, m1, tried, new_, {nId}, nId, info);
      mapInfo := mapInfo[nId := info];
      RecountKeepsIndex(m1, mapInfo, mapAddr, vRandom, nIdCount);
      assert mapInfo == old(mapInfo)[nId := info];
      nNew := nNew + 1;
    }

    /** nFactor: two to the power of the reference count. */
    method ReferenceFactor(refCount: int) returns (nFactor: nat)
      ensures nFactor == Factor(refCount)
    {
      nFactor := 1;
      var n := 0;
      while n < refCount
        invariant 0 <= n && (n <= refCount || n == 0)
        invariant nFactor == Factor(n)
      {
        nFactor := nFactor * 2;
        n := n + 1;
      }
    }

    /** The last part of Add_: claim the cell that the address and its source select. */
    method Place(nId: int, source: NetAddr, later: int, ghost limbo: set<int>)
      requires Inv(limbo, 0)
      requires nId in mapInfo && !mapInfo[nId].inTried && mapInfo[nId].refCount < NEW_BUCKETS_PER_ADDRESS
      requires limbo == if mapInfo[nId].refCount == 0 then {nId} else {}
      modifies this`mapInfo, this`mapAddr, this`vRandom, this`nNew, this`new_, vvNew
      ensures Inv({}, 0)
      ensures PlaceStep(env, nKey, old(mapInfo), old(new_), mapInfo, new_, nId, source, later)
    {
      hide RandomOk, AddrOk, TriedOk, NewOk, Tried, NonTried, SameExcept, LostReference, Replaced, IsTerrible,
        NewBucket, BucketPosition;
      var service := mapInfo[nId].addr.service;
      var nUBucket := NewBucket(env, nKey, service, source);
      var nUBucketPos := BucketPosition(env, nKey, true, nUBucket, service);
      ghost var cell := new_[(nUBucket, nUBucketPos)];
      assert cell == vvNew[nUBucket, nUBucketPos];
      IndexBounds(mapInfo, mapAddr, vRandom, nIdCount, nId);
      if cell != -1 {
        PlacedFacts(env, nKey, mapInfo, new_, limbo, (nUBucket, nUBucketPos));
      }
      if vvNew[nUBucket, nUBucketPos] != nId {
        var fInsert := vvNew[nUBucket, nUBucketPos] == -1;
        if !fInsert {
          var infoExisting := mapInfo[vvNew[nUBucket, nUBucketPos]];
          if IsTerrible(infoExisting, later) || (infoExisting.refCount > 1 && mapInfo[nId].refCount == 0) {
            fInsert := true;
          }
        }
        if fInsert {
          ClearNew(nUBucket, nUBucketPos, limbo, 0);
          ghost var m2 := mapInfo;
          if cell != -1 {
            LostKeepsOther(old(mapInfo), m2, cell, nId);
          }
          assert m2[nId].Core() == old(mapInfo)[nId].Core();
          ReplacedIntro(old(mapInfo), m2, nId, cell);
          assert new_[(nUBucket, nUBucketPos)] == vvNew[nUBucket, nUBucketPos];
          EnterNew(nId, nUBucket, nUBucketPos, limbo, 0);
          assert limbo - {nId} == {};
        } else {
          if mapInfo[nId].refCount == 0 {
            Delete(nId, limbo, 0);
            assert limbo - {nId} == {};
          }
        }
      }
    }

    method Attempt(addr: Service, fCountFailure: bool, nTime: int)
      requires Valid()
      modifies this`mapInfo
      ensures Valid()
      ensures mapInfo.Keys == old(mapInfo).Keys
      ensures forall id | id in mapInfo ::
                if old(mapInfo)[id].addr.service == addr
                then TriedEntry(old(mapInfo)[id], mapInfo[id], fCountFailure, nTime, nLastGood)
                else mapInfo[id] == old(mapInfo)[id]
      ensures nTime >= 0 && TimesOk(old(mapInfo)) ==> TimesOk(mapInfo)
      ensures old(CollisionsValid()) ==> CollisionsValid()
    {
      hide RandomOk, AddrOk, TriedOk, NewOk, Tried, NonTried, CollisionsOk;
      var found, nId := Find(addr.net);
      NoOtherService(mapInfo, mapAddr, vRandom, nIdCount, addr, found, nId);
      if !found {
        return;
      }
      if mapInfo[nId].addr.service != addr {
        return;
      }
      UpdateOnward(mapInfo, tried, nIdCount, nId, Attempted(mapInfo[nId], fCountFailure, nTime, nLastGood));
      SetInfo(nId, Attempted(mapInfo[nId], fCountFailure, nTime, nLastGood));
      if old(CollisionsValid()) {
        OnwardKeepsCollisions(env, nKey, old(mapInfo), tried, nIdCount, mapInfo, tried, nIdCount, triedCollisions);
      }
    }

    method Connected(addr: Service, nTime: int)
      requires Valid()
      modifies this`mapInfo
      ensures Valid()
      ensures mapInfo.Keys == old(mapInfo).Keys
      ensures forall id | id in mapInfo ::
                if old(mapInfo)[id].addr.service == addr then SeenEntry(old(mapInfo)[id], mapInfo[id], nTime)
                else mapInfo[id] == old(mapInfo)[id]
      ensures TimesOk(old(mapInfo)) ==> TimesOk(mapInfo)
      ensures old(CollisionsValid()) ==> CollisionsValid()
    {
      hide RandomOk, AddrOk, TriedOk, NewOk, Tried, NonTried, CollisionsOk;
      var found, nId := Find(addr.net);
      NoOtherService(mapInfo, mapAddr, vRandom, nIdCount, addr, found, nId);
      if !found {
        return;
      }
      if mapInfo[nId].addr.service != addr {
        return;
      }
      UpdateOnward(mapInfo, tried, nIdCount, nId, SeenAt(mapInfo[nId], nTime));
      SetInfo(nId, SeenAt(mapInfo[nId], nTime));
      if old(CollisionsValid()) {
        OnwardKeepsCollisions(env, nKey, old(mapInfo), tried, nIdCount, mapInfo, tried, nIdCount, triedCollisions);
      }
    }

    /** Moves a random entry of vRandom[n..] to position n. */
    method Draw(n: int)
      requires Inv({}, 0) && 0 <= n < |vRandom|
      modifies this`mapInfo, this`vRandom
      ensures Inv({}, 0) && SameExcept(old(mapInfo), mapInfo, {}) && mapInfo.Keys == old(mapInfo).Keys
      ensures |vRandom| == |old(vRandom)| && vRandom[..n] == old(vRandom)[..n] && vRandom[n] in mapInfo
    {
      hide TriedOk, NewOk, Tried, NonTried, SameExcept;
      var r :| 0 <= r < |vRandom| - n;
      var nRndPos := r + n;
      SwapRandom(n, nRndPos);
      SameCoreKeeps(env, nKey, old(mapInfo), mapInfo, tried, new_, {});
    }

    /**
     Entries are looked at one after the other, each at its own reading of the clock and none twice; those not terrible
     then are returned, until the limit is reached or every entry has been looked at.
     */
    method GetAddr(clock: nat -> int) returns (vAddr: seq<Address>, ghost seen: seq<int>)
      requires Valid()
      modifies this`mapInfo, this`vRandom
      ensures Valid() && SameExcept(old(mapInfo), mapInfo, {})
      ensures TimesOk(old(mapInfo)) ==> TimesOk(mapInfo)
      ensures old(CollisionsValid()) ==> CollisionsValid()
      ensures DistinctIds(old(mapInfo), seen) && vAddr == Offered(old(mapInfo), seen, clock)
      ensures forall k: nat | k < |seen| ::
                old(mapInfo)[seen[k]].addr in vAddr <==> Worthwhile(old(mapInfo)[seen[k]], clock(k))
      ensures forall a | a in vAddr :: exists k: nat :: k < |seen| && old(mapInfo)[seen[k]].addr == a
      ensures |vAddr| <= MaxAddresses(|old(vRandom)|)
      ensures |vAddr| == MaxAddresses(|old(vRandom)|) || forall id | id in old(mapInfo) :: id in seen
      ensures HostsApart(vAddr)
    {
      hide TriedOk, NewOk, Tried, NonTried, SameExcept, CollisionsOk, TimesOk, RandomOk, AddrOk, Offered, DistinctIds,
        HostsApart, Worthwhile;
      var nNodes := MaxAddresses(|vRandom|);
      vAddr := [];
      var n := 0;
      SameExceptRefl(mapInfo);
      NoneOffered(mapInfo, vRandom, clock);
      while n < |vRandom| && |vAddr| < nNodes
        invariant 0 <= n <= |vRandom| == |old(vRandom)| && |vAddr| <= nNodes
        invariant Valid() && SameExcept(old(mapInfo), mapInfo, {})
        invariant DistinctIds(old(mapInfo), vRandom[..n]) && vAddr == Offered(old(mapInfo), vRandom[..n], clock)
      {
        ghost var m1 := mapInfo;
        Draw(n);
        SameExceptTrans(old(mapInfo), m1, mapInfo);
        OfferStep(old(mapInfo), mapInfo, vRandom, nIdCount, n, clock);
        var ai := mapInfo[vRandom[n]];
        if !IsTerrible(ai, clock(n)) {
          vAddr := vAddr + [ai.addr];
        }
        n := n + 1;
      }
      seen := vRandom[..n];
      AllSeen(old(mapInfo), mapInfo, vRandom, nIdCount);
      assert n == |vRandom| ==> seen == vRandom;
      OfferedApart(old(mapInfo), old(mapAddr), seen, clock);
      OfferedAll(old(mapInfo), old(mapAddr), seen, clock);
      SameCoreOnward(old(mapInfo), mapInfo, tried, nIdCount);
      if old(CollisionsValid()) {
        OnwardKeepsCollisions(env, nKey, old(mapInfo), tried, nIdCount, mapInfo, tried, nIdCount, triedCollisions);
      }
    }

    /** The answer to one pending collision. */
    method ResolveOne(idNew: int, clock: nat -> int, rnd: nat) returns (eraseCollision: bool)
      requires Valid()
      modifies this`mapInfo, this`mapAddr, this`vRandom, this`nNew, this`nTried, this`new_, this`tried,
               this`nLastGood, this`triedCollisions, vvNew, vvTried
      ensures Valid() && triedCollisions == old(triedCollisions)
      ensures ResolveStep(env, nKey, old(mapInfo), old(tried), old(new_), old(triedCollisions),
                          mapInfo, tried, new_, triedCollisions, idNew, clock, eraseCollision)
      ensures idNew in old(mapInfo) && !old(mapInfo)[idNew].inTried && env.valid(old(mapInfo)[idNew].Net())
              && Occupied(env, nKey, old(mapInfo)[idNew], old(tried)) ==>
                var slot := TriedSlot(env, nKey, old(mapInfo)[idNew].addr.service);
                && old(tried)[slot] in old(mapInfo)
                && Answer(old(mapInfo)[old(tried)[slot]], clock, eraseCollision, tried[slot] == idNew)
      ensures clock(3) > 0 && TimesOk(old(mapInfo)) ==> TimesOk(mapInfo)
      ensures Onward(old(mapInfo), old(tried), nIdCount, mapInfo, tried, nIdCount)
    {
      hide RandomOk, AddrOk, TriedOk, NewOk, Tried, NonTried, Onward, CollisionsOk, TimesOk, GoodStep, TriedBucket,
        BucketPosition;
      OnwardRefl(mapInfo, tried, nIdCount);
      eraseCollision := false;
      if idNew !in mapInfo {
        return true;
      }
      var infoNew := mapInfo[idNew];
      var service := infoNew.addr.service;
      var triedBucket := TriedBucket(env, nKey, service);
      var triedBucketPos := BucketPosition(env, nKey, false, triedBucket, service);
      assert tried[(triedBucket, triedBucketPos)] == vvTried[triedBucket, triedBucketPos];
      if !env.valid(infoNew.Net()) {
        return true;
      }
      if vvTried[triedBucket, triedBucketPos] != -1 {
        TriedFacts(env, nKey, mapInfo, tried, (triedBucket, triedBucketPos));
        var idOld := vvTried[triedBucket, triedBucketPos];
        var infoOld := mapInfo[idOld];
        if clock(0) - infoOld.lastSuccess < REPLACEMENT_HOURS * (60 * 60) {
          eraseCollision := true;
        } else if clock(1) - infoOld.lastTry < REPLACEMENT_HOURS * (60 * 60) {
          if clock(2) - infoOld.lastTry > 60 {
            GoodNoTest(idNew, clock(3), rnd);
            GoodTakes(env, nKey, old(mapInfo), old(tried), old(new_), old(triedCollisions),
                      mapInfo, tried, new_, triedCollisions, idNew, clock(3));
            eraseCollision := true;
          }
        }
      } else {
        GoodNoTest(idNew, clock(3), rnd);
        eraseCollision := true;
      }
    }

    /** Good_ without the collision test records no collision. */
    method GoodNoTest(id: int, nTime: int, rnd: nat)
      requires Valid() && id in mapInfo
      modifies this`mapInfo, this`mapAddr, this`vRandom, this`nNew, this`nTried, this`new_, this`tried,
               this`nLastGood, this`triedCollisions, vvNew, vvTried
      ensures Valid() && triedCollisions == old(triedCollisions)
      ensures GoodStep(env, nKey, old(mapInfo), old(tried), old(new_), old(triedCollisions),
                       mapInfo, tried, new_, triedCollisions, id, false, nTime)
      ensures nTime > 0 && TimesOk(old(mapInfo)) ==> TimesOk(mapInfo)
      ensures Onward(old(mapInfo), old(tried), nIdCount, mapInfo, tried, nIdCount)
    {
      hide RandomOk, AddrOk, TriedOk, NewOk, Tried, NonTried, Onward, CollisionsOk, TimesOk, MovedToTried, TriedSlot;
      Good(mapInfo[id].addr.service, false, nTime, rnd);
    }

    /** Every pending collision is answered once, in some order; `states` are the states between the answers. */
    method ResolveCollisions(clock: nat -> int, rnd: nat)
      returns (ghost order: seq<int>, ghost answers: seq<bool>, ghost states: seq<Snapshot>)
      requires Valid()
      modifies this`mapInfo, this`mapAddr, this`vRandom, this`nNew, this`nTried, this`new_, this`tried,
               this`nLastGood, this`triedCollisions, vvNew, vvTried
      ensures Valid() && multiset(order) == multiset(old(triedCollisions))
              && Resolves(env, nKey, order, answers, states, clock)
      ensures states[0] == old(Now()) && states[|order|] == Now()
      ensures (forall k: nat :: clock(k) > 0) && TimesOk(old(mapInfo)) ==> TimesOk(mapInfo)
      ensures Onward(old(mapInfo), old(tried), nIdCount, mapInfo, tried, nIdCount)
      ensures old(CollisionsValid()) ==> CollisionsValid()
    {
      hide RandomOk, AddrOk, CountOk, TriedOk, NewOk, Onward, CollisionsOk, TimesOk, ResolveStep, ResolvesAt;
      var todo := triedCollisions;
      var ticks: nat := 0;
      OnwardRefl(mapInfo, tried, nIdCount);
      order, answers, states := [], [], [Now()];
      while todo != {}
        invariant Valid() && ticks == 4 * |order| && Resolves(env, nKey, order, answers, states, clock)
        invariant multiset(order) + multiset(todo) == multiset(old(triedCollisions)) && states[0] == old(Now())
                  && states[|order|] == Now()
        invariant (forall k: nat :: clock(k) > 0) && TimesOk(old(mapInfo)) ==> TimesOk(mapInfo)
        invariant Onward(old(mapInfo), old(tried), nIdCount, mapInfo, tried, nIdCount)
        invariant old(CollisionsValid()) ==> CollisionsValid()
        decreases todo
      {
        ghost var some := Element(todo);
        var id :| id in todo;
        assert multiset(todo) == multiset(todo - {id}) + multiset{id};
        todo := todo - {id};
        ghost var before := Now();
        assert Later(clock, ticks)(3) == clock(3 + ticks);
        ghost var eraseCollision := ResolveTurn(id, Later(clock, ticks), rnd);
        OnwardTrans(old(mapInfo), old(tried), before.infos, before.tried, mapInfo, tried, nIdCount);
        ResolvesMore(env, nKey, order, answers, states, clock, id, eraseCollision, Now());
        order, answers, states := order + [id], answers + [eraseCollision], states + [Now()];
        ticks := ticks + 4;
      }
    }

    /** One turn of the loop of ResolveCollisions_ with the erasure of the collision. */
    method ResolveTurn(id: int, clock: nat -> int, rnd: nat) returns (ghost resolved: bool)
      requires Valid()
      modifies this`mapInfo, this`mapAddr, this`vRandom, this`nNew, this`nTried, this`new_, this`tried,
               this`nLastGood, this`triedCollisions, vvNew, vvTried
      ensures Valid() && ResolvesAt(env, nKey, id, resolved, old(Now()), Now(), clock)
      ensures clock(3) > 0 && TimesOk(old(mapInfo)) ==> TimesOk(mapInfo)
      ensures Onward(old(mapInfo), old(tried), nIdCount, mapInfo, tried, nIdCount)
      ensures old(CollisionsValid()) ==> CollisionsValid()
    {
      hide RandomOk, AddrOk, CountOk, TriedOk, NewOk, Onward, CollisionsOk, TimesOk, ResolveStep, ResolvesAt;
      var eraseCollision := ResolveOne(id, clock, rnd);
      if old(CollisionsValid()) {
        OnwardKeepsCollisions(env, nKey, old(mapInfo), old(tried), nIdCount, mapInfo, tried, nIdCount, triedCollisions);
        FewerCollisions(env, nKey, mapInfo, tried, nIdCount, triedCollisions, id);
      }
      if eraseCollision {
        triedCollisions := triedCollisions - {id};
      }
      resolved := eraseCollision;
      AnswerGiven(env, nKey, id, resolved, old(Now()), Now(), clock);
    }

    ghost function Now(): Snapshot
      reads this
    {
      Snapshot(mapInfo, tried, new_, triedCollisions)
    }

    /**
     The entry that a pending collision would evict.  `mapInfo[id_old]` is std::map::operator[], which
     inserts a blank entry under -1 when the tried cell is empty; CollisionsValid excludes just that.
     */
    method SelectTriedCollision() returns (info: AddrInfo, ghost idNew: int)
      requires Valid()
      modifies this`mapInfo, this`triedCollisions
      ensures old(triedCollisions) == {} || idNew in old(triedCollisions)
      ensures triedCollisions == {} ==> old(triedCollisions) == {} || old(triedCollisions) == {idNew}
      ensures old(triedCollisions) == {} || idNew !in old(mapInfo) || !Valid() ==>
                info == AddrInfo(Address(Service(NetAddr([]), 0), 0, 100000000), NetAddr([]), 0, 0, 0, 0, 0, false, -1)
      ensures !Valid() ==> mapInfo == old(mapInfo)[-1 := info]
      ensures Valid() <==> (idNew in old(triedCollisions) && idNew in old(mapInfo) ==>
                              Occupied(env, nKey, old(mapInfo)[idNew], tried))
      ensures Valid() ==> mapInfo == old(mapInfo)
      ensures idNew in old(mapInfo) && idNew in old(triedCollisions) && Valid() ==>
                var slot := TriedSlot(env, nKey, old(mapInfo)[idNew].addr.service);
                slot in tried && tried[slot] in mapInfo && info == mapInfo[tried[slot]] && info.inTried
      ensures triedCollisions == if idNew in old(mapInfo) then old(triedCollisions) else old(triedCollisions) - {idNew}
      ensures old(CollisionsValid()) ==> Valid() && CollisionsValid()
    {
      hide RandomOk, AddrOk, TriedOk, NewOk, Tried, NonTried, TriedBucket, BucketPosition;
      idNew := -1;
      var blank := NewInfo(Address(Service(NetAddr([]), 0), 0, 100000000), NetAddr([]));
      if triedCollisions == {} {
        NoMinusOne(env, nKey, mapInfo, new_, {});
        return blank, -1;
      }
      ghost var some := Element(triedCollisions);
      var id :| id in triedCollisions;
      idNew := id;
      if id !in mapInfo {
        triedCollisions := triedCollisions - {id};
        return blank, id;
      }
      var service := mapInfo[id].addr.service;
      var triedBucket := TriedBucket(env, nKey, service);
      var triedBucketPos := BucketPosition(env, nKey, false, triedBucket, service);
      assert tried[(triedBucket, triedBucketPos)] == vvTried[triedBucket, triedBucketPos];
      var idOld := vvTried[triedBucket, triedBucketPos];
      NoMinusOne(env, nKey, mapInfo, new_, {});
      if idOld !in mapInfo {
        if idOld != -1 {
          TriedFacts(env, nKey, mapInfo, tried, (triedBucket, triedBucketPos));
        }
        mapInfo := mapInfo[idOld := blank];
        MinusOneBreaks(env, nKey, mapInfo, new_, {});
      } else {
        TriedFacts(env, nKey, mapInfo, tried, (triedBucket, triedBucketPos));
      }
      info := mapInfo[idOld];
    }
  }
}
