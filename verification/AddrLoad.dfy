/** Why the stream written for a consistent address manager can be read back without loss. */
module AddrLoad {
  import opened AddrTypes
  import opened AddrInvariant
  import opened AddrStream
  import opened AddrCapacity

  lemma StateLoadable(env: Env, key: nat, m: Infos, byAddr: map<NetAddr, int>, random: seq<int>, n: int, tried: Table,
                      new_: Table)
    requires RandomOk(m, random, n) && AddrOk(m, byAddr) && TriedOk(env, key, m, tried) && NewOk(env, key, m, new_, {})
    ensures Loadable(env, StateSource(key, m, new_, n))
  {
    hide RandomOk, AddrOk, TriedOk, NewOk, Ids, RecordsOf, Renumber, Slots, DistinctNets, DistinctSlots;
    var src := StateSource(key, m, new_, n);
    IdsBelow(m, random, n);
    IdsTotal(m, n);
    TableCapacity(env, key, m, tried, new_);
    NetsDistinct(m, byAddr, n);
    SlotsDistinct(env, key, m, tried, n);
    TableLoadable(env, key, m, random, n, new_);
  }

  lemma IdsBelow(m: Infos, random: seq<int>, n: int)
    requires RandomOk(m, random, n)
    ensures n >= 0 && forall id | id in m :: 0 <= id < n
  {
  }

  lemma NetsDistinct(m: Infos, byAddr: map<NetAddr, int>, n: int)
    requires AddrOk(m, byAddr)
    ensures DistinctNets(RecordsOf(m, false, n) + RecordsOf(m, true, n))
  {
    var ids := Ids(m, false, n) + Ids(m, true, n);
    var rs := RecordsOf(m, false, n) + RecordsOf(m, true, n);
    forall k | 0 <= k < |rs|
      ensures ids[k] in m && rs[k] == Persisted(m[ids[k]]) && m[ids[k]].inTried == (k >= |Ids(m, false, n)|)
    {
      var f := |Ids(m, false, n)|;
      if k < f {
        RecordAt(m, false, n, k);
        IdsMember(m, false, n, k);
      } else {
        RecordAt(m, true, n, k - f);
        IdsMember(m, true, n, k - f);
      }
    }
    forall i, j | 0 <= i < j < |rs| ensures rs[i].addr.service.net != rs[j].addr.service.net {
      IdsDistinct(m, n, i, j);
      assert MappedBy(m[ids[i]], ids[i], byAddr) && MappedBy(m[ids[j]], ids[j], byAddr);
    }
  }

  lemma IdsDistinct(m: Infos, n: int, i: int, j: int)
    requires 0 <= i < j < |Ids(m, false, n) + Ids(m, true, n)|
    ensures (Ids(m, false, n) + Ids(m, true, n))[i] != (Ids(m, false, n) + Ids(m, true, n))[j]
  {
    var f := |Ids(m, false, n)|;
    if i < f { IdsMember(m, false, n, i); } else { IdsMember(m, true, n, i - f); }
    if j < f { IdsMember(m, false, n, j); } else { IdsMember(m, true, n, j - f); }
  }

  lemma SlotsDistinct(env: Env, key: nat, m: Infos, tried: Table, n: int)
    requires TriedOk(env, key, m, tried)
    ensures DistinctSlots(env, key, RecordsOf(m, true, n))
  {
    hide Ids, RecordsOf, TriedSlot;
    var rs := RecordsOf(m, true, n);
    forall i, j | 0 <= i < j < |rs|
      ensures TriedSlot(env, key, rs[i].addr.service) != TriedSlot(env, key, rs[j].addr.service)
    {
      RecordAt(m, true, n, i);
      RecordAt(m, true, n, j);
      IdsMember(m, true, n, i);
      IdsMember(m, true, n, j);
    }
  }

  lemma TableLoadable(env: Env, key: nat, m: Infos, random: seq<int>, n: int, new_: Table)
    requires RandomOk(m, random, n) && NewOk(env, key, m, new_, {})
    ensures
      var src := StateSource(key, m, new_, n);
      && Shape(src.table, NEW_BUCKET_COUNT)
      && (forall c | c in src.table && src.table[c] != -1 :: PlacedRecord(env, src, c))
      && (forall k | 0 <= k < |src.news| :: 1 <= |Slots(src.table, k)| <= NEW_BUCKETS_PER_ADDRESS)
  {
    hide Ids, RecordsOf, RefsOk, Slots, RandomOk;
    var src := StateSource(key, m, new_, n);
    IdsBelow(m, random, n);
    forall c | c in src.table && src.table[c] != -1 ensures PlacedRecord(env, src, c) {
      IdsRank(m, false, n, new_[c]);
      RecordAt(m, false, n, |Ids(m, false, new_[c])|);
    }
    forall k | 0 <= k < |src.news| ensures 1 <= |Slots(src.table, k)| <= NEW_BUCKETS_PER_ADDRESS {
      IdsMember(m, false, n, k);
      RenumberSlots(env, key, m, n, new_, k);
      RefBound(env, key, m, new_, Ids(m, false, n)[k]);
      SlotsCount(env, key, m, new_, Ids(m, false, n)[k]);
    }
  }

  lemma SlotsCount(env: Env, key: nat, m: Infos, new_: Table, id: int)
    requires NewOk(env, key, m, new_, {}) && id in m && !m[id].inTried
    ensures |Slots(new_, id)| == m[id].refCount
  {
    assert RefOk(m[id], |Slots(new_, id)|, false);
  }

  /** The cells of index k are those of the k-th new id. */
  lemma RenumberSlots(env: Env, key: nat, m: Infos, n: int, new_: Table, k: int)
    requires NewOk(env, key, m, new_, {}) && 0 <= k < |Ids(m, false, n)|
    requires forall id | id in m :: 0 <= id < n
    ensures Slots(Renumber(m, new_), k) == Slots(new_, Ids(m, false, n)[k])
  {
    hide Ids, RefsOk;
    IdsMember(m, false, n, k);
    forall c | c in new_ ensures Renumber(m, new_)[c] == k <==> new_[c] == Ids(m, false, n)[k] {
      if new_[c] != -1 {
        IdsRank(m, false, n, new_[c]);
      }
    }
  }
}
