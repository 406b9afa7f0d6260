/** Unserialize after Serialize gives back the same manager, up to the names of the ids. */
module AddrRoundTrip {
  import opened AddrTypes
  import opened AddrInvariant
  import opened AddrManager
  import opened AddrStream
  import opened AddrLoad
  import opened AddrSerialize
  import opened AddrUnserialize

  /** The id that entry `id` gets when the state with ids below n is read back. */
  ghost function NewName(m: Infos, n: int, id: int): int
    requires id in m
  {
    if m[id].inTried then |Ids(m, false, n)| + |Ids(m, true, id)| else |Ids(m, false, id)|
  }

  /** A bucket table with every id renamed. */
  ghost function Renamed(m: Infos, n: int, t: Table): Table
    requires forall c | c in t && t[c] != -1 :: t[c] in m
  {
    map c | c in t :: if t[c] == -1 then -1 else NewName(m, n, t[c])
  }

  /** `b` is `a` with its ids renamed and its memory-only fields forgotten. */
  ghost predicate SameUpToNames(a: AddrMan, b: AddrMan)
    reads a, b
  {
    && b.nKey == a.nKey && b.nNew == a.nNew && b.nTried == a.nTried
    && |b.mapInfo| == |a.mapInfo|
    && (forall id | id in a.mapInfo :: CarriedOver(a, b, id))
    && (forall i, j | i in a.mapInfo && j in a.mapInfo && i != j ::
          NewName(a.mapInfo, a.nIdCount, i) != NewName(a.mapInfo, a.nIdCount, j))
    && (forall c | c in a.tried && a.tried[c] != -1 :: a.tried[c] in a.mapInfo)
    && (forall c | c in a.new_ && a.new_[c] != -1 :: a.new_[c] in a.mapInfo)
    && b.tried == Renamed(a.mapInfo, a.nIdCount, a.tried)
    && b.new_ == Renamed(a.mapInfo, a.nIdCount, a.new_)
  }

  /** The entry is there under its new name, with all persisted fields, its table and its reference count. */
  ghost predicate CarriedOver(a: AddrMan, b: AddrMan, id: int)
    requires id in a.mapInfo
    reads a, b
  {
    var name := NewName(a.mapInfo, a.nIdCount, id);
    && name in b.mapInfo
    && AsRead(b.mapInfo[name], Persisted(a.mapInfo[id]))
    && b.mapInfo[name].inTried == a.mapInfo[id].inTried
    && b.mapInfo[name].refCount == a.mapInfo[id].refCount
  }

  /** Writes `a` and reads the result into `b`: no entry is lost and the invariant holds again. */
  method RoundTrip(a: AddrMan, b: AddrMan, randomKey: nat)
    requires a.Valid() && b.Arrays() && b.env == a.env
    requires {a as object, a.vvNew, a.vvTried} !! {b as object, b.vvNew, b.vvTried}
    modifies b, b.vvNew, b.vvTried
    ensures b.Inv({}, 0) && SameUpToNames(a, b)
  {
    hide RandomOk, AddrOk, CountOk, TriedOk, NewOk, Restored, Encode, SameUpToNames, Loadable, Mirrors;
    var s := Serialize(a);
    StateLoadable(a.env, a.nKey, a.mapInfo, a.mapAddr, a.vRandom, a.nIdCount, a.tried, a.new_);
    ghost var src := SourceOf(a);
    var ok, _ := Unserialize(b, s, randomKey, src);
    RestoredSame(a, b);
  }

  lemma RestoredSame(a: AddrMan, b: AddrMan)
    requires a.Inv({}, 0) && b.Inv({}, 0) && b.env == a.env && Restored(b, SourceOf(a))
    ensures SameUpToNames(a, b)
  {
    hide RandomOk, AddrOk, CountOk, TriedOk, NewOk, Restored, Ids, RecordsOf, Renumber, CarriedOver, NewName, Renamed;
    var m, n := a.mapInfo, a.nIdCount;
    IdsBelow(m, a.vRandom, n);
    InTables(a.env, a.nKey, m, a.tried, a.new_);
    SizesSame(a, b);
    NewTableSame(a, b);
    forall id | id in m ensures CarriedOver(a, b, id) {
      EntrySame(a, b, id);
    }
    forall i, j | i in m && j in m && i != j ensures NewName(m, n, i) != NewName(m, n, j) {
      NamesDiffer(m, n, i, j);
    }
    TriedTableSame(a, b);
  }

  lemma InTables(env: Env, key: nat, m: Infos, tried: Table, new_: Table)
    requires TriedOk(env, key, m, tried) && NewOk(env, key, m, new_, {})
    ensures forall c | c in tried && tried[c] != -1 :: tried[c] in m
    ensures forall c | c in new_ && new_[c] != -1 :: new_[c] in m && !m[new_[c]].inTried
  {
  }

  lemma SizesSame(a: AddrMan, b: AddrMan)
    requires a.Inv({}, 0) && Restored(b, SourceOf(a))
    ensures b.nKey == a.nKey && b.nNew == a.nNew && b.nTried == a.nTried && |b.mapInfo| == |a.mapInfo|
  {
    hide TriedOk, NewOk, AddrOk, Ids, RecordsOf;
    IdsTotal(a.mapInfo, a.nIdCount);
    var total := |Ids(a.mapInfo, false, a.nIdCount)| + |Ids(a.mapInfo, true, a.nIdCount)|;
    IntervalSize(b.mapInfo.Keys, 0, total);
    assert a.mapInfo.Keys == Tried(a.mapInfo) + NonTried(a.mapInfo);
    assert Tried(a.mapInfo) !! NonTried(a.mapInfo);
    assert |a.mapInfo.Keys| == total;
  }

  lemma NamesDiffer(m: Infos, n: int, i: int, j: int)
    requires i in m && j in m && i != j && forall id | id in m :: 0 <= id < n
    ensures NewName(m, n, i) != NewName(m, n, j)
  {
    hide Ids;
    IdsRank(m, m[i].inTried, n, i);
    IdsRank(m, m[j].inTried, n, j);
  }

  lemma NewTableSame(a: AddrMan, b: AddrMan)
    requires Restored(b, SourceOf(a))
    requires forall c | c in a.new_ && a.new_[c] != -1 :: a.new_[c] in a.mapInfo && !a.mapInfo[a.new_[c]].inTried
    ensures b.new_ == Renamed(a.mapInfo, a.nIdCount, a.new_)
  {
    hide Ids, RecordsOf;
  }

  lemma EntrySame(a: AddrMan, b: AddrMan, id: int)
    requires a.Inv({}, 0) && b.Inv({}, 0) && b.env == a.env && Restored(b, SourceOf(a)) && id in a.mapInfo
    ensures CarriedOver(a, b, id)
  {
    hide RandomOk, AddrOk, CountOk, TriedOk, NewOk, Ids, RecordsOf, Slots;
    var m, n := a.mapInfo, a.nIdCount;
    IdsBelow(m, a.vRandom, n);
    IdsRank(m, m[id].inTried, n, id);
    var k := |Ids(m, m[id].inTried, id)|;
    RecordAt(m, m[id].inTried, n, k);
    var name := NewName(m, n, id);
    assert name in b.mapInfo;
    if m[id].inTried {
      NoReferences(a.env, a.nKey, m, a.tried, id);
      NoReferences(b.env, b.nKey, b.mapInfo, b.tried, name);
    } else {
      SlotsCount(a.env, a.nKey, m, a.new_, id);
      SlotsCount(b.env, b.nKey, b.mapInfo, b.new_, name);
      RenumberSlots(a.env, a.nKey, m, n, a.new_, k);
    }
  }

  lemma NoReferences(env: Env, key: nat, m: Infos, tried: Table, id: int)
    requires TriedOk(env, key, m, tried) && id in m && m[id].inTried
    ensures m[id].refCount == 0
  {
  }

  /** The tried table is not in the stream: it is rebuilt from the entries. */
  lemma TriedTableSame(a: AddrMan, b: AddrMan)
    requires a.Inv({}, 0) && b.Inv({}, 0) && b.env == a.env && Restored(b, SourceOf(a))
    requires forall id | id in a.mapInfo :: CarriedOver(a, b, id)
    requires forall c | c in a.tried && a.tried[c] != -1 :: a.tried[c] in a.mapInfo
    ensures b.tried == Renamed(a.mapInfo, a.nIdCount, a.tried)
  {
    hide RandomOk, AddrOk, CountOk, NewOk, Ids, RecordsOf, TriedSlot, NewName;
    var m, n := a.mapInfo, a.nIdCount;
    NoMinusOne(a.env, a.nKey, m, a.new_, {});
    forall c | c in a.tried
      ensures c in b.tried && b.tried[c] == Renamed(m, n, a.tried)[c]
    {
      if a.tried[c] != -1 {
        assert CarriedOver(a, b, a.tried[c]);
      } else {
        forall j | j in b.mapInfo && b.mapInfo[j].inTried
          ensures TriedSlot(b.env, b.nKey, b.mapInfo[j].addr.service) != c
        {
          FromTried(a, b, j);
          var id :| id in m && m[id].inTried && m[id].addr == b.mapInfo[j].addr;
          assert a.tried[TriedSlot(a.env, a.nKey, m[id].addr.service)] == id;
        }
      }
    }
  }

  /** Every tried entry of the restored manager comes from one of the original. */
  lemma FromTried(a: AddrMan, b: AddrMan, j: int)
    requires a.Inv({}, 0) && Restored(b, SourceOf(a)) && j in b.mapInfo && b.mapInfo[j].inTried
    ensures exists id :: id in a.mapInfo && a.mapInfo[id].inTried && a.mapInfo[id].addr == b.mapInfo[j].addr
  {
    hide RandomOk, AddrOk, CountOk, TriedOk, NewOk, Ids, RecordsOf;
    var m, n := a.mapInfo, a.nIdCount;
    var f := |Ids(m, false, n)|;
    assert j >= f;
    var k := j - f;
    assert f + k in b.mapInfo;
    IdsMember(m, true, n, k);
    RecordAt(m, true, n, k);
    var id := Ids(m, true, n)[k];
    assert id in m && m[id].inTried && m[id].addr == b.mapInfo[j].addr;
  }
}
