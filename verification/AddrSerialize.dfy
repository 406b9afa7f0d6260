/** CAddrMan::Serialize and Unserialize (src/addrman.h), and that reading undoes writing. */
module AddrSerialize {
  import opened AddrTypes
  import opened AddrInvariant
  import opened AddrManager
  import opened AddrStream

  ghost function SourceOf(a: AddrMan): Source
    reads a
  {
    StateSource(a.nKey, a.mapInfo, a.new_, a.nIdCount)
  }

  method Serialize(a: AddrMan) returns (s: seq<Token>)
    requires a.Valid()
    ensures s == Encode(SourceOf(a), a.vvNew.Length0, a.vvNew.Length1)
    ensures |s| >= 6 && s[..6] == [Byte(1), Byte(32), Key(a.nKey), Int(a.nNew), Int(a.nTried), Int(0x4000_0400)]
  {
    hide RandomOk, AddrOk, TriedOk, NewOk, Tried, NonTried, RowPrefix, Rows, Row, Ids, RecordsOf;
    ghost var m := a.mapInfo;
    CountsWritten(a);
    s := [Byte(1), Byte(32), Key(a.nKey), Int(a.nNew), Int(a.nTried), Int(FlipBit30(NEW_BUCKET_COUNT))];
    var entries, mapUnkIds := WriteNew(a);
    s := s + entries;
    entries := WriteTried(a);
    s := s + entries;
    entries := WriteBuckets(a, mapUnkIds);
    s := s + entries;
    assert s[..6] == Header(SourceOf(a));
  }

  lemma CountsWritten(a: AddrMan)
    requires a.Valid()
    ensures a.nNew == |Ids(a.mapInfo, false, a.nIdCount)| && a.nTried == |Ids(a.mapInfo, true, a.nIdCount)|
  {
    IdsTotal(a.mapInfo, a.nIdCount);
  }

  /** The entries of mapInfo are visited by ascending id, as std::map iterates. */
  method WriteNew(a: AddrMan) returns (s: seq<Token>, mapUnkIds: map<int, int>)
    requires a.Valid()
    ensures s == RecTokens(RecordsOf(a.mapInfo, false, a.nIdCount))
    ensures forall id | id in a.mapInfo :: id in mapUnkIds && mapUnkIds[id] == |Ids(a.mapInfo, false, id)|
  {
    hide TriedOk, NewOk, Tried, NonTried;
    s, mapUnkIds := [], map[];
    var nIds := 0;
    CountsWritten(a);
    for id := 0 to a.nIdCount
      invariant nIds == |Ids(a.mapInfo, false, id)|
      invariant s == RecTokens(RecordsOf(a.mapInfo, false, id))
      invariant forall j | j in a.mapInfo && j < id :: j in mapUnkIds && mapUnkIds[j] == |Ids(a.mapInfo, false, j)|
    {
      if id in a.mapInfo {
        mapUnkIds := mapUnkIds[id := nIds];
        var info := a.mapInfo[id];
        CountedWhenNew(a, id);
        if info.refCount != 0 {
          IdsRank(a.mapInfo, false, a.nIdCount, id);
          assert nIds != a.nNew;
          s := s + [Rec(Persisted(info))];
          nIds := nIds + 1;
        }
      }
    }
  }

  lemma CountedWhenNew(a: AddrMan, id: int)
    requires a.Valid() && id in a.mapInfo
    ensures a.mapInfo[id].refCount != 0 <==> !a.mapInfo[id].inTried
  {
    if !a.mapInfo[id].inTried {
      RefBound(a.env, a.nKey, a.mapInfo, a.new_, id);
    }
  }

  method WriteTried(a: AddrMan) returns (s: seq<Token>)
    requires a.Valid()
    ensures s == RecTokens(RecordsOf(a.mapInfo, true, a.nIdCount))
  {
    hide TriedOk, NewOk, Tried, NonTried;
    s := [];
    var nIds := 0;
    CountsWritten(a);
    for id := 0 to a.nIdCount
      invariant nIds == |Ids(a.mapInfo, true, id)|
      invariant s == RecTokens(RecordsOf(a.mapInfo, true, id))
    {
      if id in a.mapInfo {
        var info := a.mapInfo[id];
        if info.inTried {
          IdsRank(a.mapInfo, true, a.nIdCount, id);
          assert nIds != a.nTried;
          s := s + [Rec(Persisted(info))];
          nIds := nIds + 1;
        }
      }
    }
  }

  method WriteBuckets(a: AddrMan, mapUnkIds: map<int, int>) returns (s: seq<Token>)
    requires a.Valid()
    requires forall id | id in a.mapInfo :: id in mapUnkIds && mapUnkIds[id] == |Ids(a.mapInfo, false, id)|
    ensures s == Rows(Renumber(a.mapInfo, a.new_), a.vvNew.Length0, a.vvNew.Length1)
  {
    hide TriedOk, NewOk, Tried, NonTried, RandomOk, AddrOk;
    s := [];
    ghost var t := Renumber(a.mapInfo, a.new_);
    for bucket := 0 to a.vvNew.Length0
      invariant s == Rows(t, bucket, a.vvNew.Length1)
    {
      var row := WriteBucket(a, mapUnkIds, bucket);
      s := s + row;
    }
  }

  method WriteBucket(a: AddrMan, mapUnkIds: map<int, int>, bucket: int) returns (s: seq<Token>)
    requires a.Valid() && 0 <= bucket < a.vvNew.Length0
    requires forall id | id in a.mapInfo :: id in mapUnkIds && mapUnkIds[id] == |Ids(a.mapInfo, false, id)|
    ensures s == Row(Renumber(a.mapInfo, a.new_), bucket, a.vvNew.Length1)
  {
    hide TriedOk, NewOk, Tried, NonTried, RandomOk, AddrOk, CountOk, RowPrefix, Renumber, Ids;
    ghost var t := Renumber(a.mapInfo, a.new_);
    var nSize := 0;
    RenumberAt(a.mapInfo, a.new_, (bucket, 0));
    RowPrefixNext(t, bucket, 0);
    for i := 0 to a.vvNew.Length1
      invariant nSize == |RowPrefix(t, bucket, i)|
    {
      RenumberAt(a.mapInfo, a.new_, (bucket, i));
      RowPrefixNext(t, bucket, i);
      if a.vvNew[bucket, i] != -1 {
        nSize := nSize + 1;
      }
    }
    s := [Int(nSize)];
    for i := 0 to a.vvNew.Length1
      invariant s == [Int(nSize)] + RowPrefix(t, bucket, i)
    {
      RenumberAt(a.mapInfo, a.new_, (bucket, i));
      RowPrefixNext(t, bucket, i);
      if a.vvNew[bucket, i] != -1 {
        PlacedFacts(a.env, a.nKey, a.mapInfo, a.new_, {}, (bucket, i));
        var nIndex := mapUnkIds[a.vvNew[bucket, i]];
        s := s + [Int(nIndex)];
      }
    }
  }
}
