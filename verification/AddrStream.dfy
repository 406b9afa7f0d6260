/**
 The serialized form of the address manager (src/addrman.h): a sequence of typed tokens, the
 order in which entries are written, and what a stream must satisfy to be read back unchanged.
 */
module AddrStream {
  import opened AddrTypes
  import opened AddrInvariant

  /** The fields of a CAddrInfo that are written to disk. */
  datatype Record = Record(addr: Address, source: NetAddr, lastSuccess: int, attempts: int)

  datatype Token = Byte(b: nat) | Key(k: nat) | Int(n: int) | Rec(r: Record)

  function Persisted(info: AddrInfo): Record {
    Record(info.addr, info.source, info.lastSuccess, info.attempts)
  }

  /** The entry has the record's data and, of what is not written, no tries. */
  ghost predicate AsRead(info: AddrInfo, r: Record) {
    Persisted(info) == r && info.lastTry == 0 && info.lastCountAttempt == 0
  }

  function Loaded(r: Record): AddrInfo {
    AddrInfo(r.addr, r.source, 0, 0, r.lastSuccess, r.attempts, 0, false, -1)
  }

  /** XOR with 2**30 on a 32-bit two's complement integer. */
  function FlipBit30(n: int): int {
    if (n / 0x4000_0000) % 2 == 1 then n - 0x4000_0000 else n + 0x4000_0000
  }

  lemma FlipTwice(n: int)
    ensures FlipBit30(FlipBit30(n)) == n
  {
    if (n / 0x4000_0000) % 2 == 1 {
      assert (n - 0x4000_0000) / 0x4000_0000 == n / 0x4000_0000 - 1;
    } else {
      assert (n + 0x4000_0000) / 0x4000_0000 == n / 0x4000_0000 + 1;
    }
  }

  // ---- entries in the order of std::map ----

  /** The ids below n of the tried (or the other) entries, ascending. */
  ghost function Ids(m: Infos, tried: bool, n: int): seq<int>
    decreases n
  {
    if n <= 0 then []
    else Ids(m, tried, n - 1) + (if n - 1 in m && m[n - 1].inTried == tried then [n - 1] else [])
  }

  lemma {:induction false} IdsMember(m: Infos, tried: bool, n: int, k: int)
    requires 0 <= k < |Ids(m, tried, n)|
    ensures var id := Ids(m, tried, n)[k]; 0 <= id < n && id in m && m[id].inTried == tried && |Ids(m, tried, id)| == k
    decreases n
  {
    if k < |Ids(m, tried, n - 1)| {
      IdsMember(m, tried, n - 1, k);
    }
  }

  lemma {:induction false} IdsRank(m: Infos, tried: bool, n: int, id: int)
    requires 0 <= id < n && id in m && m[id].inTried == tried
    ensures |Ids(m, tried, id)| < |Ids(m, tried, n)| && Ids(m, tried, n)[|Ids(m, tried, id)|] == id
    decreases n
  {
    if id < n - 1 {
      IdsRank(m, tried, n - 1, id);
    }
  }

  lemma {:induction false} IdsCount(m: Infos, tried: bool, n: int)
    requires n >= 0
    ensures |Ids(m, tried, n)| == |set id | id in m && id < n && 0 <= id && m[id].inTried == tried|
  {
    var s := set id | id in m && id < n && 0 <= id && m[id].inTried == tried;
    if n == 0 {
      assert s == {};
    } else {
      IdsCount(m, tried, n - 1);
      var s' := set id | id in m && id < n - 1 && 0 <= id && m[id].inTried == tried;
      if n - 1 in m && m[n - 1].inTried == tried {
        assert s == s' + {n - 1};
      } else {
        assert s == s';
      }
    }
  }

  /** How many new and how many tried entries are written. */
  lemma IdsTotal(m: Infos, n: int)
    requires n >= 0 && forall id | id in m :: 0 <= id < n
    ensures |Ids(m, false, n)| == |NonTried(m)| && |Ids(m, true, n)| == |Tried(m)|
  {
    IdsCount(m, false, n);
    IdsCount(m, true, n);
    assert NonTried(m) == set id | id in m && id < n && 0 <= id && m[id].inTried == false;
    assert Tried(m) == set id | id in m && id < n && 0 <= id && m[id].inTried == true;
  }

  /** The records of those entries, in the same order. */
  ghost function RecordsOf(m: Infos, tried: bool, n: int): (rs: seq<Record>)
    ensures |rs| == |Ids(m, tried, n)|
    decreases n
  {
    if n <= 0 then []
    else RecordsOf(m, tried, n - 1) + (if n - 1 in m && m[n - 1].inTried == tried then [Persisted(m[n - 1])] else [])
  }

  lemma {:induction false} RecordAt(m: Infos, tried: bool, n: int, k: int)
    requires 0 <= k < |Ids(m, tried, n)|
    ensures Ids(m, tried, n)[k] in m && RecordsOf(m, tried, n)[k] == Persisted(m[Ids(m, tried, n)[k]])
    decreases n
  {
    if k < |Ids(m, tried, n - 1)| {
      RecordAt(m, tried, n - 1, k);
    }
  }

  /** The new table with each id replaced by its index among the written new entries. */
  ghost function Renumber(m: Infos, t: Table): Table {
    map c | c in t :: if t[c] == -1 then -1 else |Ids(m, false, t[c])|
  }

  // ---- the rows of the new table ----

  /** The indexes in bucket b, positions below i. */
  ghost function RowPrefix(t: Table, b: int, i: int): seq<Token>
    decreases i
  {
    if i <= 0 then []
    else RowPrefix(t, b, i - 1) + (if (b, i - 1) in t && t[(b, i - 1)] != -1 then [Int(t[(b, i - 1)])] else [])
  }

  ghost function Row(t: Table, b: int, width: int): seq<Token> {
    [Int(|RowPrefix(t, b, width)|)] + RowPrefix(t, b, width)
  }

  ghost function Rows(t: Table, b: int, width: int): seq<Token>
    decreases b
  {
    if b <= 0 then [] else Rows(t, b - 1, width) + Row(t, b - 1, width)
  }

  lemma RowPrefixNext(t: Table, b: int, i: nat)
    requires (b, i) in t
    ensures RowPrefix(t, b, i + 1) == RowPrefix(t, b, i) + if t[(b, i)] != -1 then [Int(t[(b, i)])] else []
    ensures RowPrefix(t, b, 0) == []
  {
  }

  lemma RenumberAt(m: Infos, t: Table, c: (int, int))
    requires c in t
    ensures c in Renumber(m, t) && Renumber(m, t)[c] == if t[c] == -1 then -1 else |Ids(m, false, t[c])|
  {
  }

  lemma {:induction false} RowGrows(t: Table, b: int, i: int, j: int)
    requires 0 <= i <= j
    ensures RowPrefix(t, b, i) <= RowPrefix(t, b, j)
    decreases j
  {
    if i < j {
      RowGrows(t, b, i, j - 1);
    }
  }

  lemma {:induction false} RowsGrow(t: Table, b: int, c: int, width: int)
    requires 0 <= b <= c
    ensures Rows(t, b, width) <= Rows(t, c, width)
    decreases c
  {
    if b < c {
      RowsGrow(t, b, c - 1, width);
    }
  }

  /** Where the size of bucket b and the index for cell (b, i) sit among all rows. */
  lemma RowsAt(t: Table, n: int, width: int, b: int, i: int)
    requires 0 <= b < n && 0 <= i < width
    ensures
      var all := Rows(t, n, width);
      var start := |Rows(t, b, width)|;
      && |Rows(t, b + 1, width)| == start + 1 + |RowPrefix(t, b, width)| <= |all|
      && all[start] == Int(|RowPrefix(t, b, width)|)
      && ((b, i) in t && t[(b, i)] != -1 ==>
            && |RowPrefix(t, b, i)| < |RowPrefix(t, b, width)|
            && all[start + 1 + |RowPrefix(t, b, i)|] == Int(t[(b, i)]))
  {
    RowsGrow(t, b + 1, n, width);
    RowGrows(t, b, i + 1, width);
    var all := Rows(t, n, width);
    var start := |Rows(t, b, width)|;
    assert Rows(t, b + 1, width) == Rows(t, b, width) + Row(t, b, width);
    assert all[start] == Row(t, b, width)[0];
    if (b, i) in t && t[(b, i)] != -1 {
      var k := |RowPrefix(t, b, i)|;
      assert RowPrefix(t, b, width)[k] == RowPrefix(t, b, i + 1)[k];
      assert all[start + 1 + k] == Row(t, b, width)[1 + k];
    }
  }

  /** The next occupied cell of a row that has some left. */
  lemma {:induction false} NextCell(t: Table, b: int, i: int, width: int) returns (j: int)
    requires 0 <= i <= width && |RowPrefix(t, b, i)| < |RowPrefix(t, b, width)|
    ensures i <= j < width && (b, j) in t && t[(b, j)] != -1
    ensures RowPrefix(t, b, j) == RowPrefix(t, b, i)
    ensures forall k | i <= k < j :: (b, k) !in t || t[(b, k)] == -1
    decreases width - i
  {
    if (b, i) in t && t[(b, i)] != -1 {
      j := i;
    } else {
      j := NextCell(t, b, i + 1, width);
    }
  }

  /** No occupied cell is left when as many indexes were read as the row has. */
  lemma NoCell(t: Table, b: int, i: int, k: int, width: int)
    requires 0 <= i <= k < width && |RowPrefix(t, b, i)| == |RowPrefix(t, b, width)|
    ensures (b, k) !in t || t[(b, k)] == -1
  {
    RowGrows(t, b, i, k);
    RowGrows(t, b, k + 1, width);
  }

  // ---- whole streams ----

  /** What a stream says: the key, the records, and the new table in terms of record indexes. */
  datatype Source = Source(key: nat, news: seq<Record>, trieds: seq<Record>, table: Table)

  ghost function RecTokens(rs: seq<Record>): (ts: seq<Token>)
    ensures |ts| == |rs|
  {
    seq(|rs|, k requires 0 <= k < |rs| => Rec(rs[k]))
  }

  ghost function Header(src: Source): seq<Token> {
    [Byte(1), Byte(32), Key(src.key), Int(|src.news|), Int(|src.trieds|), Int(FlipBit30(NEW_BUCKET_COUNT))]
  }

  /** The stream for a new table of n buckets of the given width. */
  ghost function Encode(src: Source, n: int, width: int): seq<Token> {
    Header(src) + RecTokens(src.news) + RecTokens(src.trieds) + Rows(src.table, n, width)
  }

  /** Nothing in the stream gets in the way of anything else in it. */
  ghost predicate Loadable(env: Env, src: Source) {
    && |src.news| <= NEW_BUCKET_COUNT * BUCKET_SIZE && |src.trieds| <= TRIED_BUCKET_COUNT * BUCKET_SIZE
    && DistinctNets(src.news + src.trieds)
    && DistinctSlots(env, src.key, src.trieds)
    && Shape(src.table, NEW_BUCKET_COUNT)
    && (forall c | c in src.table && src.table[c] != -1 :: PlacedRecord(env, src, c))
    && (forall k | 0 <= k < |src.news| :: 1 <= |Slots(src.table, k)| <= NEW_BUCKETS_PER_ADDRESS)
  }

  ghost predicate PlacedRecord(env: Env, src: Source, c: (int, int))
    requires c in src.table
  {
    0 <= src.table[c] < |src.news|
    && BucketPosition(env, src.key, true, c.0, src.news[src.table[c]].addr.service) == c.1
  }

  ghost predicate DistinctNets(rs: seq<Record>) {
    forall i, j | 0 <= i < j < |rs| :: rs[i].addr.service.net != rs[j].addr.service.net
  }

  ghost predicate DistinctSlots(env: Env, key: nat, rs: seq<Record>) {
    forall i, j | 0 <= i < j < |rs| ::
      TriedSlot(env, key, rs[i].addr.service) != TriedSlot(env, key, rs[j].addr.service)
  }

  /** The stream source of a state with ids below n. */
  ghost function StateSource(key: nat, m: Infos, new_: Table, n: int): Source {
    Source(key, RecordsOf(m, false, n), RecordsOf(m, true, n), Renumber(m, new_))
  }
}
