/**
 Compact block relay: announcing a block, matching it against the mempool, requesting and filling in the rest
 (src/blockencodings.cpp; the request and its answer from src/net_processing.cpp).
 */
module CompactBlock {
  import opened Collections
  import opened Wrappers
  import opened CompactModel
  import opened CompactIndexes

  datatype ReadStatus = ReadOk | Invalid | Failed | CheckBlockFailed

  /** The announcement of a block: the coinbase prefilled and the short ids of the others. */
  method Announce(vtx: seq<Tx>, shortId: Hash -> nat, hash: Tx -> Hash) returns (m: Message)
    requires |vtx| > 0
    ensures m.prefilled == [Prefilled(0, vtx[0])] && |m.shortIds| == |vtx| - 1
    ensures forall i | 0 < i < |vtx| :: m.shortIds[i - 1] == shortId(hash(vtx[i]))
  {
    var ids := new nat[|vtx| - 1];
    for i := 1 to |vtx|
      invariant forall j | 0 < j < i :: ids[j - 1] == shortId(hash(vtx[j]))
    {
      ids[i - 1] := shortId(hash(vtx[i]));
    }
    m := Message(ids[..], [Prefilled(0, vtx[0])]);
  }

  class PartiallyDownloadedBlock {
    var txn_available: seq<Slot>
    var prefilled_count: nat
    var mempool_count: int
    var extra_count: int
    /** Whether a header has been set. */
    var header: bool

    constructor ()
      ensures txn_available == [] && !header && prefilled_count == mempool_count == extra_count == 0
    {
      txn_available, prefilled_count, mempool_count, extra_count, header := [], 0, 0, 0, false;
    }

    /** The prefilled transactions go to their positions; a message with one that cannot is refused. */
    method PlacePrefilled(m: Message, isNull: Tx -> bool) returns (status: ReadStatus)
      modifies this`txn_available
      ensures status == ReadOk || status == Invalid
      ensures status == ReadOk <==> forall i: nat | i < |m.prefilled| :: PrefilledOk(m, isNull, i)
      ensures status == ReadOk ==> Placed(m, txn_available, |m.prefilled|)
    {
      hide Placed, FreeFrom;
      txn_available := seq(m.TxCount(), _ => Empty);
      PlacedNone(m, txn_available);
      var last := -1;
      for i := 0 to |m.prefilled|
        invariant last == if i == 0 then -1 else Pos(m.prefilled, i - 1)
        invariant Placed(m, txn_available, i) && forall j: nat | j < i :: PrefilledOk(m, isNull, j)
      {
        if isNull(m.prefilled[i].tx) {
          assert !PrefilledOk(m, isNull, i);
          return Invalid;
        }
        last := last + m.prefilled[i].index + 1;
        assert last == Pos(m.prefilled, i);
        if last > 65535 || last > |m.shortIds| + i {
          assert !PrefilledOk(m, isNull, i);
          return Invalid;
        }
        PlaceNext(m, isNull, txn_available, i);
        txn_available := txn_available[last := Has(m.prefilled[i].tx)];
      }
      return ReadOk;
    }

    /**
     The map from short ids to the free positions; it fails for colliding ids and crowded buckets of the hash table.
     */
    method MapShortIds(m: Message, crowded: nat -> bool) returns (status: ReadStatus, ids: map<nat, nat>)
      requires Placed(m, txn_available, |m.prefilled|)
      ensures status == ReadOk || status == Failed
      ensures status == ReadOk ==> Maps(m, txn_available, ids)
      ensures status == Failed <==> !Distinct(m.shortIds) || exists i: nat :: i < |m.shortIds| && crowded(i)
    {
      hide FreeFrom;
      ids := map[];
      var offset := 0;
      for i := 0 to |m.shortIds|
        invariant i + offset <= |txn_available| && FreeFrom(txn_available, i + offset) == Free(txn_available)[i..]
        invariant Mapped(m.shortIds, Free(txn_available), ids, i) && forall j: nat | j < i :: !crowded(j)
      {
        offset := SkipTaken(i, offset);
        MapNext(m.shortIds, Free(txn_available), ids, i);
        ids := ids[m.shortIds[i] := i + offset];
        if crowded(i) {
          return Failed, ids;
        }
      }
      assert m.shortIds[..|m.shortIds|] == m.shortIds;
      SetSize(m.shortIds);
      if |ids| != |m.shortIds| {
        return Failed, ids;
      }
      return ReadOk, ids;
    }

    /** The offset grows past positions already taken; a free position is always left, so the access stays in range. */
    method SkipTaken(i: nat, offset: nat) returns (offset': nat)
      requires i < |Free(txn_available)| && i + offset <= |txn_available|
      requires FreeFrom(txn_available, i + offset) == Free(txn_available)[i..]
      ensures i + offset' < |txn_available| && offset <= offset' && Free(txn_available)[i] == i + offset'
      ensures FreeFrom(txn_available, i + offset' + 1) == Free(txn_available)[i + 1..]
    {
      hide FreeFrom;
      offset' := offset;
      FreeNext(txn_available, i + offset');
      while txn_available[i + offset'].Has?
        invariant i + offset' < |txn_available| && FreeFrom(txn_available, i + offset') == Free(txn_available)[i..]
        invariant offset' >= offset
        decreases |txn_available| - offset'
      {
        FreeNext(txn_available, i + offset');
        FreeNext(txn_available, i + offset' + 1);
        offset' := offset' + 1;
      }
      FreeNext(txn_available, i + offset');
      assert Free(txn_available)[i] == Free(txn_available)[i..][0];
      assert Free(txn_available)[i + 1..] == Free(txn_available)[i..][1..];
    }

    /** One candidate from the mempool or the extra transactions. */
    method LookAt(c: Candidate, isExtra: bool, judge: Judge, ids: map<nat, nat>, have: seq<bool>)
      returns (have': seq<bool>)
      requires |have| == |txn_available| && (forall s | s in ids :: ids[s] < |have|)
      requires forall s | s in ids && !have[ids[s]] :: txn_available[ids[s]].Empty?
      requires (forall s, t | s in ids && t in ids && s != t :: ids[s] != ids[t])
               && mempool_count == |Found(ids, txn_available)|
      modifies this`txn_available, this`mempool_count, this`extra_count
      ensures |have'| == |txn_available| == |have| && mempool_count == |Found(ids, txn_available)|
      ensures extra_count == old(extra_count) + if isExtra then mempool_count - old(mempool_count) else 0
      ensures var s := judge.shortId(c.hash);
              if s in ids then
                var p := ids[s];
                && have' == have[p := true]
                && txn_available ==
                   old(txn_available)[p := Answer(judge, isExtra, old(txn_available[p]), have[p], c.tx)]
              else have' == have && txn_available == old(txn_available)
    {
      hide Found;
      have' := have;
      var s := judge.shortId(c.hash);
      if s in ids {
        var p := ids[s];
        FoundCount(ids, txn_available, s, Answer(judge, isExtra, txn_available[p], have[p], c.tx));
        if !have[p] {
          txn_available := txn_available[p := Has(c.tx)];
          have' := have[p := true];
          mempool_count := mempool_count + 1;
          extra_count := if isExtra then extra_count + 1 else extra_count;
        } else if txn_available[p].Has? && !(isExtra && judge.wtxid(txn_available[p].tx) == judge.wtxid(c.tx)) {
          txn_available := txn_available[p := Empty];
          mempool_count := mempool_count - 1;
          extra_count := if isExtra then extra_count - 1 else extra_count;
        }
        assert have' == have[p := true];
      }
    }

    /** The mempool; stops early once every id has been found. */
    method MatchPool(pool: seq<Candidate>, judge: Judge, ids: map<nat, nat>, ghost start: seq<Slot>)
      returns (have: seq<bool>, k: nat)
      requires start == txn_available && judge.extra == |pool| && mempool_count == 0
      requires forall s | s in ids :: ids[s] < |start| && start[ids[s]].Empty?
      requires forall s, t | s in ids && t in ids && s != t :: ids[s] != ids[t]
      modifies this`txn_available, this`mempool_count, this`extra_count
      ensures extra_count == old(extra_count)
      ensures k <= |pool| && AllSettled(judge, pool[..k], ids, start, txn_available, have)
      ensures mempool_count == |Found(ids, txn_available)|
      ensures k < |pool| ==> forall s | s in ids :: txn_available[ids[s]].Has?
    {
      hide AllSettled, Found, Answer;
      have := seq(|txn_available|, _ => false);
      k := 0;
      StartSettled(judge, ids, start, have);
      NoneFound(ids, start);
      for i := 0 to |pool|
        invariant k == i && AllSettled(judge, pool[..i], ids, start, txn_available, have)
        invariant extra_count == old(extra_count)
        invariant |txn_available| == |start| && mempool_count == |Found(ids, txn_available)|
      {
        SettledHave(judge, pool[..i], ids, start, txn_available, have);
        Looked(judge, pool[..i], ids, start, txn_available, have, pool[i]);
        have := LookAt(pool[i], false, judge, ids, have);
        assert pool[..i + 1] == pool[..i] + [pool[i]];
        k := i + 1;
        if mempool_count == |ids| {
          FoundAll(ids, txn_available);
          break;
        }
      }
    }

    /** The extra transactions, after the mempool; stops early in the same way. */
    method MatchExtra(extra: seq<Candidate>, judge: Judge, ids: map<nat, nat>, ghost start: seq<Slot>,
                      ghost seen: seq<Candidate>, have0: seq<bool>)
      returns (have: seq<bool>, ghost k: nat)
      requires AllSettled(judge, seen, ids, start, txn_available, have0) && judge.extra == |seen|
      requires forall s, t | s in ids && t in ids && s != t :: ids[s] != ids[t]
      requires (forall s | s in ids :: ids[s] < |txn_available|) && mempool_count == |Found(ids, txn_available)|
      modifies this`txn_available, this`mempool_count, this`extra_count
      ensures extra_count - old(extra_count) == mempool_count - old(mempool_count)
      ensures k <= |extra| && AllSettled(judge, seen + extra[..k], ids, start, txn_available, have)
      ensures |txn_available| == |start| && mempool_count == |Found(ids, txn_available)|
      ensures k < |extra| ==> forall s | s in ids :: txn_available[ids[s]].Has?
    {
      hide AllSettled, Found, Answer;
      have, k := have0, 0;
      SettledHave(judge, seen, ids, start, txn_available, have);
      assert seen + extra[..0] == seen;
      for i := 0 to |extra|
        invariant k == i && AllSettled(judge, seen + extra[..i], ids, start, txn_available, have)
        invariant extra_count - old(extra_count) == mempool_count - old(mempool_count)
        invariant |txn_available| == |start| && mempool_count == |Found(ids, txn_available)|
      {
        SettledHave(judge, seen + extra[..i], ids, start, txn_available, have);
        Looked(judge, seen + extra[..i], ids, start, txn_available, have, extra[i]);
        have := LookAt(extra[i], true, judge, ids, have);
        assert seen + extra[..i + 1] == seen + extra[..i] + [extra[i]];
        k := i + 1;
        if mempool_count == |ids| {
          FoundAll(ids, txn_available);
          break;
        }
      }
    }

    /**
     Any message, mempool and extra transactions.  An accepted message leaves its prefilled transactions in place, and
     each short id's position empty or holding a candidate with that short id; an id that exactly one candidate has is
     found. `scan` says how far the candidates were looked at, and what that settled, conflicts included. `crowded` is
     the bucket test of the hash table after each id.
     */
    method InitData(m: Message, headerIsNull: bool, isNull: Tx -> bool, maxTx: nat, pool: seq<Candidate>,
                    extra: seq<Candidate>,
                    shortId: Hash -> nat, wtxid: Tx -> Hash, crowded: nat -> bool)
      returns (status: ReadStatus, ghost start: seq<Slot>, ghost ids: map<nat, nat>, ghost scan: Scan)
      requires !header && txn_available == [] && mempool_count == 0
      modifies this
      ensures status == Invalid <==>
              headerIsNull || !(0 < m.TxCount() <= maxTx)
              || exists i: nat :: i < |m.prefilled| && !PrefilledOk(m, isNull, i)
      ensures status == ReadOk ==> header && Received(m, pool + extra, shortId, start, ids, txn_available)
      ensures status == ReadOk ==> Scanned(shortId, wtxid, pool, extra, scan, ids, start, txn_available)
      ensures status == ReadOk ==>
                && prefilled_count == |m.prefilled| && mempool_count == |Found(ids, txn_available)|
                && extra_count - old(extra_count) == mempool_count - |Found(ids, scan.pooled)|
      ensures status != CheckBlockFailed
      ensures status != Invalid ==>
                (status == Failed <==> !Distinct(m.shortIds) || exists i: nat :: i < |m.shortIds| && crowded(i))
    {
      hide Placed, Maps, AllSettled, Found, Received;
      start, ids, scan := [], map[], Scan(0, 0, [], [], []);
      if headerIsNull || (m.shortIds == [] && m.prefilled == []) {
        return Invalid, start, ids, scan;
      }
      if |m.shortIds| + |m.prefilled| > maxTx {
        return Invalid, start, ids, scan;
      }
      header := true;
      status := PlacePrefilled(m, isNull);
      if status == Invalid {
        return;
      }
      start := txn_available;
      prefilled_count := |m.prefilled|;
      var map_;
      status, map_ := MapShortIds(m, crowded);
      ids := map_;
      if status == Failed {
        return;
      }
      MapsApart(m, start, map_);
      PlacedSize(m, start, |m.prefilled|);
      var judge := Judge(shortId, wtxid, |pool|);
      var have, k;
      ghost var l;
      have, k := MatchPool(pool, judge, map_, start);
      ghost var full, pooled, pooledHave := k < |pool|, txn_available, have;
      ExtraFrom(judge, pool[..k], map_, start, txn_available, have);
      SettledHave(judge, pool[..k], map_, start, txn_available, have);
      if full {
        FoundFits(judge, pool[..k], map_, start, txn_available, have);
      }
      judge := judge.(extra := |pool[..k]|);
      have, l := MatchExtra(extra, judge, map_, start, pool[..k], have);
      scan := Scan(k, l, have, pooled, pooledHave);
      AllReceived(m, pool, extra, judge, start, map_, txn_available, have, k, l);
    }

    /** The indexes to ask for. */
    method MissingIndexes() returns (indexes: seq<nat>)
      requires header
      ensures indexes == Free(txn_available)
    {
      indexes := [];
      for i := 0 to |txn_available|
        invariant Free(txn_available) == indexes + FreeFrom(txn_available, i)
      {
        if !IsTxAvailable(i) {
          assert indexes + ([i] + FreeFrom(txn_available, i + 1)) == indexes + [i] + FreeFrom(txn_available, i + 1);
          indexes := indexes + [i];
        }
      }
      assert indexes + [] == indexes;
    }

    predicate IsTxAvailable(index: nat)
      requires header && index < |txn_available|
      reads this
    {
      txn_available[index].Has?
    }

    /** The block from what is available and the transactions sent for the rest; `checked` is what CheckBlock says. */
    method FillBlock(missing: seq<Tx>, checked: bool, corruptionPossible: bool)
      returns (status: ReadStatus, vtx: seq<Tx>)
      requires header
      modifies this
      ensures status == Invalid <==> |missing| != |Free(old(txn_available))|
      ensures header <==> |missing| < |Free(old(txn_available))|
      ensures status != Invalid ==> vtx == Completed(old(txn_available), missing, 0) && !header && txn_available == []
      ensures status != Invalid ==>
                status == if checked then ReadOk else if corruptionPossible then Failed else CheckBlockFailed
    {
      hide FreeFrom, Completed;
      ghost var slots := txn_available;
      vtx := [];
      var offset := 0;
      for i := 0 to |txn_available|
        invariant header && |txn_available| == |slots| && offset <= |missing|
                  && forall p | i <= p < |slots| :: txn_available[p] == slots[p]
        invariant |Free(slots)| == offset + |FreeFrom(slots, i)|
        invariant |missing| == |Free(slots)| ==>
            Completed(slots, missing, 0) == vtx + Completed(slots, missing[offset..], i)
      {
        CompletedNext(slots, missing[offset..], i);
        if txn_available[i].Empty? {
          if |missing| <= offset {
            return Invalid, vtx;
          }
          vtx := vtx + [missing[offset]];
          assert missing[offset..][1..] == missing[offset + 1..];
          offset := offset + 1;
        } else {
          vtx := vtx + [txn_available[i].tx];
          txn_available := txn_available[i := Empty];
        }
      }
      CompletedNext(slots, missing[offset..], |slots|);
      header, txn_available := false, [];
      if |missing| != offset {
        return Invalid, vtx;
      }
      assert vtx + [] == vtx;
      if !checked {
        return if corruptionPossible then Failed else CheckBlockFailed, vtx;
      }
      return ReadOk, vtx;
    }
  }

  /** The answer to a request: the block's transactions at the indexes, or nothing if one is out of bounds. */
  method Serve(vtx: seq<Tx>, indexes: seq<nat>) returns (r: Result<seq<Tx>>)
    ensures r.Ok? <==> forall k | 0 <= k < |indexes| :: indexes[k] < |vtx|
    ensures r.Ok? ==> r.value == Pick(vtx, indexes)
  {
    var txn := [];
    for i := 0 to |indexes|
      invariant |txn| == i && forall k | 0 <= k < i :: indexes[k] < |vtx| && txn[k] == vtx[indexes[k]]
    {
      if indexes[i] >= |vtx| {
        return Thrown;
      }
      txn := txn + [vtx[indexes[i]]];
    }
    return Ok(txn);
  }

  // ---- matching ----

  /** Exactly one candidate has the short id. */
  ghost predicate FitsOnce(shortId: Hash -> nat, all: seq<Candidate>, s: nat) {
    exists i: nat :: Fits(shortId, all, i, s) && forall j: nat | Fits(shortId, all, j, s) :: j == i
  }

  /**
   How many candidates of each kind were looked at, and which positions one was found for; and the positions as the
   mempool alone left them.
   */
  datatype Scan = Scan(pool: nat, extra: nat, have: seq<bool>, pooled: seq<Slot>, pooledHave: seq<bool>)

  /** Every id is settled by the candidates looked at; where the scan stopped early, all ids had been found. */
  ghost predicate Scanned(shortId: Hash -> nat, wtxid: Tx -> Hash, pool: seq<Candidate>, extra: seq<Candidate>,
                          scan: Scan,
                          ids: map<nat, nat>, start: seq<Slot>, slots: seq<Slot>) {
    && scan.pool <= |pool| && scan.extra <= |extra|
    && AllSettled(Judge(shortId, wtxid, scan.pool), pool[..scan.pool] + extra[..scan.extra], ids, start, slots,
                  scan.have)
    && AllSettled(Judge(shortId, wtxid, scan.pool), pool[..scan.pool], ids, start, scan.pooled, scan.pooledHave)
    && (scan.pool < |pool| ==> forall s | s in ids :: exists i: nat :: Fits(shortId, pool[..scan.pool], i, s))
    && (scan.extra < |extra| ==> forall s | s in ids :: slots[ids[s]].Has?)
  }

  /** What an accepted message leaves behind. */
  ghost predicate Received(m: Message, all: seq<Candidate>, shortId: Hash -> nat, start: seq<Slot>, ids: map<nat, nat>,
                           slots: seq<Slot>) {
    && Placed(m, start, |m.prefilled|) && Maps(m, start, ids) && |slots| == m.TxCount()
    && (forall p | 0 <= p < |slots| && p !in ids.Values :: slots[p] == start[p])
    && (forall s | s in ids :: ids[s] < |slots|)
    && (forall s | s in ids && slots[ids[s]].Has? ::
          exists i: nat :: Fits(shortId, all, i, s) && all[i].tx == slots[ids[s]].tx)
    && (forall s | s in ids && FitsOnce(shortId, all, s) :: slots[ids[s]].Has?)
  }

  lemma PlacedSize(m: Message, slots: seq<Slot>, k: nat)
    requires Placed(m, slots, k)
    ensures |slots| == m.TxCount()
  {
  }

  /** Every id that has been found fits a candidate that was looked at. */
  lemma FoundFits(judge: Judge, seen: seq<Candidate>, ids: map<nat, nat>, start: seq<Slot>, slots: seq<Slot>,
                  have: seq<bool>)
    requires AllSettled(judge, seen, ids, start, slots, have) && forall s | s in ids :: slots[ids[s]].Has?
    ensures forall s | s in ids :: exists i: nat :: Fits(judge.shortId, seen, i, s)
  {
    forall s | s in ids ensures exists i: nat :: Fits(judge.shortId, seen, i, s) {
      assert Settled(judge, seen, s, slots[ids[s]], have[ids[s]]);
    }
  }

  /** The candidates looked at are some of all candidates. */
  lemma SeenInAll(shortId: Hash -> nat, pool: seq<Candidate>, extra: seq<Candidate>, k: nat, l: nat, i: nat, s: nat)
    returns (j: nat)
    requires k <= |pool| && l <= |extra| && Fits(shortId, pool[..k] + extra[..l], i, s)
    ensures Fits(shortId, pool + extra, j, s) && (pool + extra)[j] == (pool[..k] + extra[..l])[i]
    ensures j == if i < k then i else i - k + |pool|
  {
    j := if i < k then i else i - k + |pool|;
  }

  lemma AllReceived(m: Message, pool: seq<Candidate>, extra: seq<Candidate>, judge: Judge, start: seq<Slot>,
                    ids: map<nat, nat>,
                    slots: seq<Slot>, have: seq<bool>, k: nat, l: nat)
    requires Placed(m, start, |m.prefilled|) && Maps(m, start, ids) && k <= |pool| && l <= |extra|
    requires AllSettled(judge, pool[..k] + extra[..l], ids, start, slots, have)
    requires k < |pool| ==> forall s | s in ids :: exists i: nat :: Fits(judge.shortId, pool[..k], i, s)
    requires l < |extra| ==> forall s | s in ids :: slots[ids[s]].Has?
    ensures Received(m, pool + extra, judge.shortId, start, ids, slots)
  {
    hide Placed, Maps, Settled;
    var seen := pool[..k] + extra[..l];
    PlacedSize(m, start, |m.prefilled|);
    forall s | s in ids && slots[ids[s]].Has?
      ensures exists i: nat :: Fits(judge.shortId, pool + extra, i, s) && (pool + extra)[i].tx == slots[ids[s]].tx
    {
      HasMeans(judge, seen, s, slots[ids[s]], have[ids[s]]);
      var i: nat :| Fits(judge.shortId, seen, i, s) && seen[i].tx == slots[ids[s]].tx;
      var j := SeenInAll(judge.shortId, pool, extra, k, l, i, s);
    }
    forall s | s in ids && FitsOnce(judge.shortId, pool + extra, s) ensures slots[ids[s]].Has? {
      if slots[ids[s]].Empty? {
        EmptyMeansNone(judge, pool, extra, s, slots[ids[s]], have[ids[s]], k, l);
      }
    }
  }

  lemma HasMeans(judge: Judge, seen: seq<Candidate>, s: nat, slot: Slot, have: bool)
    requires Settled(judge, seen, s, slot, have) && slot.Has?
    ensures exists i: nat :: Fits(judge.shortId, seen, i, s) && seen[i].tx == slot.tx
  {
  }

  /** An id that is still missing at the end does not belong to exactly one candidate. */
  lemma EmptyMeansNone(judge: Judge, pool: seq<Candidate>, extra: seq<Candidate>, s: nat, slot: Slot, have: bool,
                       k: nat, l: nat)
    requires k <= |pool| && l == |extra| && Settled(judge, pool[..k] + extra[..l], s, slot, have) && slot.Empty?
    requires k < |pool| ==> exists i: nat :: Fits(judge.shortId, pool[..k], i, s)
    ensures !FitsOnce(judge.shortId, pool + extra, s)
  {
    var seen := pool[..k] + extra[..l];
    if have {
      var i: nat, j: nat :| Conflict(judge, seen, s, i, j);
      var i' := SeenInAll(judge.shortId, pool, extra, k, l, i, s);
      var j' := SeenInAll(judge.shortId, pool, extra, k, l, j, s);
      assert i' != j';
    } else {
      if k < |pool| {
        var i: nat :| Fits(judge.shortId, pool[..k], i, s);
        assert Fits(judge.shortId, seen, i, s);
      }
      assert seen == pool + extra;
    }
  }

  lemma CompletedNext(slots: seq<Slot>, missing: seq<Tx>, i: nat)
    requires i <= |slots|
    ensures i < |slots| ==> |FreeFrom(slots, i)| == |FreeFrom(slots, i + 1)| + (if slots[i].Empty? then 1 else 0)
    ensures i < |slots| && |missing| == |FreeFrom(slots, i)| ==>
              Completed(slots, missing, i) == if slots[i].Has? then [slots[i].tx] + Completed(slots, missing, i + 1)
              else [missing[0]] + Completed(slots, missing[1..], i + 1)
    ensures i == |slots| ==> FreeFrom(slots, i) == [] && (missing == [] ==> Completed(slots, missing, i) == [])
  {
  }

  ghost predicate Mapped(shortIds: seq<nat>, free: seq<nat>, ids: map<nat, nat>, i: nat)
    requires i <= |shortIds| <= |free|
  {
    && ids.Keys == Set(shortIds[..i])
    && (Distinct(shortIds[..i]) ==> forall j | 0 <= j < i :: shortIds[j] in ids && ids[shortIds[j]] == free[j])
  }

  lemma MapNext(shortIds: seq<nat>, free: seq<nat>, ids: map<nat, nat>, i: nat)
    requires i < |shortIds| <= |free| && Mapped(shortIds, free, ids, i)
    ensures Mapped(shortIds, free, ids[shortIds[i] := free[i]], i + 1)
  {
    SetNext(shortIds, i);
  }

  lemma StartSettled(judge: Judge, ids: map<nat, nat>, start: seq<Slot>, have: seq<bool>)
    requires |have| == |start| && (forall p | 0 <= p < |have| :: !have[p])
             && forall s | s in ids :: ids[s] < |start| && start[ids[s]].Empty?
    ensures AllSettled(judge, [], ids, start, start, have)
  {
  }

  lemma NoneFound(ids: map<nat, nat>, start: seq<Slot>)
    requires forall s | s in ids :: ids[s] < |start| && start[ids[s]].Empty?
    ensures Found(ids, start) == {}
  {
  }

  lemma SettledHave(judge: Judge, seen: seq<Candidate>, ids: map<nat, nat>, start: seq<Slot>, slots: seq<Slot>,
                    have: seq<bool>)
    requires AllSettled(judge, seen, ids, start, slots, have)
    ensures |slots| == |have| == |start|
    ensures forall s | s in ids :: ids[s] < |slots| && (!have[ids[s]] ==> slots[ids[s]].Empty?)
  {
  }

  lemma PlacedNone(m: Message, slots: seq<Slot>)
    requires |slots| == m.TxCount() && forall p | 0 <= p < |slots| :: slots[p].Empty?
    ensures Placed(m, slots, 0)
  {
    AllFree(slots, 0);
  }

  lemma FreeNext(slots: seq<Slot>, i: nat)
    requires i <= |slots|
    ensures i < |slots| ==> FreeFrom(slots, i) == (if slots[i].Empty? then [i] else []) + FreeFrom(slots, i + 1)
    ensures i == |slots| ==> FreeFrom(slots, i) == []
  {
  }

  lemma SetNext(ids: seq<nat>, i: nat)
    requires i < |ids|
    ensures Set(ids[..i + 1]) == Set(ids[..i]) + {ids[i]}
    ensures Distinct(ids[..i + 1]) ==> Distinct(ids[..i]) && forall j | 0 <= j < i :: ids[j] != ids[i]
  {
    assert ids[..i + 1] == ids[..i] + [ids[i]];
    if Distinct(ids[..i + 1]) {
      assert forall j | 0 <= j < i :: ids[..i + 1][j] == ids[j] && ids[..i][j] == ids[j];
      assert ids[..i + 1][i] == ids[i];
    }
  }
}
