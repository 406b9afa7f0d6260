/** A block relayed compactly arrives as it was sent (src/blockencodings.cpp, src/blockencodings.h). */
module CompactRelay {
  import opened Wrappers
  import opened CompactModel
  import opened CompactIndexes
  import opened CompactBlock

  ghost predicate Announces(m: Message, vtx: seq<Tx>, shortId: Hash -> nat, hash: Tx -> Hash)
    requires |vtx| > 0
  {
    && m.prefilled == [Prefilled(0, vtx[0])] && |m.shortIds| == |vtx| - 1
    && forall i | 0 < i < |vtx| :: m.shortIds[i - 1] == shortId(hash(vtx[i]))
  }

  /** No two transactions of the block after the coinbase have the same short id. */
  ghost predicate DistinctIds(vtx: seq<Tx>, shortId: Hash -> nat, hash: Tx -> Hash) {
    forall i, j | 0 < i < j < |vtx| :: shortId(hash(vtx[i])) != shortId(hash(vtx[j]))
  }

  /** No candidate other than the transaction itself has the short id of a transaction of the block. */
  ghost predicate NoForeign(vtx: seq<Tx>, shortId: Hash -> nat, hash: Tx -> Hash, all: seq<Candidate>) {
    forall i, j: nat | 0 < i < |vtx| && CompactModel.Fits(shortId, all, j, shortId(hash(vtx[i]))) :: all[j].tx == vtx[i]
  }

  lemma {:induction false} FreeRest(slots: seq<Slot>, i: nat, k: nat)
    requires i <= |slots| && (forall p | i <= p < |slots| :: slots[p].Empty?) && k < |FreeFrom(slots, i)|
    ensures FreeFrom(slots, i)[k] == i + k
    decreases |slots| - i
  {
    if k > 0 {
      FreeRest(slots, i + 1, k - 1);
    }
  }

  lemma FreeAfterCoinbase(m: Message, vtx: seq<Tx>, slots: seq<Slot>)
    requires |vtx| > 0 && m.prefilled == [Prefilled(0, vtx[0])] && |m.shortIds| == |vtx| - 1
             && Placed(m, slots, |m.prefilled|)
    ensures slots[0] == Has(vtx[0]) && (forall p | 0 < p < |slots| :: slots[p].Empty?)
    ensures |Free(slots)| == |vtx| - 1 && forall k | 0 <= k < |Free(slots)| :: Free(slots)[k] == k + 1
  {
    assert Pos(m.prefilled, 0) == 0;
    forall p | 0 < p < |slots| ensures slots[p].Empty? {
      assert forall i: nat | i < |m.prefilled| :: Pos(m.prefilled, i) != p;
    }
    assert Free(slots) == FreeFrom(slots, 1);
    forall k | 0 <= k < |Free(slots)| ensures Free(slots)[k] == k + 1 {
      FreeRest(slots, 1, k);
    }
  }

  /** Whatever the receiver has found is the block's transaction at that position. */
  lemma FoundAgrees(m: Message, vtx: seq<Tx>, shortId: Hash -> nat, hash: Tx -> Hash, all: seq<Candidate>,
                    start: seq<Slot>, ids: map<nat, nat>, slots: seq<Slot>)
    requires |vtx| > 0 && Announces(m, vtx, shortId, hash) && NoForeign(vtx, shortId, hash, all)
    requires Received(m, all, shortId, start, ids, slots)
    ensures |slots| == |vtx| && forall p | 0 <= p < |slots| && slots[p].Has? :: slots[p].tx == vtx[p]
  {
    hide FreeFrom;
    FreeAfterCoinbase(m, vtx, start);
    forall p | 0 <= p < |slots| && slots[p].Has? ensures slots[p].tx == vtx[p] {
      if p in ids.Values {
        var s :| s in ids && ids[s] == p;
        var i :| 0 <= i < |m.shortIds| && m.shortIds[i] == s;
        assert p == i + 1;
        assert s == shortId(hash(vtx[p]));
        var j: nat :| CompactModel.Fits(shortId, all, j, s) && all[j].tx == slots[ids[s]].tx;
      }
    }
  }

  lemma MissingAreIndexes(slots: seq<Slot>)
    requires |slots| <= 65535
    ensures Increasing(Free(slots)) && Are16Bit(Free(slots))
            && forall k | 0 <= k < |Free(slots)| :: Free(slots)[k] < |slots|
  {
    FreeExactly(slots, 0);
    var free := Free(slots);
    assert forall k | 0 <= k < |free| :: free[k] in free;
  }

  /** The request as it travels: what is missing, coded as gaps and read back. */
  method SendRequest(indexes: seq<nat>) returns (received: seq<nat>)
    requires Increasing(indexes) && Are16Bit(indexes)
    ensures received == indexes
  {
    var wire := Write(indexes);
    RoundTrip(indexes, wire);
    forall k: nat | k < |wire| ensures wire[k] >= 0 {
      assert wire[k] == Gap(indexes, k);
    }
    var r := Read(wire);
    received := r.value;
  }

  /**
   Relay.  With distinct short ids and no foreign candidate, the receiver reconstructs exactly the sender's
   transactions, whatever its mempool and extra transactions hold, unless the hash table of short ids is crowded.
   */
  method Relay(vtx: seq<Tx>, shortId: Hash -> nat, hash: Tx -> Hash, wtxid: Tx -> Hash, isNull: Tx -> bool, maxTx: nat,
               pool: seq<Candidate>, extra: seq<Candidate>, crowded: nat -> bool, peer: PartiallyDownloadedBlock)
    returns (status: ReadStatus, got: seq<Tx>)
    requires 0 < |vtx| <= maxTx && |vtx| <= 65535 && !isNull(vtx[0])
    requires DistinctIds(vtx, shortId, hash) && NoForeign(vtx, shortId, hash, pool + extra)
    requires forall i: nat :: !crowded(i)
    requires !peer.header && peer.txn_available == [] && peer.mempool_count == 0
    modifies peer
    ensures status == ReadOk && got == vtx
  {
    hide FreeFrom, Received, NoForeign, Completed, Pick, Increasing, Are16Bit;
    got := [];
    var m := Announce(vtx, shortId, hash);
    assert PrefilledOk(m, isNull, 0);
    ghost var start, ids, scan;
    forall i, j | 0 <= i < j < |m.shortIds| ensures m.shortIds[i] != m.shortIds[j] {
      assert m.shortIds[i] == shortId(hash(vtx[i + 1])) && m.shortIds[j] == shortId(hash(vtx[j + 1]));
    }
    status, start, ids, scan := peer.InitData(m, false, isNull, maxTx, pool, extra, shortId, wtxid, crowded);
    ghost var slots := peer.txn_available;
    FoundAgrees(m, vtx, shortId, hash, pool + extra, start, ids, slots);
    MissingAreIndexes(slots);
    var indexes := peer.MissingIndexes();
    var request := SendRequest(indexes);
    var answer := Serve(vtx, request);
    CompletedIsBlock(slots, vtx, 0);
    PickSize(vtx, request);
    status, got := peer.FillBlock(answer.value, true, false);
    assert vtx[0..] == vtx;
  }

  lemma PickSize(vtx: seq<Tx>, index: seq<nat>)
    requires forall k | 0 <= k < |index| :: index[k] < |vtx|
    ensures |Pick(vtx, index)| == |index|
  {
  }
}
