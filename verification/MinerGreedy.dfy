/**
 What the selection of packages amounts to (src/miner.cpp:905-1075): a replay of choices each of which, of all the
 transactions not in the block nor chosen before, pays the most per byte for what it would still bring into the block.
 */
module MinerGreedy {
  import opened Collections
  import opened MinerPool
  import opened MinerModified
  import opened MinerScore

  /** The totals of the transaction with those of its ancestors that are not in the block. */
  ghost function Remaining(pool: Pool, block: set<Tx>, t: Tx): Entry {
    var package := pool.Family(t) - block;
    Entry(pool.Total(package, pool.Sizes()), pool.Total(package, pool.modifiedFee), pool.Total(package, pool.Ops()))
  }

  /**
   But for transactions chosen before, the modified map has exactly those with an ancestor in the block, with what is
   left of their totals.
   */
  ghost predicate Exact(pool: Pool, block: set<Tx>, m: ModifiedMap, chosen: set<Tx>) {
    && (forall t | t in m && t !in chosen :: m[t] == Remaining(pool, block, t))
    && (forall t | t in pool.order && t !in block && t !in chosen && pool.ancestors(t) * block != {} :: t in m)
  }

  lemma NothingGone(pool: Pool, block: set<Tx>, t: Tx)
    requires t !in block && pool.ancestors(t) * block == {}
    ensures Remaining(pool, block, t) == Whole(pool, t)
  {
    assert pool.Family(t) - block == pool.Family(t);
  }

  lemma RemainingSplit(pool: Pool, block: set<Tx>, added: set<Tx>, t: Tx)
    requires block !! added && t !in added
    ensures var left, gone := Remaining(pool, block + added, t), pool.ancestors(t) * added;
            var e := Remaining(pool, block, t);
            && left.size == e.size - pool.Total(gone, pool.Sizes())
            && left.fees == e.fees - pool.Total(gone, pool.modifiedFee)
            && left.sigOps == e.sigOps - pool.Total(gone, pool.Ops())
  {
    hide Sum;
    var gone, left := pool.ancestors(t) * added, pool.Family(t) - (block + added);
    assert pool.Family(t) - block == left + gone;
    SumSplit(pool.order, left, gone, pool.Sizes());
    SumSplit(pool.order, left, gone, pool.Ops());
    SumSplit(pool.order, left, gone, pool.modifiedFee);
  }

  /** The update for a whole package keeps the map exact. */
  lemma ExactMore(pool: Pool, block: set<Tx>, m: ModifiedMap, chosen: set<Tx>, added: set<Tx>, m': ModifiedMap)
    requires pool.Unadjusted() && Exact(pool, block, m, chosen) && block !! added
    requires Deducted(pool, m - added, m', added, added) && forall t | t in m' :: t in pool.order && t !in block + added
    ensures Exact(pool, block + added, m', chosen)
  {
    hide Sum, Whole, Pool.Total, Pool.Unadjusted, Remaining;
    forall t | t in m' && t !in chosen ensures m'[t] == Remaining(pool, block + added, t) {
      assert DeductedAt(pool, m - added, m', added, added, t);
      if t !in m {
        NothingGone(pool, block, t);
      }
      RemainingSplit(pool, block, added, t);
    }
    forall t | t in pool.order && t !in block + added && t !in chosen && pool.ancestors(t) * (block + added) != {}
      ensures t in m'
    {
      assert DeductedAt(pool, m - added, m', added, added, t);
      assert pool.ancestors(t) * (block + added) == pool.ancestors(t) * block + pool.ancestors(t) * added;
    }
  }

  lemma ExactStart(pool: Pool, block: set<Tx>, m: ModifiedMap)
    requires pool.Unadjusted() && Deducted(pool, map[], m, block, block)
    requires forall t | t in m :: t in pool.order && t !in block
    ensures Exact(pool, block, m, {})
  {
    hide Deducted;
    var none: ModifiedMap := map[];
    assert none - block == none && {} + block == block;
    ExactMore(pool, {}, none, {}, block, m);
  }

  lemma ExactLess(pool: Pool, block: set<Tx>, m: ModifiedMap, chosen: set<Tx>, m': ModifiedMap, t: Tx)
    requires Exact(pool, block, m, chosen) && (m' == m || m' == m - {t})
    ensures Exact(pool, block, m', chosen + {t})
  {
    hide Remaining;
  }

  /** A choice, the totals it was judged by, and whether it went into the block. */
  datatype Pick = Pick(tx: Tx, totals: Entry, taken: bool)

  ghost function Txs(picks: seq<Pick>): set<Tx> { set p | p in picks :: p.tx }

  ghost function BlockAfter(pool: Pool, block: set<Tx>, picks: seq<Pick>): set<Tx> {
    if picks == [] then block
    else
      var before, last := BlockAfter(pool, block, picks[..|picks| - 1]), picks[|picks| - 1];
      if last.taken then before + pool.Family(last.tx) else before
  }

  /** Nothing left that was not chosen before pays more per byte for what it would bring than this does. */
  ghost predicate PaysBest(pool: Pool, block: set<Tx>, chosen: set<Tx>, t: Tx, e: Entry) {
    && t in pool.order && t !in block && Sized(pool, t, e) && (t !in chosen ==> e == Remaining(pool, block, t))
    && (forall u | u in pool.order && u !in block && u !in chosen ::
          && Sized(pool, u, Remaining(pool, block, u))
          && Rate(pool, u, Remaining(pool, block, u)) <= Rate(pool, t, e))
  }

  /** The package has room under the limits and every transaction it brings is final. */
  ghost predicate Takes(pool: Pool, block: set<Tx>, weight: int, sigOps: int, maxWeight: int, maxSigOps: int, p: Pick) {
    && weight + 4 * p.totals.size < maxWeight && sigOps + p.totals.sigOps < maxSigOps
    && forall t | t in pool.Family(p.tx) && t !in block :: pool.final(t)
  }

  lemma TxsMore(picks: seq<Pick>, p: Pick)
    ensures Txs(picks + [p]) == Txs(picks) + {p.tx}
  {
    forall t ensures t in Txs(picks + [p]) <==> t in Txs(picks) + {p.tx} {
      if t in Txs(picks) {
        var q :| q in picks && q.tx == t;
        assert q in picks + [p];
      }
      if t == p.tx {
        assert p in picks + [p];
      }
    }
  }

  lemma BlockMore(pool: Pool, block: set<Tx>, picks: seq<Pick>, p: Pick)
    ensures BlockAfter(pool, block, picks + [p]) ==
            BlockAfter(pool, block, picks) + if p.taken then pool.Family(p.tx) else {}
  {
    assert (picks + [p])[..|picks|] == picks;
  }

  /** What was chosen from the map or from mapTx is the best of all that is left. */
  lemma ChoicePaysBest(pool: Pool, block: set<Tx>, m: ModifiedMap, chosen: set<Tx>, mi: nat, t: Tx, e: Entry)
    requires pool.Ok() && AllSized(pool) && Exact(pool, block, m, chosen) && mi <= |pool.order|
    requires t in pool.order && t !in block && Sized(pool, t, e)
    requires (t in m && e == m[t]) || (t !in m && e == Whole(pool, t))
    requires forall u | u in m :: Sized(pool, u, m[u]) && Rate(pool, u, m[u]) <= Rate(pool, t, e)
    requires forall k | mi <= k < |pool.order| ::
               var u := pool.order[k];
               Sized(pool, u, Whole(pool, u)) && Rate(pool, u, Whole(pool, u)) <= Rate(pool, t, e)
    requires forall k | 0 <= k < mi :: pool.order[k] in m || pool.order[k] in block || pool.order[k] in chosen
    ensures PaysBest(pool, block, chosen, t, e)
  {
    hide Remaining, Whole, Rate, Sized, Pool.Ok, AllSized;
    if t !in chosen && t !in m {
      NothingGone(pool, block, t);
    }
    forall u | u in pool.order && u !in block && u !in chosen
      ensures Sized(pool, u, Remaining(pool, block, u))
      ensures Rate(pool, u, Remaining(pool, block, u)) <= Rate(pool, t, e)
    {
      if u !in m {
        NothingGone(pool, block, u);
        var k: nat :| k < |pool.order| && pool.order[k] == u;
      }
    }
  }
}
