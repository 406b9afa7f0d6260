/**
 mapModifiedTx: the entries whose ancestors are partly in the block, with what was deducted for those
 (src/miner.h:62-81).
 */
module MinerModified {
  import opened Collections
  import opened MinerPool

  datatype Entry = Entry(size: int, fees: int, sigOps: int)

  type ModifiedMap = map<Tx, Entry>

  /** CTxMemPoolModifiedEntry as constructed from a mempool entry. */
  function Whole(pool: Pool, t: Tx): Entry { Entry(pool.FullSize(t), pool.FullFees(t), pool.FullOps(t)) }

  /** Nothing in the map is in the block, and no entry claims less than what it would still bring with it. */
  ghost predicate Covers(pool: Pool, block: set<Tx>, m: ModifiedMap) {
    forall t | t in m :: t in pool.order && t !in block && Enough(pool, block, t, m[t])
  }

  /**
   The entry's size and sigops are at least those of the transaction and its ancestors not in the block; so are its fees
   unless some were adjusted.
   */
  ghost predicate Enough(pool: Pool, block: set<Tx>, t: Tx, e: Entry) {
    && e.size >= pool.Total(pool.Family(t) - block, pool.Sizes())
    && e.sigOps >= pool.Total(pool.Family(t) - block, pool.Ops())
    && (pool.Unadjusted() && pool.NonNegative() ==>
          e.fees >= pool.Total(pool.Family(t) - block, pool.modifiedFee))
  }

  /** The entry claims no more than the transaction with all its ancestors. */
  ghost predicate AtMostAll(pool: Pool, t: Tx, e: Entry) {
    && e.size <= pool.FullSize(t) && e.sigOps <= pool.FullOps(t)
    && (pool.NonNegative() ==> e.fees <= pool.FullFees(t))
  }

  ghost predicate Bounded(pool: Pool, m: ModifiedMap) { forall t | t in m :: AtMostAll(pool, t, m[t]) }

  /** An entry that is enough shows at least the fees a package has to pay. */
  lemma EnoughPays(pool: Pool, block: set<Tx>, t: Tx, e: Entry)
    requires pool.Ok() && pool.Paying() && t in pool.order && t !in block && Enough(pool, block, t, e)
    ensures e.fees >= 10000
  {
    SumMono(pool.order, {t}, pool.Family(t) - block, pool.modifiedFee);
    SumOne(pool.order, t, pool.modifiedFee);
  }

  lemma EnoughMore(pool: Pool, block: set<Tx>, more: set<Tx>, t: Tx, e: Entry)
    requires Enough(pool, block, t, e) && block <= more
    ensures Enough(pool, more, t, e)
  {
    SumMono(pool.order, pool.Family(t) - more, pool.Family(t) - block, pool.Sizes());
    SumMono(pool.order, pool.Family(t) - more, pool.Family(t) - block, pool.Ops());
    if pool.NonNegative() {
      SumMono(pool.order, pool.Family(t) - more, pool.Family(t) - block, pool.modifiedFee);
    }
  }

  lemma WholeEnough(pool: Pool, block: set<Tx>, t: Tx)
    ensures Enough(pool, block, t, Whole(pool, t))
  {
    assert pool.Family(t) - {} == pool.Family(t);
    EnoughMore(pool, {}, block, t, Whole(pool, t));
  }

  lemma CoversMore(pool: Pool, block: set<Tx>, m: ModifiedMap, more: set<Tx>, m': ModifiedMap)
    requires Covers(pool, block, m) && block <= more && m'.Keys <= m.Keys - more && forall t | t in m' :: m'[t] == m[t]
    ensures Covers(pool, more, m')
  {
    forall t | t in m' ensures t in pool.order && t !in more && Enough(pool, more, t, m'[t]) {
      EnoughMore(pool, block, more, t, m[t]);
    }
  }

  lemma CoversOutside(pool: Pool, block: set<Tx>, m: ModifiedMap)
    requires Covers(pool, block, m)
    ensures m.Keys !! block && forall t | t in m :: t in pool.order
  {
  }

  function Without(m: ModifiedMap, s: set<Tx>): ModifiedMap { m - s }

  lemma WithoutNone(m: ModifiedMap)
    ensures Without(m, {}) == m
  {
  }

  lemma WithoutMore(m: ModifiedMap, s: set<Tx>, t: Tx)
    ensures Without(m, s) - {t} == Without(m, s + {t})
  {
  }

  lemma CoversWithout(pool: Pool, block: set<Tx>, m: ModifiedMap, t: Tx)
    requires Covers(pool, block, m)
    ensures Covers(pool, block, m - {t})
  {
  }

  lemma WithoutBounded(pool: Pool, m: ModifiedMap, s: set<Tx>)
    ensures (Bounded(pool, m) ==> Bounded(pool, m - s)) && m.Keys <= (m - s).Keys + s
  {
  }

  lemma FamilyInPool(pool: Pool, t: Tx)
    requires pool.Ok() && t in pool.order
    ensures pool.Family(t) <= Elements(pool.order)
  {
  }

  lemma InFamily(pool: Pool, t: Tx)
    ensures t in pool.Family(t)
  {
  }

  /** The entry an update starts from. */
  function Start(pool: Pool, m: ModifiedMap, t: Tx): Entry { if t in m then m[t] else Whole(pool, t) }

  /** The transaction's entry once the additions in `done` have been deducted from it. */
  ghost predicate DeductedAt(pool: Pool, m: ModifiedMap, m': ModifiedMap, added: set<Tx>, done: set<Tx>, t: Tx) {
    && (t in m' <==> t in m || (t in pool.order && t !in added && pool.ancestors(t) * done != {}))
    && (t in m' ==> m'[t].size == Start(pool, m, t).size - pool.Total(pool.ancestors(t) * done, pool.Sizes()))
    && (t in m' ==> m'[t].sigOps == Start(pool, m, t).sigOps - pool.Total(pool.ancestors(t) * done, pool.Ops()))
    && (t in m' && pool.Unadjusted() ==>
          m'[t].fees == Start(pool, m, t).fees - pool.Total(pool.ancestors(t) * done, pool.modifiedFee))
    && (t in m' && pool.NonNegative() ==> m'[t].fees <= Start(pool, m, t).fees)
  }

  ghost predicate Deducted(pool: Pool, m: ModifiedMap, m': ModifiedMap, added: set<Tx>, done: set<Tx>) {
    forall t :: DeductedAt(pool, m, m', added, done, t)
  }

  lemma DeductedNothing(pool: Pool, m: ModifiedMap, added: set<Tx>)
    ensures Deducted(pool, m, m, added, {})
  {
    forall t ensures DeductedAt(pool, m, m, added, {}, t) {
      assert pool.ancestors(t) * {} == {};
      SumNone(pool.order, {}, pool.Sizes());
      SumNone(pool.order, {}, pool.Ops());
      SumNone(pool.order, {}, pool.modifiedFee);
    }
  }

  /** Deducting one more addition from one entry. */
  function Deduct(pool: Pool, m: ModifiedMap, it: Tx, t: Tx): ModifiedMap {
    if t in m then m[t := Entry(m[t].size - pool.Size(it), m[t].fees - pool.fee(it), m[t].sigOps - pool.sigOps(it))]
    else
      var e := Whole(pool, t);
      m[t := Entry(e.size - pool.Size(it), e.fees - pool.modifiedFee(it), e.sigOps - pool.sigOps(it))]
  }

  lemma DeductOne(pool: Pool, m: ModifiedMap, m': ModifiedMap, added: set<Tx>, done: set<Tx>, it: Tx, t: Tx)
    requires pool.Ok() && DeductedAt(pool, m, m', added, done, t) && t in pool.Descendants(it) - added
    requires it in pool.order && it !in done && done <= added && it in added
    ensures DeductedAt(pool, m, Deduct(pool, m', it, t), added, done + {it}, t)
  {
    hide Sum;
    var part := pool.ancestors(t) * done;
    assert pool.ancestors(t) * (done + {it}) == part + {it};
    TotalPlus(pool, part, it, pool.Sizes());
    TotalPlus(pool, part, it, pool.Ops());
    TotalPlus(pool, part, it, pool.modifiedFee);
    if t !in m' {
      assert part == {};
      SumNone(pool.order, part, pool.Sizes());
      SumNone(pool.order, part, pool.Ops());
      SumNone(pool.order, part, pool.modifiedFee);
    }
  }

  lemma DeductOther(pool: Pool, m: ModifiedMap, m': ModifiedMap, added: set<Tx>, done: set<Tx>, it: Tx, t: Tx)
    requires DeductedAt(pool, m, m', added, done, t) && t !in pool.Descendants(it) - added && m.Keys !! added
    requires forall u | u in m :: u in pool.order
    ensures DeductedAt(pool, m, m', added, done + {it}, t)
  {
    if t in m || (t in pool.order && t !in added) {
      assert pool.ancestors(t) * (done + {it}) == pool.ancestors(t) * done;
    }
  }

  /** The same while the descendants in `todo` still wait for the deduction of `it`. */
  ghost predicate Deducting(pool: Pool, m: ModifiedMap, m': ModifiedMap, added: set<Tx>, done: set<Tx>, it: Tx,
                            todo: set<Tx>) {
    && (forall t | t in pool.Descendants(it) - added - todo :: DeductedAt(pool, m, m', added, done + {it}, t))
    && (forall t | t !in pool.Descendants(it) - added - todo :: DeductedAt(pool, m, m', added, done, t))
  }

  lemma DeductStep(pool: Pool, m: ModifiedMap, m': ModifiedMap, added: set<Tx>, done: set<Tx>, it: Tx, todo: set<Tx>,
                   t: Tx)
    requires pool.Ok() && Deducting(pool, m, m', added, done, it, todo) && t in todo && todo <= pool.Descendants(it)
    requires it in pool.order && it !in done && done <= added && it in added
    ensures Deducting(pool, m, if t in added then m' else Deduct(pool, m', it, t), added, done, it, todo - {t})
  {
    hide DeductedAt, Deduct;
    if t !in added {
      DeductOne(pool, m, m', added, done, it, t);
      forall u, q | u != t && DeductedAt(pool, m, m', added, q, u)
        ensures DeductedAt(pool, m, Deduct(pool, m', it, t), added, q, u)
      {
        DeductKeepsOther(pool, m, m', added, q, it, t, u);
      }
    }
  }

  lemma DeductKeepsOther(pool: Pool, m: ModifiedMap, m': ModifiedMap, added: set<Tx>, q: set<Tx>, it: Tx, t: Tx, u: Tx)
    requires u != t && DeductedAt(pool, m, m', added, q, u)
    ensures DeductedAt(pool, m, Deduct(pool, m', it, t), added, q, u)
  {
  }

  lemma DeductEnd(pool: Pool, m: ModifiedMap, m': ModifiedMap, added: set<Tx>, done: set<Tx>, it: Tx)
    requires Deducting(pool, m, m', added, done, it, {}) && m.Keys !! added && forall u | u in m :: u in pool.order
    ensures Deducted(pool, m, m', added, done + {it})
  {
    hide DeductedAt;
    forall t ensures DeductedAt(pool, m, m', added, done + {it}, t) {
      if t !in pool.Descendants(it) - added {
        DeductOther(pool, m, m', added, done, it, t);
      }
    }
  }

  /** After the additions are deducted the map covers what is left outside the larger block. */
  lemma DeductedCovers(pool: Pool, m: ModifiedMap, m': ModifiedMap, before: set<Tx>, added: set<Tx>)
    requires pool.Ok() && Deducted(pool, m, m', added, added) && Closed(pool, before) && Closed(pool, before + added)
    requires before !! added && m.Keys !! added && Covers(pool, before, m)
    ensures Covers(pool, before + added, m')
  {
    forall t | t in m' ensures t in pool.order && t !in before + added && Enough(pool, before + added, t, m'[t]) {
      assert DeductedAt(pool, m, m', added, added, t);
      if t !in m {
        var a := Element(pool.ancestors(t) * added);
        assert a !in before;
      }
      WholeEnough(pool, before, t);
      DeductedEnough(pool, before, added, t, Start(pool, m, t), m'[t]);
    }
  }

  /** An update drops no entry and lets none grow. */
  lemma DeductedBounded(pool: Pool, m: ModifiedMap, m': ModifiedMap, added: set<Tx>, done: set<Tx>)
    requires Deducted(pool, m, m', added, done) && Bounded(pool, m)
    ensures m.Keys <= m'.Keys && Bounded(pool, m')
  {
    hide Sum;
    forall t
      ensures (t in m ==> t in m') && (t in m' ==> AtMostAll(pool, t, m'[t]))
    {
      assert DeductedAt(pool, m, m', added, done, t);
      SumMono(pool.order, {}, pool.ancestors(t) * done, pool.Sizes());
      SumMono(pool.order, {}, pool.ancestors(t) * done, pool.Ops());
    }
    assert forall t | t in m.Keys :: t in m'.Keys;
  }

  lemma DeductedEnough(pool: Pool, before: set<Tx>, added: set<Tx>, t: Tx, e: Entry, e': Entry)
    requires Enough(pool, before, t, e) && t !in added && before !! added
    requires e'.size == e.size - pool.Total(pool.ancestors(t) * added, pool.Sizes())
    requires e'.sigOps == e.sigOps - pool.Total(pool.ancestors(t) * added, pool.Ops())
    requires pool.Unadjusted() ==> e'.fees == e.fees - pool.Total(pool.ancestors(t) * added, pool.modifiedFee)
    ensures Enough(pool, before + added, t, e')
  {
    hide Sum;
    var gone, left := pool.ancestors(t) * added, pool.Family(t) - (before + added);
    assert pool.Family(t) - before == left + gone;
    SumSplit(pool.order, left, gone, pool.Sizes());
    SumSplit(pool.order, left, gone, pool.Ops());
    SumSplit(pool.order, left, gone, pool.modifiedFee);
  }

  /** At no point of an update does an unsigned size or sigop total go below zero. */
  lemma NoUnderflow(pool: Pool, m: ModifiedMap, m': ModifiedMap, before: set<Tx>, added: set<Tx>, done: set<Tx>, t: Tx)
    requires Covers(pool, before, m) && before !! added && done <= added
    requires DeductedAt(pool, m, m', added, done, t) && t in m'
    ensures m'[t].size >= 0 && m'[t].sigOps >= 0
  {
    hide Sum;
    WholeEnough(pool, before, t);
    SumMono(pool.order, pool.ancestors(t) * done, pool.Family(t) - before, pool.Sizes());
    SumMono(pool.order, pool.ancestors(t) * done, pool.Family(t) - before, pool.Ops());
  }
}
