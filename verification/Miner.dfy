/**
 BlockAssembler: selecting packages of mempool transactions for a block (src/miner.cpp:660-681, 833-1075).  What the
 clock says and whether a contract runs are left open, so the results hold for every outcome.
 */
module Miner {
  import opened MinerPool
  import opened MinerModified
  import opened MinerScore
  import opened MinerGreedy
  import opened Collections

  const MIN_PACKAGE_FEES := 10000
  const MAX_CONSECUTIVE_FAILURES := 1000

  /** The block as far as it has been filled. */
  datatype Filled = Filled(vtx: seq<Tx>, inBlock: set<Tx>, weight: int, sigOps: int, txs: int, fees: int)

  /** What running a contract adds besides its transaction. */
  datatype Cost = Cost(transfers: nat, weight: nat, sigOps: int)

  class BlockAssembler {
    const pool: Pool
    const nBlockMaxWeight: int
    const dgpMaxBlockSigOps: int
    /** Whether there is a time limit; without one the clock is not asked. */
    const timeLimited: bool
    /** The block's mempool transactions in order. */
    var vtx: seq<Tx>
    var inBlock: set<Tx>
    var nBlockWeight: int
    var nBlockSigOpsCost: int
    var nBlockTx: int
    var nFees: int

    ghost predicate Valid()
      reads this
    {
      pool.Ok() && Ordered(pool, vtx) && inBlock == Elements(vtx)
    }

    /** None of the transactions runs a contract. */
    ghost predicate Plain(s: set<Tx>) { forall t | t in s :: !pool.HasContract(t) }

    ghost predicate WithinLimits()
      reads this
    {
      nBlockWeight < nBlockMaxWeight && nBlockSigOpsCost < dgpMaxBlockSigOps
    }

    ghost function Now(): Filled
      reads this
    {
      Filled(vtx, inBlock, nBlockWeight, nBlockSigOpsCost, nBlockTx, nFees)
    }

    /**
     What filling the block from one state to another keeps: nothing is taken out, what is added is final, fees and
     number of transactions follow, and without contracts so do weight and sigops, which stay under their limits.
     */
    ghost predicate Since(a: Filled, b: Filled) {
      var added, plain := b.inBlock - a.inBlock, Plain(Elements(pool.order));
      && a.vtx <= b.vtx && a.inBlock <= b.inBlock && (forall t | t in added :: pool.final(t))
      && b.fees == a.fees + pool.Total(added, pool.fee) && b.txs >= a.txs + |b.vtx| - |a.vtx|
      && (plain ==> b.txs == a.txs + |b.vtx| - |a.vtx| && Grown(pool, a.weight, a.sigOps, b.weight, b.sigOps, added))
      && (plain ==> b == a || (b.weight < nBlockMaxWeight && b.sigOps < dgpMaxBlockSigOps))
    }

    lemma SinceSame(a: Filled)
      ensures Since(a, a)
    {
      SumNone(pool.order, {}, pool.fee);
      SumNone(pool.order, {}, pool.Weights());
      SumNone(pool.order, {}, pool.Ops());
      assert a.inBlock - a.inBlock == {};
    }

    lemma SinceMore(a: Filled, b: Filled)
      requires Since(a, b)
      ensures a.inBlock <= b.inBlock && a.vtx <= b.vtx
    {
    }

    lemma SinceBoth(a: Filled, b: Filled, c: Filled)
      requires Since(a, b) && Since(b, c)
      ensures Since(a, c)
    {
      hide Sum, Elements;
      var first, second := b.inBlock - a.inBlock, c.inBlock - b.inBlock;
      assert c.inBlock - a.inBlock == first + second;
      SumSplit(pool.order, first, second, pool.fee);
      SumSplit(pool.order, first, second, pool.Weights());
      SumSplit(pool.order, first, second, pool.Ops());
    }

    /** Fees and number of transactions have grown by those of `s`; contracts may bring further transactions. */
    ghost predicate Booked(fees0: int, txs0: int, s: set<Tx>, n: int, plain: bool)
      reads this
    {
      nFees == fees0 + pool.Total(s, pool.fee) && nBlockTx >= txs0 + n && (plain ==> nBlockTx == txs0 + n)
    }

    /** resetBlock: an empty block with room reserved for the coinbase. */
    constructor (pool: Pool, nBlockMaxWeight: int, dgpMaxBlockSigOps: int, timeLimited: bool)
      requires pool.Ok()
      ensures Valid() && vtx == [] && this.pool == pool && this.timeLimited == timeLimited
      ensures this.nBlockMaxWeight == nBlockMaxWeight && this.dgpMaxBlockSigOps == dgpMaxBlockSigOps
      ensures nBlockWeight == 4000 && nBlockSigOpsCost == 400 && nBlockTx == 0 && nFees == 0
    {
      this.pool, this.nBlockMaxWeight, this.dgpMaxBlockSigOps, this.timeLimited :=
        pool, nBlockMaxWeight, dgpMaxBlockSigOps, timeLimited;
      vtx, inBlock, nBlockWeight, nBlockSigOpsCost, nBlockTx, nFees := [], {}, 4000, 400, 0, 0;
    }

    /** The transaction with all its ancestors is too large for what is left, or one of them is not final. */
    ghost predicate Unfit(weight: int, sigOps: int, t: Tx) {
      || (exists a :: a in pool.Family(t) && !pool.final(a))
      || weight + 4 * pool.FullSize(t) >= nBlockMaxWeight
      || sigOps + pool.FullOps(t) >= dgpMaxBlockSigOps
    }

    /** The transaction comes with one that, with all its ancestors, pays at least 10000. */
    ghost predicate PaidFor(t: Tx) {
      exists p :: p in pool.order && t in pool.Family(p) && pool.FullFees(p) >= 10000
    }

    /** Everything passed so far is in the block, waits in the modified map or is unfit. */
    ghost predicate Accounted(weight: int, sigOps: int, block: set<Tx>, m: ModifiedMap, failed: set<Tx>, mi: nat) {
      && (forall k: nat | k < mi && k < |pool.order| ::
            pool.order[k] in block || pool.order[k] in m || Unfit(weight, sigOps, pool.order[k]))
      && (forall t | t in failed :: t in block || Unfit(weight, sigOps, t))
    }

    lemma AccountedMore(weight: int, sigOps: int, block: set<Tx>, m: ModifiedMap, failed: set<Tx>, mi: nat, iter: Tx,
                        weight': int, sigOps': int, block': set<Tx>, m': ModifiedMap, failed': set<Tx>, mi': nat)
      requires Accounted(weight, sigOps, block, m, failed, mi) && weight <= weight' && sigOps <= sigOps'
               && block <= block'
      requires m.Keys <= m'.Keys + block' + {iter} && failed' <= failed + {iter}
               && (iter in block' || Unfit(weight', sigOps', iter))
      requires mi' == mi || (mi' == mi + 1 <= |pool.order| && pool.order[mi] == iter)
      ensures Accounted(weight', sigOps', block', m', failed', mi')
    {
      hide Pool.Family, Pool.FullSize, Pool.FullOps;
      assert forall t | t in m :: t in m.Keys;
    }

    lemma AccountedSkip(weight: int, sigOps: int, block: set<Tx>, m: ModifiedMap, failed: set<Tx>, mi: nat)
      requires Accounted(weight, sigOps, block, m, failed, mi) && mi < |pool.order|
      requires pool.order[mi] in m || pool.order[mi] in block || pool.order[mi] in failed
      ensures Accounted(weight, sigOps, block, m, failed, mi + 1)
    {
      hide Unfit;
    }

    lemma GrownIsMore(a: Filled, b: Filled)
      requires Since(a, b) && Plain(Elements(pool.order))
      ensures a.weight <= b.weight && a.sigOps <= b.sigOps && a.inBlock <= b.inBlock
    {
      SumMono(pool.order, {}, b.inBlock - a.inBlock, pool.Weights());
      SumMono(pool.order, {}, b.inBlock - a.inBlock, pool.Ops());
    }

    predicate TestPackage(packageSize: int, packageSigOpsCost: int)
      reads this
    {
      && nBlockWeight + WITNESS_SCALE_FACTOR * packageSize < nBlockMaxWeight
      && nBlockSigOpsCost + packageSigOpsCost < dgpMaxBlockSigOps
    }

    method OnlyUnconfirmed(testSet: set<Tx>) returns (left: set<Tx>)
      ensures left == testSet - inBlock
    {
      left := testSet;
      var todo := testSet;
      while todo != {}
        invariant todo <= testSet && left == testSet - (inBlock - todo)
        decreases todo
      {
        var t :| t in todo;
        if t in inBlock {
          left := left - {t};
        }
        todo := todo - {t};
      }
    }

    method TestPackageTransactions(package: set<Tx>) returns (ok: bool)
      ensures ok <==> forall t | t in package :: pool.final(t)
    {
      var todo := package;
      while todo != {}
        invariant todo <= package && forall t | t in package - todo :: pool.final(t)
        decreases todo
      {
        var t :| t in todo;
        if !pool.final(t) {
          return false;
        }
        todo := todo - {t};
      }
      return true;
    }

    /** The package sorted by ancestor count and then by hash. */
    method SortForBlock(package: set<Tx>) returns (sorted: seq<Tx>)
      ensures Sorted(pool, sorted, package)
    {
      hide Sorted, Pool.NotAfter, Pool.Count;
      sorted := [];
      var todo := package;
      SortedNone(pool);
      assert package - todo == {};
      while todo != {}
        invariant todo <= package && Sorted(pool, sorted, package - todo)
        invariant forall t, u | t in package - todo && u in todo :: pool.NotAfter(t, u)
        decreases todo
      {
        var x :| x in todo;
        Fewest(pool, todo, x);
        var t :| t in todo && forall u | u in todo :: pool.NotAfter(t, u);
        SortedMore(pool, sorted, package - todo, t);
        assert package - (todo - {t}) == (package - todo) + {t};
        sorted := sorted + [t];
        todo := todo - {t};
      }
      assert package - {} == package;
    }

    method AddToBlock(t: Tx)
      requires Valid() && t in pool.order && t !in inBlock && pool.ancestors(t) <= inBlock
      modifies this
      ensures Valid() && vtx == old(vtx) + [t] && inBlock == old(inBlock) + {t}
      ensures nBlockWeight == old(nBlockWeight) + pool.weight(t)
      ensures nBlockSigOpsCost == old(nBlockSigOpsCost) + pool.sigOps(t)
      ensures nBlockTx == old(nBlockTx) + 1 && nFees == old(nFees) + pool.fee(t)
    {
      hide Ordered, Elements, Pool.Ok;
      NotAmong(vtx, t);
      OrderedMore(pool, vtx, t);
      vtx := vtx + [t];
      nBlockWeight := nBlockWeight + pool.weight(t);
      nBlockTx := nBlockTx + 1;
      nBlockSigOpsCost := nBlockSigOpsCost + pool.sigOps(t);
      nFees := nFees + pool.fee(t);
      inBlock := inBlock + {t};
    }

    /** Running a contract fails and changes nothing, or adds the transaction and whatever its execution costs. */
    method AttemptToAddContractToBlock(t: Tx) returns (added: bool, ghost cost: Cost)
      requires Valid() && t in pool.order && t !in inBlock && pool.ancestors(t) <= inBlock
      modifies this
      ensures Valid() && if added then vtx == old(vtx) + [t] && inBlock == old(inBlock) + {t} else unchanged(this)
      ensures added ==> nFees == old(nFees) + pool.fee(t) && nBlockTx == old(nBlockTx) + 1 + cost.transfers
      ensures added ==>
                && nBlockWeight == old(nBlockWeight) + pool.weight(t) + cost.weight
                && nBlockSigOpsCost == old(nBlockSigOpsCost) + pool.sigOps(t) + cost.sigOps
    {
      hide Ordered, Elements, Pool.Ok;
      added := *;
      var run: Cost := *;
      cost := run;
      if added {
        AddToBlock(t);
        nBlockWeight := nBlockWeight + run.weight;
        nBlockSigOpsCost := nBlockSigOpsCost + run.sigOps;
        nBlockTx := nBlockTx + run.transfers;
      }
    }

    /** Every descendant of the additions gets an entry from which exactly its added ancestors are deducted. */
    method UpdatePackagesForAdded(alreadyAdded: set<Tx>, modified: ModifiedMap) returns (m: ModifiedMap)
      requires pool.Ok() && alreadyAdded <= Elements(pool.order) && modified.Keys !! alreadyAdded
      requires forall t | t in modified :: t in pool.order
      ensures Deducted(pool, modified, m, alreadyAdded, alreadyAdded)
    {
      hide Deducted, DeductedAt;
      m := modified;
      var todo := alreadyAdded;
      DeductedNothing(pool, modified, alreadyAdded);
      assert alreadyAdded - todo == {};
      while todo != {}
        invariant todo <= alreadyAdded && Deducted(pool, modified, m, alreadyAdded, alreadyAdded - todo)
        decreases todo
      {
        var it :| it in todo;
        m := DeductFromDescendants(it, alreadyAdded, alreadyAdded - todo, modified, m);
        assert alreadyAdded - (todo - {it}) == alreadyAdded - todo + {it};
        todo := todo - {it};
      }
      assert alreadyAdded - {} == alreadyAdded;
    }

    method DeductFromDescendants(it: Tx, alreadyAdded: set<Tx>, ghost done: set<Tx>, ghost first: ModifiedMap,
                                 modified: ModifiedMap)
      returns (m: ModifiedMap)
      requires pool.Ok() && it in pool.order && it in alreadyAdded && it !in done && done <= alreadyAdded
      requires first.Keys !! alreadyAdded && forall t | t in first :: t in pool.order
      requires Deducted(pool, first, modified, alreadyAdded, done)
      ensures Deducted(pool, first, m, alreadyAdded, done + {it})
    {
      hide DeductedAt, Deduct;
      m := modified;
      var todo := pool.Descendants(it);
      while todo != {}
        invariant todo <= pool.Descendants(it) && Deducting(pool, first, m, alreadyAdded, done, it, todo)
        decreases todo
      {
        hide Deducting;
        var t :| t in todo;
        DeductStep(pool, first, m, alreadyAdded, done, it, todo, t);
        if t !in alreadyAdded {
          m := Deduct(pool, m, it, t);
        }
        todo := todo - {t};
      }
      DeductEnd(pool, first, m, alreadyAdded, done, it);
    }

    /** One transaction of a package; a contract may fail. */
    method AddEntry(t: Tx) returns (added: bool)
      requires Valid() && t in pool.order && t !in inBlock && pool.ancestors(t) <= inBlock
      modifies this
      ensures Valid() && if added then vtx == old(vtx) + [t] && inBlock == old(inBlock) + {t} else unchanged(this)
      ensures added ==> nFees == old(nFees) + pool.fee(t) && nBlockTx >= old(nBlockTx) + 1
      ensures !pool.HasContract(t) ==>
                && added && nBlockTx == old(nBlockTx) + 1 && nBlockWeight == old(nBlockWeight) + pool.weight(t)
                && nBlockSigOpsCost == old(nBlockSigOpsCost) + pool.sigOps(t)
    {
      if pool.HasContract(t) {
        ghost var cost;
        added, cost := AttemptToAddContractToBlock(t);
      } else {
        AddToBlock(t);
        added := true;
      }
    }

    /** The first `k` of the package are in the block, and all totals have followed. */
    ghost predicate Entered(start: Filled, sorted: seq<Tx>, k: nat, plain: bool)
      reads this
    {
      && k <= |sorted| && Valid() && vtx == start.vtx + sorted[..k]
      && inBlock == start.inBlock + Elements(sorted[..k])
      && Booked(start.fees, start.txs, Elements(sorted[..k]), k, plain)
      && (plain ==> Grown(pool, start.weight, start.sigOps, nBlockWeight, nBlockSigOpsCost, Elements(sorted[..k])))
    }

    /** The next of the package. */
    method EnterNext(ghost start: Filled, sorted: seq<Tx>, ghost iter: Tx, i: nat, ghost plain: bool)
      returns (added: bool)
      requires Entered(start, sorted, i, plain) && iter in pool.order && i < |sorted|
      requires Sorted(pool, sorted, pool.Family(iter) - start.inBlock)
      requires plain == Plain(pool.Family(iter) - start.inBlock)
      modifies this
      ensures if added then Entered(start, sorted, i + 1, plain) else Entered(start, sorted, i, plain)
      ensures plain ==> added
    {
      hide Sorted, Sum, Ordered, Pool.Total, Pool.Ok, Pool.Family, Elements;
      NextReady(pool, start.inBlock, sorted, iter, i);
      TotalNext(pool, start.inBlock, sorted, iter, i, pool.Weights());
      TotalNext(pool, start.inBlock, sorted, iter, i, pool.Ops());
      TotalNext(pool, start.inBlock, sorted, iter, i, pool.fee);
      assert start.vtx + sorted[..i] + [sorted[i]] == start.vtx + sorted[..i + 1];
      added := AddEntry(sorted[i]);
    }

    /** The package goes in one by one until a contract fails or time is up; all of it leaves the modified map. */
    method AddEntries(sorted: seq<Tx>, iter: Tx, usingModified: bool, modified: ModifiedMap, failedTx: set<Tx>)
      returns (wasAdded: bool, m: ModifiedMap, failed: set<Tx>, ghost k: nat)
      requires Valid() && iter in pool.order && iter !in inBlock && Sorted(pool, sorted, pool.Family(iter) - inBlock)
      modifies this
      ensures Valid() && k <= |sorted| && vtx == old(vtx) + sorted[..k]
              && inBlock == old(inBlock) + Elements(sorted[..k])
      ensures wasAdded ==> k == |sorted|
      ensures !wasAdded && usingModified && !timeLimited ==> iter in failed
      ensures Plain(old(pool.Family(iter) - inBlock)) && !timeLimited ==> wasAdded && failed == failedTx
      ensures m == Without(modified, old(pool.Family(iter) - inBlock)) && failedTx <= failed <= failedTx + {iter}
      ensures Booked(old(nFees), old(nBlockTx), Elements(sorted[..k]), k, Plain(old(pool.Family(iter) - inBlock)))
      ensures Plain(old(pool.Family(iter) - inBlock)) ==>
                Grown(pool, old(nBlockWeight), old(nBlockSigOpsCost), nBlockWeight, nBlockSigOpsCost,
                      Elements(sorted[..k]))
    {
      hide Sorted, Sum, Ordered, Pool.Total, Pool.Ok, Pool.Family, Elements, Without, Plain, Booked, Grown;
      wasAdded, m, failed, k := true, modified, failedTx, 0;
      ghost var erased: set<Tx> := {};
      ghost var start, plain := Now(), Plain(pool.Family(iter) - inBlock);
      StartEntered(sorted, plain);
      WithoutNone(modified);
      for i := 0 to |sorted|
        invariant k <= i && (wasAdded ==> k == i) && failedTx <= failed <= failedTx + {iter}
        invariant !wasAdded && usingModified && !timeLimited ==> iter in failed
        invariant plain && !timeLimited ==> wasAdded && failed == failedTx
        invariant m == Without(modified, erased) && Elements(sorted[..i]) <= erased <= Elements(sorted[..i]) + {iter}
        invariant Entered(start, sorted, k, plain)
      {
        NextReady(pool, start.inBlock, sorted, iter, i);
        WithoutMore(modified, erased, sorted[i]);
        var timeUp: bool := *;
        if !wasAdded || (timeLimited && timeUp) {
          m := m - {sorted[i]};
          erased := erased + {sorted[i]};
          wasAdded := false;
          continue;
        }
        wasAdded := EnterNext(start, sorted, iter, i, plain);
        if wasAdded {
          k := k + 1;
        } else if usingModified {
          WithoutMore(modified, erased, iter);
          m := m - {iter};
          erased := erased + {iter};
          WithoutMore(modified, erased, sorted[i]);
          failed := failed + {iter};
        }
        m := m - {sorted[i]};
        erased := erased + {sorted[i]};
      }
      SortedAll(pool, sorted, pool.Family(iter) - start.inBlock);
      InFamily(pool, iter);
      assert erased == pool.Family(iter) - start.inBlock;
    }

    /** A package that passed TestPackage leaves the block under its limits, however much of it went in. */
    lemma StaysBelow(weight: int, sigOps: int, block: set<Tx>, t: Tx, e: Entry, s: set<Tx>)
      requires Grown(pool, weight, sigOps, nBlockWeight, nBlockSigOpsCost, s) && s <= pool.Family(t) - block
               && Enough(pool, block, t, e)
      requires weight + WITNESS_SCALE_FACTOR * e.size < nBlockMaxWeight && sigOps + e.sigOps < dgpMaxBlockSigOps
      ensures WithinLimits()
    {
      hide Sum;
      var package := pool.Family(t) - block;
      SumMono(pool.order, s, package, pool.Weights());
      SumMono(pool.order, s, package, pool.Ops());
      WeightFits(pool, package);
    }

    /** Sorting a package, adding it and updating the modified map for what it brought into the block. */
    method AddPackage(package: set<Tx>, iter: Tx, usingModified: bool, modified: ModifiedMap, failedTx: set<Tx>,
                      ghost chosen: set<Tx>)
      returns (m: ModifiedMap, failed: set<Tx>)
      requires Valid() && Covers(pool, inBlock, modified) && iter in pool.order && iter !in inBlock
      requires package == pool.Family(iter) - inBlock
      modifies this
      ensures Valid() && old(vtx) <= vtx && old(inBlock) <= inBlock <= old(inBlock) + package
              && Covers(pool, inBlock, m)
      ensures vtx == old(vtx) ==> m.Keys <= modified.Keys && iter !in m
      ensures failedTx <= failed <= failedTx + {iter}
      ensures usingModified && !timeLimited ==> iter in failed || iter in inBlock
      ensures Booked(old(nFees), old(nBlockTx), inBlock - old(inBlock), |vtx| - |old(vtx)|, Plain(package))
      ensures Plain(package) ==>
                Grown(pool, old(nBlockWeight), old(nBlockSigOpsCost), nBlockWeight, nBlockSigOpsCost,
                      inBlock - old(inBlock))
      ensures Bounded(pool, modified) ==> Bounded(pool, m)
      ensures Plain(package) && !timeLimited ==> package <= inBlock && failed == failedTx
      ensures Plain(package) && !timeLimited && Bounded(pool, modified) ==> modified.Keys <= m.Keys + package
      ensures Plain(package) && !timeLimited && pool.Unadjusted() && Exact(pool, old(inBlock), modified, chosen) ==>
                Exact(pool, inBlock, m, chosen)
    {
      hide Sum, Sorted, Ordered, Covers, Deducted, Grown, Elements, Pool.Family, Pool.Ok, Plain, Bounded, Exact,
        Pool.Unadjusted;
      ghost var block := inBlock;
      OrderedClosed(pool, vtx);
      InFamily(pool, iter);
      FamilyInPool(pool, iter);
      var sorted := SortForBlock(package);
      var wasAdded;
      ghost var k;
      wasAdded, m, failed, k := AddEntries(sorted, iter, usingModified, modified, failedTx);
      AddedPart(sorted, k, block, package);
      CoversOutside(pool, block, modified);
      CoversMore(pool, block, modified, block, m);
      CoversMore(pool, block, modified, inBlock, m);
      OrderedClosed(pool, vtx);
      WithoutBounded(pool, modified, package);
      if wasAdded {
        SortedAll(pool, sorted, package);
        PackageGrows(old(vtx), sorted, iter);
        ghost var before := m;
        m := UpdatePackagesForAdded(package, m);
        DeductedCovers(pool, before, m, block, package);
        if Bounded(pool, modified) {
          DeductedBounded(pool, before, m, package, package);
        }
        CoversOutside(pool, inBlock, m);
        if pool.Unadjusted() && Exact(pool, block, modified, chosen) {
          ExactMore(pool, block, modified, chosen, package, m);
        }
      }
    }

    /** Everything done for one chosen transaction whose package passed TestPackage with the totals in `e`. */
    method SelectPackage(iter: Tx, usingModified: bool, modified: ModifiedMap, failedTx: set<Tx>, ghost e: Entry,
                         ghost chosen: set<Tx>)
      returns (allFinal: bool, m: ModifiedMap, failed: set<Tx>)
      requires Valid() && Covers(pool, inBlock, modified) && iter in pool.order && iter !in inBlock
      requires Enough(pool, inBlock, iter, e) && TestPackage(e.size, e.sigOps) && (usingModified ==> iter in modified)
      modifies this
      ensures Valid() && old(vtx) <= vtx && old(inBlock) <= inBlock && Covers(pool, inBlock, m)
      ensures forall t | t in inBlock - old(inBlock) :: pool.final(t) && t in pool.Family(iter)
      ensures (allFinal <==> forall t | t in pool.Family(iter) && t !in old(inBlock) :: pool.final(t))
              && (!allFinal ==> unchanged(this))
      ensures Quiet() && allFinal ==> inBlock == old(inBlock) + pool.Family(iter)
      ensures Quiet() && pool.Unadjusted() && Exact(pool, old(inBlock), modified, chosen) ==>
                Exact(pool, inBlock, m, chosen + {iter})
      ensures vtx == old(vtx) ==> m.Keys <= modified.Keys && (usingModified ==> iter !in m)
      ensures failedTx <= failed <= failedTx + {iter}
      ensures usingModified && !timeLimited ==> iter in failed || iter in inBlock
      ensures Since(old(Now()), Now())
      ensures Bounded(pool, modified) ==> Bounded(pool, m)
      ensures Plain(Elements(pool.order)) && !timeLimited && Bounded(pool, modified) ==>
                modified.Keys <= m.Keys + inBlock + {iter}
                && (iter in inBlock || Unfit(nBlockWeight, nBlockSigOpsCost, iter))
    {
      hide Sum, Ordered, Covers, Enough, Grown, Elements, Pool.Ok, Bounded, Exact, Pool.Unadjusted;
      ghost var block := inBlock;
      m, failed := modified, failedTx;
      var package := OnlyUnconfirmed(pool.ancestors(iter));
      package := package + {iter};
      assert package == pool.Family(iter) - block;
      FamilyInPool(pool, iter);
      allFinal := TestPackageTransactions(package);
      if allFinal {
        m, failed := AddPackage(package, iter, usingModified, modified, failedTx, chosen);
        if Plain(Elements(pool.order)) {
          StaysBelow(old(nBlockWeight), old(nBlockSigOpsCost), block, iter, e, inBlock - block);
        }
        if Exact(pool, inBlock, m, chosen) {
          ExactLess(pool, inBlock, m, chosen, m, iter);
        }
      } else {
        if usingModified {
          m := m - {iter};
          failed := failed + {iter};
        }
        CoversOutside(pool, block, modified);
        CoversMore(pool, block, modified, block, m);
        WithoutBounded(pool, modified, {iter});
        SinceSame(Now());
        if Exact(pool, block, modified, chosen) {
          ExactLess(pool, block, modified, chosen, m, iter);
        }
      }
    }

    /**
     The selection.  It ends; no mempool transaction is added twice; every one comes after all its in-mempool ancestors,
     also when a contract fails in the middle of a package; and if no contract is involved the block's weight and sigops
     grow by those of the transactions added and stay under the limits once anything is added.  Everything added is
     final and came with a transaction that, with all its ancestors, pays at least 10000.  If there is no contract and
     no time limit and every transaction pays enough, nothing that would still fit is left out, unless the block is
     nearly full and more than 1000 tests in a row have failed; `misses` are the transactions that failed since the last
     success, and there are no more than that in a block nearly full.  `looked` are those chosen since the block last
     grew, none of them twice if there is no time limit.
     */
    method AddPackageTxs() returns (ghost misses: seq<Tx>, ghost looked: seq<Tx>, ghost picks: seq<Pick>)
      requires Valid()
      modifies this
      ensures Valid() && old(vtx) <= vtx
      ensures forall t | t in inBlock - old(inBlock) :: pool.final(t)
      ensures pool.NonNegative() ==> forall t | t in inBlock - old(inBlock) :: PaidFor(t)
      ensures nFees == old(nFees) + pool.Total(inBlock - old(inBlock), pool.fee)
      ensures nBlockTx >= old(nBlockTx) + |vtx| - |old(vtx)|
      ensures Plain(Elements(pool.order)) ==> nBlockTx == old(nBlockTx) + |vtx| - |old(vtx)|
      ensures Plain(Elements(pool.order)) ==>
                Grown(pool, old(nBlockWeight), old(nBlockSigOpsCost), nBlockWeight, nBlockSigOpsCost,
                      inBlock - old(inBlock))
      ensures Plain(Elements(pool.order)) ==> WithinLimits() || vtx == old(vtx)
      ensures Distinct(misses) && (!timeLimited ==> Distinct(looked))
      ensures nBlockWeight > nBlockMaxWeight - 4000 ==> |misses| <= 1001
      ensures Plain(Elements(pool.order)) && !timeLimited && pool.Paying() ==>
                || (nBlockWeight > nBlockMaxWeight - 4000 && |misses| > 1000
                    && forall t | t in misses :: Unfit(nBlockWeight, nBlockSigOpsCost, t))
                || forall t | t in pool.order :: t in inBlock || Unfit(nBlockWeight, nBlockSigOpsCost, t)
      ensures Orderly() ==> Replay(old(Now()), picks) && inBlock == BlockAfter(pool, old(inBlock), picks)
      ensures Orderly() ==> NoneLeft(picks) || (nBlockWeight > nBlockMaxWeight - 4000 && |misses| > 1000)
    {
      hide Sum, Ordered, Grown, Elements, Pool.Ok, Pool.Total, Unfit, PaidFor, Pool.Paying, Pool.NonNegative, Distinct;
      misses, looked, picks := SelectPackages();
    }

    /** `s` are different transactions that will not be chosen again unless the block grows. */
    ghost predicate Behind(s: seq<Tx>, m: ModifiedMap, failed: set<Tx>, mi: nat) {
      Distinct(s) && forall t | t in s ::
        t !in m && (t in failed || exists k: nat | k < mi && k < |pool.order| :: pool.order[k] == t)
    }

    lemma BehindMore(s: seq<Tx>, m: ModifiedMap, failed: set<Tx>, mi: nat, iter: Tx, usingModified: bool,
                     m': ModifiedMap, failed': set<Tx>)
      requires Behind(s, m, failed, mi) && pool.Ok() && m'.Keys <= m.Keys && failed <= failed'
      requires usingModified ==> iter in m && iter !in m' && iter in failed'
      requires !usingModified ==> mi < |pool.order| && iter == pool.order[mi] && iter !in failed && iter !in m
      ensures Behind(s + [iter], m', failed', if usingModified then mi else mi + 1)
    {
    }

    lemma NoneBehind(m: ModifiedMap, failed: set<Tx>, mi: nat)
      ensures Behind([], m, failed, mi)
    {
    }

    lemma BehindStill(s: seq<Tx>, m: ModifiedMap, failed: set<Tx>, mi: nat, m': ModifiedMap, failed': set<Tx>, mi': nat)
      requires Behind(s, m, failed, mi) && m'.Keys <= m.Keys && failed <= failed' && mi <= mi'
      ensures Behind(s, m', failed', mi')
    {
    }

    /** There is no contract and no time limit. */
    ghost predicate Quiet() { Plain(Elements(pool.order)) && !timeLimited }

    /** Nor were fees adjusted; and mapTx is in its order. */
    ghost predicate Orderly() { Quiet() && pool.Unadjusted() && AllSized(pool) && Ranked() }

    /**
     The choices in turn: each is the best paying of all transactions not in the block by then nor chosen before, pays
     at least 10000, and is taken with all its ancestors exactly if they have room and are final.
     */
    ghost predicate Replay(start: Filled, picks: seq<Pick>) {
      forall i | 0 <= i < |picks| ::
        Replayed(start, BlockAfter(pool, start.inBlock, picks[..i]), Txs(picks[..i]), picks[i])
    }

    /** Every transaction is in the block or was chosen, or the best paying one of the others pays less than 10000. */
    ghost predicate NoneLeft(picks: seq<Pick>)
      reads this
    {
      || (forall t | t in pool.order :: t in inBlock || t in Txs(picks))
      || (exists t, e: Entry :: PaysBest(pool, inBlock, Txs(picks), t, e) && e.fees < 10000)
    }

    ghost predicate Replayed(start: Filled, block: set<Tx>, chosen: set<Tx>, p: Pick) {
      && PaysBest(pool, block, chosen, p.tx, p.totals) && p.totals.fees >= 10000
      && (p.taken <==> Takes(pool, block, start.weight + pool.Total(block - start.inBlock, pool.Weights()),
                             start.sigOps + pool.Total(block - start.inBlock, pool.Ops()),
                             nBlockMaxWeight, dgpMaxBlockSigOps, p))
    }

    lemma ReplayMore(start: Filled, picks: seq<Pick>, p: Pick)
      requires Replay(start, picks) && Replayed(start, BlockAfter(pool, start.inBlock, picks), Txs(picks), p)
      ensures Replay(start, picks + [p])
    {
      hide Replayed, BlockAfter, Txs;
      assert (picks + [p])[..|picks|] == picks;
      assert forall i | 0 <= i < |picks| :: (picks + [p])[..i] == picks[..i];
    }

    /** The block is what the choices so far make it, and the search may go on from here. */
    ghost predicate Replaying(start: Filled, picks: seq<Pick>, block: set<Tx>, m: ModifiedMap, failed: set<Tx>,
                              mi: nat) {
      && block == BlockAfter(pool, start.inBlock, picks) && Replay(start, picks)
      && Exact(pool, block, m, Txs(picks)) && failed <= Txs(picks)
      && (forall k | 0 <= k < mi && k < |pool.order| ::
            pool.order[k] in m || pool.order[k] in block || pool.order[k] in Txs(picks))
    }

    /** What holds whenever the next transaction is looked for. */
    ghost predicate Going(start: Filled, m: ModifiedMap, failed: set<Tx>, mi: nat, misses: seq<Tx>, looked: seq<Tx>)
      reads this
    {
      && mi <= |pool.order| && Covers(pool, inBlock, m) && Bounded(pool, m) && Since(start, Now())
      && (pool.NonNegative() ==> forall t | t in inBlock - start.inBlock :: PaidFor(t))
      && Behind(misses, m, failed, mi) && (!timeLimited ==> Behind(looked, m, failed, mi))
      && (forall t | t in misses :: Unfit(nBlockWeight, nBlockSigOpsCost, t))
      && (Quiet() ==> Accounted(nBlockWeight, nBlockSigOpsCost, inBlock, m, failed, mi))
    }

    /** What is chosen, from the modified map or else from mapTx. */
    ghost predicate Chosen(m: ModifiedMap, failed: set<Tx>, mi: nat, iter: Tx, usingModified: bool, e: Entry)
      reads this
    {
      && iter in pool.order && iter !in inBlock && AtMostAll(pool, iter, e)
      && if usingModified then iter in m
         else mi < |pool.order| && iter == pool.order[mi] && iter !in m && iter !in failed
    }

    lemma StartGoing(m: ModifiedMap)
      requires Valid() && Deducted(pool, map[], m, inBlock, inBlock)
      ensures Going(Now(), m, {}, 0, [], [])
      ensures Orderly() ==> Replaying(Now(), [], inBlock, m, {}, 0)
    {
      hide Deducted, Since, Sum, Ordered, Covers, Bounded, Accounted, Unfit, Elements, Pool.Ok, Exact, Pool.Unadjusted,
        Ranked, AllSized;
      StartCovers(m);
      StartBounded(m);
      SinceSame(Now());
      CoversOutside(pool, inBlock, m);
      if pool.Unadjusted() {
        ExactStart(pool, inBlock, m);
        assert Txs([]) == {};
      }
    }

    lemma SkipGoing(start: Filled, m: ModifiedMap, failed: set<Tx>, mi: nat, misses: seq<Tx>, looked: seq<Tx>,
                    picks: seq<Pick>)
      requires Going(start, m, failed, mi, misses, looked) && mi < |pool.order|
      requires Orderly() ==> Replaying(start, picks, inBlock, m, failed, mi)
      requires pool.order[mi] in m || pool.order[mi] in inBlock || pool.order[mi] in failed
      ensures Going(start, m, failed, mi + 1, misses, looked)
      ensures Orderly() ==> Replaying(start, picks, inBlock, m, failed, mi + 1)
    {
      hide Since, Covers, Bounded, Accounted, Unfit, Elements, PaidFor, Behind, Orderly, Replay, Exact, BlockAfter;
      BehindStill(misses, m, failed, mi, m, failed, mi + 1);
      if !timeLimited {
        BehindStill(looked, m, failed, mi, m, failed, mi + 1);
      }
      if Quiet() {
        AccountedSkip(nBlockWeight, nBlockSigOpsCost, inBlock, m, failed, mi);
      }
    }

    lemma MissGoing(start: Filled, m: ModifiedMap, failed: set<Tx>, mi: nat, misses: seq<Tx>, looked: seq<Tx>,
                    iter: Tx, usingModified: bool, e: Entry, m': ModifiedMap, failed': set<Tx>, mi': nat)
      requires Valid() && Going(start, m, failed, mi, misses, looked) && Chosen(m, failed, mi, iter, usingModified, e)
      requires !TestPackage(e.size, e.sigOps)
      requires if usingModified then m' == m - {iter} && failed' == failed + {iter} && mi' == mi
               else m' == m && failed' == failed && mi' == mi + 1
      ensures Going(start, m', failed', mi', misses + [iter], looked + [iter])
    {
      hide Since, Covers, Bounded, Accounted, Unfit, Elements, PaidFor, Behind, Ordered, Pool.Ok, AtMostAll,
        TestPackage;
      CoversWithout(pool, inBlock, m, iter);
      WithoutBounded(pool, m, {iter});
      TooLarge(iter, e);
      BehindMore(misses, m, failed, mi, iter, usingModified, m', failed');
      if !timeLimited {
        BehindMore(looked, m, failed, mi, iter, usingModified, m', failed');
      }
      if Quiet() {
        AccountedMore(nBlockWeight, nBlockSigOpsCost, inBlock, m, failed, mi, iter,
                      nBlockWeight, nBlockSigOpsCost, inBlock, m', failed', mi');
      }
    }

    /** The choice before which the block was `block`, judged by weight and sigops as they were then. */
    lemma PickReplays(start: Filled, before: Filled, picks: seq<Pick>, iter: Tx, e: Entry, taken: bool)
      requires Plain(Elements(pool.order)) && Since(start, before) && Replay(start, picks)
      requires before.inBlock == BlockAfter(pool, start.inBlock, picks)
      requires PaysBest(pool, before.inBlock, Txs(picks), iter, e) && e.fees >= 10000
      requires taken <==> before.weight + 4 * e.size < nBlockMaxWeight && before.sigOps + e.sigOps < dgpMaxBlockSigOps
                          && forall t | t in pool.Family(iter) && t !in before.inBlock :: pool.final(t)
      ensures Replay(start, picks + [Pick(iter, e, taken)])
    {
      hide PaysBest, BlockAfter, Txs, Elements, Sum, Plain, Replay, Pool.Total;
      ReplayMore(start, picks, Pick(iter, e, taken));
    }

    lemma MissReplays(start: Filled, m: ModifiedMap, failed: set<Tx>, mi: nat, picks: seq<Pick>,
                      iter: Tx, usingModified: bool, e: Entry, m': ModifiedMap, failed': set<Tx>, mi': nat)
      requires Since(start, Now()) && Plain(Elements(pool.order)) && Replaying(start, picks, inBlock, m, failed, mi)
      requires PaysBest(pool, inBlock, Txs(picks), iter, e) && e.fees >= 10000 && !TestPackage(e.size, e.sigOps)
      requires if usingModified then m' == m - {iter} && failed' == failed + {iter} && mi' == mi
               else m' == m && failed' == failed && mi < |pool.order| && pool.order[mi] == iter && mi' == mi + 1
      ensures Replaying(start, picks + [Pick(iter, e, false)], inBlock, m', failed', mi')
    {
      hide PaysBest, BlockAfter, Txs, Elements, Sum, Plain, Replay, Since, Exact;
      PickReplays(start, Now(), picks, iter, e, false);
      TxsMore(picks, Pick(iter, e, false));
      BlockMore(pool, start.inBlock, picks, Pick(iter, e, false));
      ExactLess(pool, inBlock, m, Txs(picks), m', iter);
    }

    /** A package that passed TestPackage, and what that means for the search. */
    method TakePackage(ghost start: Filled, iter: Tx, usingModified: bool, modified: ModifiedMap, failedTx: set<Tx>,
                       e: Entry, ghost mi: nat, ghost misses: seq<Tx>, ghost looked: seq<Tx>, ghost picks: seq<Pick>)
      returns (allFinal: bool, m: ModifiedMap, failed: set<Tx>, ghost looked': seq<Tx>)
      requires Valid() && Going(start, modified, failedTx, mi, misses, looked)
      requires Chosen(modified, failedTx, mi, iter, usingModified, e) && Enough(pool, inBlock, iter, e)
      requires TestPackage(e.size, e.sigOps) && e.fees >= 10000
      requires Orderly() ==>
                 && Replaying(start, picks, inBlock, modified, failedTx, mi)
                 && PaysBest(pool, inBlock, Txs(picks), iter, e)
      modifies this
      ensures Valid() && (!allFinal ==> unchanged(this))
      ensures Going(start, m, failed, if usingModified then mi else mi + 1, if allFinal then [] else misses, looked')
      ensures Orderly() ==>
                Replaying(start, picks + [Pick(iter, e, allFinal)], inBlock, m, failed,
                          if usingModified then mi else mi + 1)
      ensures if vtx == old(vtx)
              then inBlock == old(inBlock) && m.Keys <= modified.Keys && (usingModified ==> iter !in m)
              else Elements(pool.order) - inBlock < Elements(pool.order) - old(inBlock)
    {
      hide Sum, Ordered, Covers, Enough, Grown, Elements, Pool.Ok, Pool.Total, Pool.Family, Bounded, Unfit, Accounted,
        AtMostAll, PaidFor, Pool.NonNegative, Since, Plain, Behind, Exact, Replay, PaysBest, Ranked, AllSized,
        Pool.Unadjusted, BlockAfter, Txs;
      ghost var before, next := Now(), if usingModified then mi else mi + 1;
      allFinal, m, failed := SelectPackage(iter, usingModified, modified, failedTx, e, Txs(picks));
      Progress(before.vtx, before.inBlock);
      SinceMore(before, Now());
      SinceBoth(start, before, Now());
      PaidTogether(iter, e);
      NoneBehind(m, failed, next);
      if !allFinal {
        BehindStill(misses, modified, failedTx, mi, m, failed, next);
      }
      looked' := [];
      if vtx == before.vtx && !timeLimited {
        BehindMore(looked, modified, failedTx, mi, iter, usingModified, m, failed);
        looked' := looked + [iter];
      }
      if Quiet() {
        GrownIsMore(before, Now());
        AccountedMore(before.weight, before.sigOps, before.inBlock, modified, failedTx, mi, iter,
                      nBlockWeight, nBlockSigOpsCost, inBlock, m, failed, next);
      }
      if Orderly() {
        TakeReplays(start, before, modified, failedTx, mi, picks, iter, usingModified, e, allFinal, inBlock,
                    m, failed, next);
      }
    }
    lemma TakeReplays(start: Filled, before: Filled, m: ModifiedMap, failed: set<Tx>, mi: nat, picks: seq<Pick>,
                      iter: Tx, usingModified: bool, e: Entry, taken: bool, block: set<Tx>, m': ModifiedMap,
                      failed': set<Tx>, mi': nat)
      requires Plain(Elements(pool.order)) && Since(start, before)
      requires Replaying(start, picks, before.inBlock, m, failed, mi)
      requires PaysBest(pool, before.inBlock, Txs(picks), iter, e) && e.fees >= 10000
      requires before.weight + 4 * e.size < nBlockMaxWeight && before.sigOps + e.sigOps < dgpMaxBlockSigOps
      requires taken <==> forall t | t in pool.Family(iter) && t !in before.inBlock :: pool.final(t)
      requires block == before.inBlock + if taken then pool.Family(iter) else {}
      requires Exact(pool, block, m', Txs(picks) + {iter}) && failed' <= failed + {iter}
      requires m.Keys <= m'.Keys + block + {iter}
      requires mi' == mi || (mi < |pool.order| && pool.order[mi] == iter && mi' == mi + 1)
      ensures Replaying(start, picks + [Pick(iter, e, taken)], block, m', failed', mi')
    {
      hide PaysBest, BlockAfter, Txs, Elements, Sum, Plain, Replay, Since, Exact, Pool.Family;
      PickReplays(start, before, picks, iter, e, taken);
      TxsMore(picks, Pick(iter, e, taken));
      BlockMore(pool, start.inBlock, picks, Pick(iter, e, taken));
    }

    lemma GoingMeans(start: Filled, m: ModifiedMap, failed: set<Tx>, mi: nat, misses: seq<Tx>, looked: seq<Tx>)
      requires Going(start, m, failed, mi, misses, looked)
      ensures Since(start, Now()) && (pool.NonNegative() ==> forall t | t in inBlock - start.inBlock :: PaidFor(t))
      ensures Distinct(misses) && (!timeLimited ==> Distinct(looked)) && mi <= |pool.order|
      ensures Covers(pool, inBlock, m)
      ensures forall t | t in misses :: Unfit(nBlockWeight, nBlockSigOpsCost, t)
      ensures Quiet() && mi == |pool.order| && m == map[] ==>
                forall t | t in pool.order :: t in inBlock || Unfit(nBlockWeight, nBlockSigOpsCost, t)
    {
      hide Since, Covers, Bounded, Accounted, Unfit, Elements, PaidFor;
      if Quiet() && mi == |pool.order| && m == map[] {
        AllAccounted(failed);
      }
    }

    lemma GoingChosen(start: Filled, m: ModifiedMap, failed: set<Tx>, mi: nat, misses: seq<Tx>, looked: seq<Tx>,
                      picks: seq<Pick>, iter: Tx, usingModified: bool, e: Entry)
      requires Valid() && Going(start, m, failed, mi, misses, looked) && iter in pool.order && iter !in inBlock
      requires if usingModified then iter in m && e == m[iter]
               else mi < |pool.order| && iter == pool.order[mi] && iter !in m && iter !in failed
                    && e == Whole(pool, iter)
      requires Orderly() ==> Replaying(start, picks, inBlock, m, failed, mi) && PaysMost(mi, m, iter, e)
      ensures Chosen(m, failed, mi, iter, usingModified, e)
      ensures Orderly() ==> PaysBest(pool, inBlock, Txs(picks), iter, e)
    {
      hide Since, Covers, Accounted, Unfit, Elements, PaidFor, Behind, Replay, Exact, Whole, Rate, Sized, PaysBest, Txs,
        BlockAfter, Pool.Ok, Ordered, AllSized, Ranked, Plain;
      ChosenBounded(m, iter, e);
      if Orderly() {
        ChoicePaysBest(pool, inBlock, m, Txs(picks), mi, iter, e);
      }
    }

    method SelectPackages() returns (ghost misses: seq<Tx>, ghost looked: seq<Tx>, ghost picks: seq<Pick>)
      requires Valid()
      modifies this
      ensures Valid() && Since(old(Now()), Now())
      ensures Distinct(misses) && (!timeLimited ==> Distinct(looked))
      ensures nBlockWeight > nBlockMaxWeight - 4000 ==> |misses| <= 1001
      ensures pool.NonNegative() ==> forall t | t in inBlock - old(inBlock) :: PaidFor(t)
      ensures Quiet() && pool.Paying() ==>
                || (nBlockWeight > nBlockMaxWeight - 4000 && |misses| > 1000
                    && forall t | t in misses :: Unfit(nBlockWeight, nBlockSigOpsCost, t))
                || forall t | t in pool.order :: t in inBlock || Unfit(nBlockWeight, nBlockSigOpsCost, t)
      ensures Orderly() ==> Replay(old(Now()), picks) && inBlock == BlockAfter(pool, old(inBlock), picks)
      ensures Orderly() ==> NoneLeft(picks) || (nBlockWeight > nBlockMaxWeight - 4000 && |misses| > 1000)
    {
      hide Ordered, Covers, Enough, Elements, Pool.Ok, Deducted, Unfit, Going, PaidFor, Pool.Paying, Pool.NonNegative,
        Since, AllSized, Preferred, PaysMost, Ranked, Distinct, Plain, Pool.Unadjusted, PaysBest, Replay, Exact, Txs,
        BlockAfter, NoneLeft;
      var modified: ModifiedMap, failedTx: set<Tx> := map[], {};
      OrderedClosed(pool, vtx);
      ClosedInPool(pool, inBlock);
      modified := UpdatePackagesForAdded(inBlock, modified);
      StartGoing(modified);
      var mi, nConsecutiveFailed := 0, 0;
      misses, looked, picks := [], [], [];
      while mi < |pool.order| || modified != map[]
        invariant Valid() && Going(old(Now()), modified, failedTx, mi, misses, looked)
        invariant Orderly() ==> Replaying(old(Now()), picks, inBlock, modified, failedTx, mi)
        invariant |misses| == nConsecutiveFailed && (|misses| <= 1000 || nBlockWeight <= nBlockMaxWeight - 4000)
        decreases Elements(pool.order) - inBlock, |pool.order| - mi, modified.Keys
      {
        GoingMeans(old(Now()), modified, failedTx, mi, misses, looked);
        var timeUp: bool := *;
        if timeLimited && timeUp {
          return;
        }
        if mi < |pool.order|
           && (pool.order[mi] in modified || pool.order[mi] in inBlock || pool.order[mi] in failedTx) {
          SkipGoing(old(Now()), modified, failedTx, mi, misses, looked, picks);
          mi := mi + 1;
          continue;
        }
        var iter, usingModified, e;
        ghost var mi0, modified0, failedTx0 := mi, modified, failedTx;
        iter, usingModified, e := Choose(mi, modified);
        GoingChosen(old(Now()), modified, failedTx, mi, misses, looked, picks, iter, usingModified, e);
        if !usingModified {
          mi := mi + 1;
        }
        assert iter !in inBlock;
        if e.fees < MIN_PACKAGE_FEES {
          if pool.Paying() {
            EnoughPays(pool, inBlock, iter, e);
          }
          if Orderly() {
            StopsShort(picks, iter, e);
          }
          return;
        }
        if !TestPackage(e.size, e.sigOps) {
          if usingModified {
            modified := modified - {iter};
            failedTx := failedTx + {iter};
          }
          MissGoing(old(Now()), modified0, failedTx0, mi0, misses, looked, iter, usingModified, e, modified, failedTx,
                    mi);
          if Orderly() {
            MissReplays(old(Now()), modified0, failedTx0, mi0, picks, iter, usingModified, e, modified, failedTx, mi);
          }
          misses, looked, picks := misses + [iter], looked + [iter], picks + [Pick(iter, e, false)];
          nConsecutiveFailed := nConsecutiveFailed + 1;
          if nConsecutiveFailed > MAX_CONSECUTIVE_FAILURES && nBlockWeight > nBlockMaxWeight - 4000 {
            break;
          }
          continue;
        }
        var allFinal;
        allFinal, modified, failedTx, looked :=
          TakePackage(old(Now()), iter, usingModified, modified, failedTx, e, mi0, misses, looked, picks);
        picks := picks + [Pick(iter, e, allFinal)];
        if allFinal {
          nConsecutiveFailed := 0;
          misses := [];
        }
      }
      GoingMeans(old(Now()), modified, failedTx, mi, misses, looked);
      if Orderly() && mi == |pool.order| && modified == map[] {
        AllPicked(old(Now()), picks, failedTx);
      }
    }

    lemma StopsShort(picks: seq<Pick>, t: Tx, e: Entry)
      requires PaysBest(pool, inBlock, Txs(picks), t, e) && e.fees < 10000
      ensures NoneLeft(picks)
    {
      hide PaysBest, Txs;
    }

    lemma AllPicked(start: Filled, picks: seq<Pick>, failed: set<Tx>)
      requires Replaying(start, picks, inBlock, map[], failed, |pool.order|)
      ensures NoneLeft(picks)
    {
      hide PaysBest, Txs, Replay, Exact, BlockAfter;
      forall t | t in pool.order ensures t in inBlock || t in Txs(picks) {
        var k: nat :| k < |pool.order| && pool.order[k] == t;
      }
    }

    lemma AllAccounted(failed: set<Tx>)
      requires Accounted(nBlockWeight, nBlockSigOpsCost, inBlock, map[], failed, |pool.order|)
      ensures forall t | t in pool.order :: t in inBlock || Unfit(nBlockWeight, nBlockSigOpsCost, t)
    {
      hide Unfit;
      forall t | t in pool.order ensures t in inBlock || Unfit(nBlockWeight, nBlockSigOpsCost, t) {
        var k: nat :| k < |pool.order| && pool.order[k] == t;
      }
    }

    lemma StartBounded(m: ModifiedMap)
      requires Deducted(pool, map[], m, inBlock, inBlock)
      ensures Bounded(pool, m) && Accounted(nBlockWeight, nBlockSigOpsCost, inBlock, m, {}, 0)
    {
      hide Deducted;
      DeductedBounded(pool, map[], m, inBlock, inBlock);
    }

    lemma ChosenBounded(m: ModifiedMap, t: Tx, e: Entry)
      requires Bounded(pool, m) && (e == Whole(pool, t) || (t in m && e == m[t]))
      ensures AtMostAll(pool, t, e)
    {
    }

    /** What a package pays is shown for everything in it. */
    lemma PaidTogether(t: Tx, e: Entry)
      requires t in pool.order && e.fees >= 10000 && AtMostAll(pool, t, e)
      ensures pool.NonNegative() ==> forall a | a in pool.Family(t) :: PaidFor(a)
    {
    }

    /** What fails TestPackage by its own totals does not fit with all its ancestors either. */
    lemma TooLarge(t: Tx, e: Entry)
      requires AtMostAll(pool, t, e) && !TestPackage(e.size, e.sigOps)
      ensures Unfit(nBlockWeight, nBlockSigOpsCost, t)
    {
    }

    /** The first entry of the modified map in its order. */
    method BestModified(modified: ModifiedMap) returns (best: Tx)
      requires Valid() && Covers(pool, inBlock, modified) && modified != map[]
      ensures best in modified
      ensures AllSized(pool) ==> Foremost(modified, best)
    {
      hide Covers, Enough, CompareModifiedEntry, Less, Rank, Sized, Pool.Ok;
      var todo := modified.Keys;
      best :| best in todo;
      todo := todo - {best};
      if AllSized(pool) {
        CoversSized(modified);
        ComparesByRank(pool, best, modified[best], best, modified[best]);
        CompareIsOrder(pool, best, modified[best], best, modified[best], best, modified[best]);
      }
      while todo != {}
        invariant best in modified && todo <= modified.Keys
        invariant AllSized(pool) ==>
                    forall u | u in modified && u !in todo :: NotBefore(u, modified[u], best, modified[best])
        decreases todo
      {
        ghost var some := Element(todo);
        var t :| t in todo;
        todo := todo - {t};
        if AllSized(pool) {
          BetterIsBest(modified, modified.Keys - todo - {t}, best, t);
        }
        if CompareModifiedEntry(pool, t, modified[t], best, modified[best]) {
          best := t;
        }
      }
    }

    ghost predicate NotBefore(a: Tx, e: Entry, b: Tx, f: Entry) {
      Sized(pool, a, e) && Sized(pool, b, f) && !Less(Rank(pool, a, e), Rank(pool, b, f))
    }

    /** No entry ranks before that of `t`. */
    ghost predicate Foremost(modified: ModifiedMap, t: Tx)
      requires t in modified
    {
      forall u | u in modified :: NotBefore(u, modified[u], t, modified[t])
    }

    lemma CoversSized(modified: ModifiedMap)
      requires pool.Ok() && Covers(pool, inBlock, modified) && AllSized(pool)
      ensures forall t | t in modified :: Sized(pool, t, modified[t])
    {
      hide Pool.Ok, Enough;
      forall t | t in modified ensures Sized(pool, t, modified[t]) {
        EnoughSized(pool, inBlock, t, modified[t]);
      }
    }

    lemma BetterIsBest(modified: ModifiedMap, seen: set<Tx>, best: Tx, t: Tx)
      requires best in modified && t in modified && seen <= modified.Keys
      requires forall u | u in modified :: Sized(pool, u, modified[u])
      requires forall u | u in seen :: NotBefore(u, modified[u], best, modified[best])
      ensures var next := if CompareModifiedEntry(pool, t, modified[t], best, modified[best]) then t else best;
              forall u | u in seen + {t} :: NotBefore(u, modified[u], next, modified[next])
    {
      hide CompareModifiedEntry, Less, Rank, Sized;
      ComparesByRank(pool, t, modified[t], best, modified[best]);
      LessTotal(Rank(pool, t, modified[t]), Rank(pool, t, modified[t]));
      if CompareModifiedEntry(pool, t, modified[t], best, modified[best]) {
        forall u | u in seen ensures NotBefore(u, modified[u], t, modified[t]) {
          NotOutranked(Rank(pool, u, modified[u]), Rank(pool, best, modified[best]), Rank(pool, t, modified[t]));
        }
      }
    }

    /** mapTx lists its entries by their rank, which for transactions without contract is its own order too. */
    ghost predicate Ranked() {
      forall i, j | 0 <= i < j < |pool.order| ::
        NotBefore(pool.order[j], Whole(pool, pool.order[j]), pool.order[i], Whole(pool, pool.order[i]))
    }

    /** Nothing in the modified map, nor the next entry of mapTx, ranks before the choice. */
    ghost predicate Preferred(mi: nat, modified: ModifiedMap, t: Tx, e: Entry) {
      && (forall u | u in modified :: NotBefore(u, modified[u], t, e))
      && (mi < |pool.order| ==> NotBefore(pool.order[mi], Whole(pool, pool.order[mi]), t, e))
    }

    /** Neither an entry of the modified map nor one still to come in mapTx pays more per byte. */
    ghost predicate PaysMost(mi: nat, modified: ModifiedMap, t: Tx, e: Entry) {
      && Sized(pool, t, e)
      && (forall u | u in modified :: Sized(pool, u, modified[u]) && Rate(pool, u, modified[u]) <= Rate(pool, t, e))
      && (forall k | mi <= k < |pool.order| ::
            var u := pool.order[k];
            Sized(pool, u, Whole(pool, u)) && Rate(pool, u, Whole(pool, u)) <= Rate(pool, t, e))
    }

    /** The next entry of mapTx or the first one of the modified map, whichever ranks first. */
    method Choose(mi: nat, modified: ModifiedMap) returns (iter: Tx, usingModified: bool, e: Entry)
      requires Valid() && Covers(pool, inBlock, modified) && (mi < |pool.order| || modified != map[])
      requires mi < |pool.order| ==> pool.order[mi] !in modified && pool.order[mi] !in inBlock
      ensures iter in pool.order && iter !in inBlock && Enough(pool, inBlock, iter, e)
      ensures if usingModified then iter in modified && e == modified[iter]
              else mi < |pool.order| && iter == pool.order[mi] && e == Whole(pool, iter)
      ensures AllSized(pool) ==> Preferred(mi, modified, iter, e)
      ensures AllSized(pool) && Plain(Elements(pool.order)) && Ranked() ==> PaysMost(mi, modified, iter, e)
    {
      hide Enough, CompareModifiedEntry, Preferred, PaysMost, Ranked, Foremost, Elements, Plain, Pool.Ok, Whole,
        AllSized;
      usingModified := mi >= |pool.order|;
      if modified != map[] {
        iter := BestModified(modified);
        e := modified[iter];
        if mi < |pool.order| {
          usingModified := CompareModifiedEntry(pool, iter, e, pool.order[mi], Whole(pool, pool.order[mi]));
        }
        if AllSized(pool) {
          BestPreferred(mi, modified, iter, usingModified);
        }
      } else if AllSized(pool) {
        NextPreferred(mi, modified);
      }
      if !usingModified {
        iter := pool.order[mi];
        e := Whole(pool, iter);
        WholeEnough(pool, inBlock, iter);
      }
      if AllSized(pool) && Plain(Elements(pool.order)) && Ranked() {
        PreferredPays(mi, modified, iter, e);
      }
    }

    lemma BestPreferred(mi: nat, modified: ModifiedMap, best: Tx, usingModified: bool)
      requires Valid() && Covers(pool, inBlock, modified) && best in modified && AllSized(pool)
      requires Foremost(modified, best)
      requires mi >= |pool.order| ==> usingModified
      requires mi < |pool.order| ==>
                 && pool.order[mi] !in inBlock
                 && usingModified ==
                    CompareModifiedEntry(pool, best, modified[best], pool.order[mi], Whole(pool, pool.order[mi]))
      ensures usingModified ==> Preferred(mi, modified, best, modified[best])
      ensures !usingModified ==> Preferred(mi, modified, pool.order[mi], Whole(pool, pool.order[mi]))
    {
      hide CompareModifiedEntry, Less, Rank, Enough, Whole, Pool.Ok, Sized, AllSized;
      CoversSized(modified);
      if mi < |pool.order| {
        var t, e := pool.order[mi], Whole(pool, pool.order[mi]);
        WholeEnough(pool, inBlock, t);
        EnoughSized(pool, inBlock, t, e);
        ComparesByRank(pool, best, modified[best], t, e);
        LessTotal(Rank(pool, t, e), Rank(pool, t, e));
        if usingModified {
          NotBoth(Rank(pool, best, modified[best]), Rank(pool, t, e));
        } else {
          forall u | u in modified ensures NotBefore(u, modified[u], t, e) {
            NeitherBefore(pool, u, modified[u], best, modified[best], t, e);
          }
        }
      }
    }

    lemma NextPreferred(mi: nat, modified: ModifiedMap)
      requires Valid() && modified == map[] && mi < |pool.order| && pool.order[mi] !in inBlock && AllSized(pool)
      ensures Preferred(mi, modified, pool.order[mi], Whole(pool, pool.order[mi]))
    {
      hide Less, Rank, Enough, Whole, Pool.Ok, Sized, AllSized;
      var t, e := pool.order[mi], Whole(pool, pool.order[mi]);
      WholeEnough(pool, inBlock, t);
      EnoughSized(pool, inBlock, t, e);
      LessTotal(Rank(pool, t, e), Rank(pool, t, e));
    }

    lemma PreferredPays(mi: nat, modified: ModifiedMap, t: Tx, e: Entry)
      requires Valid() && Covers(pool, inBlock, modified) && AllSized(pool) && Plain(Elements(pool.order)) && Ranked()
      requires Preferred(mi, modified, t, e) && t in pool.order && t !in inBlock && Enough(pool, inBlock, t, e)
      ensures PaysMost(mi, modified, t, e)
    {
      hide Less, Rank, Rate, Enough, Whole, Pool.Ok, Sized, AllSized;
      EnoughSized(pool, inBlock, t, e);
      assert forall u | u in pool.order :: u in Elements(pool.order) && pool.createOrCall(u) == 0;
      forall u | u in modified ensures Rate(pool, u, modified[u]) <= Rate(pool, t, e) {
        RankIsRate(pool, u, modified[u], t, e);
      }
      forall k | mi <= k < |pool.order|
        ensures var u := pool.order[k];
                Sized(pool, u, Whole(pool, u)) && Rate(pool, u, Whole(pool, u)) <= Rate(pool, t, e)
      {
        var u, next := pool.order[k], pool.order[mi];
        if k > mi {
          RankIsRate(pool, u, Whole(pool, u), next, Whole(pool, next));
        }
        RankIsRate(pool, next, Whole(pool, next), t, e);
      }
    }

    lemma StartCovers(m: ModifiedMap)
      requires Valid() && Deducted(pool, map[], m, inBlock, inBlock)
      ensures Covers(pool, inBlock, m)
    {
      OrderedClosed(pool, vtx);
      assert {} + inBlock == inBlock;
      DeductedCovers(pool, map[], m, {}, inBlock);
    }

    /** A block that got longer has fewer mempool transactions left. */
    lemma Progress(txs: seq<Tx>, block: set<Tx>)
      requires Valid() && block == Elements(txs) && txs <= vtx
      ensures if vtx == txs then inBlock == block else Elements(pool.order) - inBlock < Elements(pool.order) - block
    {
      if vtx != txs {
        var t := vtx[|txs|];
        assert t in Elements(vtx) && t !in Elements(txs) && t in Elements(pool.order);
        assert block <= inBlock;
      }
    }

    lemma PackageGrows(vtx0: seq<Tx>, sorted: seq<Tx>, iter: Tx)
      requires iter in Elements(sorted[..|sorted|])
      ensures vtx0 + sorted != vtx0 && sorted[..|sorted|] == sorted
    {
      assert |vtx0 + sorted| > |vtx0|;
    }

    lemma AddedPart(sorted: seq<Tx>, k: nat, block: set<Tx>, package: set<Tx>)
      requires Sorted(pool, sorted, package) && k <= |sorted| && block !! package
      ensures Elements(sorted[..k]) <= package && block + Elements(sorted[..k]) - block == Elements(sorted[..k])
    {
      assert Elements(sorted[..k]) <= Elements(sorted);
    }

    lemma StartEntered(sorted: seq<Tx>, plain: bool)
      requires Valid()
      ensures Entered(Now(), sorted, 0, plain) && Elements(sorted[..0]) == {}
    {
      hide Ordered, Elements, Pool.Ok;
      StartCharged(sorted);
      assert vtx == vtx + sorted[..0];
    }

    lemma StartCharged(sorted: seq<Tx>)
      ensures Grown(pool, nBlockWeight, nBlockSigOpsCost, nBlockWeight, nBlockSigOpsCost, Elements(sorted[..0]))
              && Elements(sorted[..0]) == {}
      ensures forall plain :: Booked(nFees, nBlockTx, Elements(sorted[..0]), 0, plain)
    {
      SumNone(pool.order, {}, pool.fee);
      SumNone(pool.order, {}, pool.Weights());
      SumNone(pool.order, {}, pool.Ops());
      assert Elements(sorted[..0]) == {};
    }
  }

  // ---- accounting ----

  /** The totals of a part of a sorted package and one more. */
  lemma TotalNext(pool: Pool, block: set<Tx>, sorted: seq<Tx>, t: Tx, i: nat, f: Tx -> int)
    requires pool.Ok() && t in pool.order && Sorted(pool, sorted, pool.Family(t) - block) && i < |sorted|
    ensures pool.Total(Elements(sorted[..i + 1]), f) == pool.Total(Elements(sorted[..i]), f) + f(sorted[i])
  {
    hide Sorted;
    NextReady(pool, block, sorted, t, i);
    TotalPlus(pool, Elements(sorted[..i]), sorted[i], f);
  }

  lemma {:induction false} Fewest(pool: Pool, s: set<Tx>, x: Tx)
    requires x in s
    ensures exists t :: t in s && forall u | u in s :: pool.NotAfter(t, u)
    decreases pool.Count(x), pool.hash(x)
  {
    if y :| y in s && !pool.NotAfter(x, y) {
      Fewest(pool, s, y);
    }
  }
}
