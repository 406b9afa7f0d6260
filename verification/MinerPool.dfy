/**
 The mempool as the block assembler sees it (src/miner.cpp, src/miner.h): a finite set of transactions, each with its
 in-mempool ancestors, and totals over sets of them.
 */
module MinerPool {
  import opened Collections

  type Tx = nat

  const WITNESS_SCALE_FACTOR: nat := 4

  /**
   `order` lists the transactions as the ancestor-score index of mapTx does; any order will do.  `createOrCall` is 0 for
   transactions without contract outputs, 1 for those that call, 2 for those that create and 3 for those that do both;
   `final` marks those that pass the locktime and witness tests.
   */
  datatype Pool = Pool(
    order: seq<Tx>, ancestors: Tx -> set<Tx>, weight: Tx -> nat, sigOps: Tx -> nat, bytesPerSigOp: nat,
    fee: Tx -> int, modifiedFee: Tx -> int, createOrCall: Tx -> nat, minGasPrice: Tx -> int, final: Tx -> bool,
    hash: Tx -> nat)
  {
    /** HasCreateOrCall. */
    predicate HasContract(t: Tx) { createOrCall(t) != 0 }

    /** Ancestors are transitive and within the pool, and nothing is its own ancestor. */
    ghost predicate Ok() {
      && (forall i, j | 0 <= i < j < |order| :: order[i] != order[j])
      && (forall t | t in order ::
            t !in ancestors(t) && forall a | a in ancestors(t) :: a in order && ancestors(a) <= ancestors(t))
    }

    function Family(t: Tx): set<Tx> { ancestors(t) + {t} }

    /** GetTxSize: the virtual size. */
    function Size(t: Tx): (size: nat)
      ensures 4 * size >= weight(t) && 4 * size >= sigOps(t) * bytesPerSigOp
      ensures size > 0 ==> 4 * (size - 1) < weight(t) || 4 * (size - 1) < sigOps(t) * bytesPerSigOp
    {
      var ops := sigOps(t) * bytesPerSigOp;
      ((if weight(t) >= ops then weight(t) else ops) + WITNESS_SCALE_FACTOR - 1) / WITNESS_SCALE_FACTOR
    }

    function Total(s: set<Tx>, f: Tx -> int): int { Sum(order, s, f) }

    function Sizes(): Tx -> int { (t: Tx) => Size(t) }
    function Weights(): Tx -> int { (t: Tx) => weight(t) }
    function Ops(): Tx -> int { (t: Tx) => sigOps(t) }

    /** What the entry caches: the totals with all its ancestors. */
    function FullSize(t: Tx): int { Total(Family(t), Sizes()) }
    function FullOps(t: Tx): int { Total(Family(t), Ops()) }
    function FullFees(t: Tx): int { Total(Family(t), modifiedFee) }
    function Count(t: Tx): nat { |Family(t)| }

    /** The order for the block: by number of ancestors, then by hash. */
    predicate NotAfter(a: Tx, b: Tx) { Count(a) < Count(b) || (Count(a) == Count(b) && hash(a) <= hash(b)) }

    ghost predicate NonNegative() { forall t | t in order :: fee(t) >= 0 && modifiedFee(t) >= 0 }

    /** No fee was adjusted by hand. */
    ghost predicate Unadjusted() { forall t | t in order :: fee(t) == modifiedFee(t) }

    /** Every transaction alone pays what a package has to. */
    ghost predicate Paying() { Unadjusted() && forall t | t in order :: fee(t) >= 10000 }

    /** CalculateDescendants, without the transaction itself. */
    function Descendants(t: Tx): set<Tx> { set d | d in order && t in ancestors(d) }
  }

  function Sum(order: seq<Tx>, s: set<Tx>, f: Tx -> int): int {
    if order == [] then 0 else (if order[0] in s then f(order[0]) else 0) + Sum(order[1..], s, f)
  }

  lemma {:induction false} SumSplit(order: seq<Tx>, s: set<Tx>, t: set<Tx>, f: Tx -> int)
    requires s !! t
    ensures Sum(order, s + t, f) == Sum(order, s, f) + Sum(order, t, f)
  {
    if order != [] {
      SumSplit(order[1..], s, t, f);
    }
  }

  lemma {:induction false} SumNone(order: seq<Tx>, s: set<Tx>, f: Tx -> int)
    requires forall t | t in order :: t !in s
    ensures Sum(order, s, f) == 0
  {
    if order != [] {
      SumNone(order[1..], s, f);
    }
  }

  lemma {:induction false} SumOne(order: seq<Tx>, t: Tx, f: Tx -> int)
    requires t in order && forall i, j | 0 <= i < j < |order| :: order[i] != order[j]
    ensures Sum(order, {t}, f) == f(t)
  {
    if order[0] == t {
      SumNone(order[1..], {t}, f);
    } else {
      SumOne(order[1..], t, f);
    }
  }

  lemma {:induction false} SumMono(order: seq<Tx>, s: set<Tx>, t: set<Tx>, f: Tx -> int)
    requires s <= t && forall x | x in order :: f(x) >= 0
    ensures 0 <= Sum(order, s, f) <= Sum(order, t, f)
  {
    if order != [] {
      SumMono(order[1..], s, t, f);
    }
  }

  lemma {:induction false} SumScaled(order: seq<Tx>, s: set<Tx>, f: Tx -> int, g: Tx -> int, k: int)
    requires forall x :: f(x) <= k * g(x)
    ensures Sum(order, s, f) <= k * Sum(order, s, g)
  {
    if order != [] {
      SumScaled(order[1..], s, f, g, k);
    }
  }

  /** A package weighs at most four times its virtual size. */
  lemma WeightFits(pool: Pool, s: set<Tx>)
    ensures pool.Total(s, pool.Weights()) <= 4 * pool.Total(s, pool.Sizes())
  {
    SumScaled(pool.order, s, pool.Weights(), pool.Sizes(), 4);
  }

  /** Adding one transaction to a set. */
  lemma TotalPlus(pool: Pool, s: set<Tx>, t: Tx, f: Tx -> int)
    requires pool.Ok() && t in pool.order && t !in s
    ensures pool.Total(s + {t}, f) == pool.Total(s, f) + f(t)
  {
    SumSplit(pool.order, s, {t}, f);
    SumOne(pool.order, t, f);
  }

  // ---- blocks ----

  /** With a transaction come its ancestors. */
  ghost predicate Closed(pool: Pool, s: set<Tx>) {
    forall t | t in s :: t in pool.order && pool.ancestors(t) <= s
  }

  ghost function Elements(s: seq<Tx>): set<Tx> { set t | t in s }

  /** No transaction twice, and each one after all its in-mempool ancestors. */
  ghost predicate Ordered(pool: Pool, vtx: seq<Tx>) {
    && (forall i, j | 0 <= i < j < |vtx| :: vtx[i] != vtx[j])
    && (forall i | 0 <= i < |vtx| :: vtx[i] in pool.order && pool.ancestors(vtx[i]) <= Elements(vtx[..i]))
  }

  lemma OrderedClosed(pool: Pool, vtx: seq<Tx>)
    requires Ordered(pool, vtx)
    ensures Closed(pool, Elements(vtx))
  {
    forall t | t in Elements(vtx) ensures t in pool.order && pool.ancestors(t) <= Elements(vtx) {
      var i :| 0 <= i < |vtx| && vtx[i] == t;
      assert Elements(vtx[..i]) <= Elements(vtx);
    }
  }

  lemma ClosedInPool(pool: Pool, s: set<Tx>)
    requires Closed(pool, s)
    ensures s <= Elements(pool.order)
  {
  }

  lemma NotAmong(vtx: seq<Tx>, t: Tx)
    ensures t in Elements(vtx) <==> t in vtx
  {
  }

  lemma OrderedMore(pool: Pool, vtx: seq<Tx>, t: Tx)
    requires Ordered(pool, vtx) && t in pool.order && t !in vtx && pool.ancestors(t) <= Elements(vtx)
    ensures Ordered(pool, vtx + [t]) && Elements(vtx + [t]) == Elements(vtx) + {t}
  {
    var more := vtx + [t];
    forall i | 0 <= i < |more| ensures more[i] in pool.order && pool.ancestors(more[i]) <= Elements(more[..i]) {
      assert more[..i] == vtx[..i];
      if i == |vtx| {
        assert vtx[..i] == vtx;
      }
    }
  }

  /**
   The package sorted for the block: its members in an order where each one's ancestors come before or are confirmed.
   */
  ghost predicate Sorted(pool: Pool, sorted: seq<Tx>, package: set<Tx>) {
    && (forall i, j | 0 <= i < j < |sorted| :: sorted[i] != sorted[j])
    && Elements(sorted) == package
    && (forall i, j | 0 <= i < j < |sorted| :: pool.NotAfter(sorted[i], sorted[j]))
  }

  lemma SortedNone(pool: Pool)
    ensures Sorted(pool, [], {})
  {
  }

  lemma SortedAll(pool: Pool, sorted: seq<Tx>, package: set<Tx>)
    requires Sorted(pool, sorted, package)
    ensures Elements(sorted[..|sorted|]) == package
  {
    assert sorted[..|sorted|] == sorted;
  }

  lemma SortedMore(pool: Pool, sorted: seq<Tx>, package: set<Tx>, t: Tx)
    requires Sorted(pool, sorted, package) && t !in package && forall u | u in package :: pool.NotAfter(u, t)
    ensures Sorted(pool, sorted + [t], package + {t})
  {
    hide Pool.NotAfter;
    var more := sorted + [t];
    assert Elements(more) == Elements(sorted) + {t};
    forall i, j | 0 <= i < j < |more| ensures more[i] != more[j] && pool.NotAfter(more[i], more[j]) {
      assert more[i] == sorted[i] && sorted[i] in Elements(sorted);
    }
  }

  ghost predicate DistinctHashes(pool: Pool, package: set<Tx>) {
    forall x, y | x in package && y in package && x != y :: pool.hash(x) != pool.hash(y)
  }

  /** With distinct hashes there is only one such order. */
  lemma {:induction false} SortedUnique(pool: Pool, s: seq<Tx>, t: seq<Tx>, package: set<Tx>)
    requires Sorted(pool, s, package) && Sorted(pool, t, package) && DistinctHashes(pool, package)
    ensures s == t
  {
    hide Pool.Count;
    NoneOrSome(s);
    NoneOrSome(t);
    if s != [] && t != [] {
      SameLast(pool, s, t, package);
      var x := s[|s| - 1];
      SortedLess(pool, s, package);
      SortedLess(pool, t, package);
      SortedUnique(pool, s[..|s| - 1], t[..|t| - 1], package - {x});
      assert s == s[..|s| - 1] + [x] && t == t[..|t| - 1] + [x];
    }
  }

  lemma NoneOrSome(s: seq<Tx>)
    ensures s == [] <==> Elements(s) == {}
  {
    if s != [] {
      assert s[0] in Elements(s);
    }
  }

  lemma SameLast(pool: Pool, s: seq<Tx>, t: seq<Tx>, package: set<Tx>)
    requires Sorted(pool, s, package) && Sorted(pool, t, package) && DistinctHashes(pool, package) && s != [] && t != []
    ensures s[|s| - 1] == t[|t| - 1]
  {
    hide Pool.Count;
    var x, y := s[|s| - 1], t[|t| - 1];
    assert x in Elements(t) && y in Elements(s);
    var i, j :| 0 <= i < |s| && s[i] == y && 0 <= j < |t| && t[j] == x;
  }

  lemma SortedLess(pool: Pool, s: seq<Tx>, package: set<Tx>)
    requires Sorted(pool, s, package) && s != []
    ensures Sorted(pool, s[..|s| - 1], package - {s[|s| - 1]})
  {
    hide Pool.NotAfter;
    var front, x := s[..|s| - 1], s[|s| - 1];
    forall t ensures t in Elements(front) <==> t in package - {x} {
      if t in package - {x} {
        assert t in Elements(s);
        var i :| 0 <= i < |s| && s[i] == t;
        assert front[i] == t;
      }
      if t in Elements(front) {
        var i :| 0 <= i < |front| && front[i] == t;
        assert s[i] == t && t in Elements(s);
      }
    }
  }

  lemma AncestorCount(pool: Pool, a: Tx, t: Tx)
    requires pool.Ok() && t in pool.order && a in pool.ancestors(t)
    ensures pool.Count(a) < pool.Count(t)
  {
    SmallerSet(pool.Family(a), pool.Family(t), t);
  }

  lemma SmallerSet(s: set<Tx>, t: set<Tx>, x: Tx)
    requires s <= t && x in t && x !in s
    ensures |s| < |t|
  {
    SubsetSize(s, t - {x});
  }

  /** Sorting by ancestor count puts ancestors first. */
  lemma SortedAncestors(pool: Pool, sorted: seq<Tx>, package: set<Tx>, i: nat)
    requires pool.Ok() && Sorted(pool, sorted, package) && i < |sorted| && sorted[i] in pool.order
    ensures pool.ancestors(sorted[i]) * package <= Elements(sorted[..i])
  {
    forall a | a in pool.ancestors(sorted[i]) * package ensures a in Elements(sorted[..i]) {
      assert a in Elements(sorted);
      var j :| 0 <= j < |sorted| && sorted[j] == a;
      AncestorCount(pool, a, sorted[i]);
      assert j < i;
      assert sorted[..i][j] == a;
    }
  }

  /** The next transaction of a sorted package can go into the block: it is new and its ancestors are there. */
  lemma NextReady(pool: Pool, block: set<Tx>, sorted: seq<Tx>, t: Tx, i: nat)
    requires pool.Ok() && t in pool.order && Sorted(pool, sorted, pool.Family(t) - block) && i < |sorted|
    ensures sorted[i] in pool.order && sorted[i] in pool.Family(t) - block
            && sorted[i] !in block + Elements(sorted[..i])
    ensures pool.ancestors(sorted[i]) <= block + Elements(sorted[..i])
    ensures Elements(sorted[..i + 1]) == Elements(sorted[..i]) + {sorted[i]}
  {
    var package := pool.Family(t) - block;
    assert sorted[i] in Elements(sorted);
    SortedAncestors(pool, sorted, package, i);
    assert sorted[..i + 1] == sorted[..i] + [sorted[i]];
  }

  /** Weight and sigops have grown by exactly those of the given transactions. */
  ghost predicate Grown(pool: Pool, weight0: int, sigOps0: int, weight: int, sigOps: int, s: set<Tx>) {
    weight == weight0 + pool.Total(s, pool.Weights()) && sigOps == sigOps0 + pool.Total(s, pool.Ops())
  }
}
