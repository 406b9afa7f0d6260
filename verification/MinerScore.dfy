/**
 Which of two packages goes first: CompareModifiedEntry (src/miner.h:106-157), which for transactions without contract
 is CompareTxMemPoolEntryByAncestorFee (src/txmempool.h:363-401), over exact numbers instead of double precision.
 */
module MinerScore {
  import opened MinerPool
  import opened MinerModified

  const OP_CALL := 1

  /**
   The fee and the size that count: those of the transaction or of the whole package, whichever pays less per byte.
   */
  function ModFeeAndSize(pool: Pool, t: Tx, e: Entry): (int, int) {
    if pool.modifiedFee(t) * e.size > e.fees * pool.Size(t) then (e.fees, e.size)
    else (pool.modifiedFee(t), pool.Size(t))
  }

  predicate ByAncestorFee(pool: Pool, a: Tx, e: Entry, b: Tx, f: Entry) {
    var (feeA, sizeA) := ModFeeAndSize(pool, a, e);
    var (feeB, sizeB) := ModFeeAndSize(pool, b, f);
    var f1, f2 := feeA * sizeB, sizeA * feeB;
    if f1 == f2 then pool.hash(a) < pool.hash(b) else f1 > f2
  }

  predicate CompareModifiedEntry(pool: Pool, a: Tx, e: Entry, b: Tx, f: Entry) {
    var opA, opB := pool.createOrCall(a), pool.createOrCall(b);
    if opA > 0 || opB > 0 then
      if (opA > 0) != (opB > 0) then opA == 0
      else if opA != opB && (opA == OP_CALL || opB == OP_CALL) then opA != OP_CALL
      else if e.size == pool.Size(a) && f.size != pool.Size(b) then true
      else if f.size == pool.Size(b) && e.size != pool.Size(a) then false
      else if pool.minGasPrice(a) != pool.minGasPrice(b) then pool.minGasPrice(a) > pool.minGasPrice(b)
      else if pool.Size(a) != pool.Size(b) then pool.Size(a) < pool.Size(b)
      else pool.hash(a) < pool.hash(b)
    else ByAncestorFee(pool, a, e, b, f)
  }

  ghost predicate Sized(pool: Pool, t: Tx, e: Entry) { pool.Size(t) > 0 && e.size > 0 }

  /** What the package pays per byte, or the transaction alone if that is less. */
  ghost function Rate(pool: Pool, t: Tx, e: Entry): real
    requires Sized(pool, t, e)
  {
    var own, all := pool.modifiedFee(t) as real / pool.Size(t) as real, e.fees as real / e.size as real;
    if own < all then own else all
  }

  /**
   The lower the better: transactions without contract by their rate; then contracts that create; then those that only
   call; of these first the ones that wait for no ancestor, then by gas price and by size; equal ones by hash.
   */
  ghost function Rank(pool: Pool, t: Tx, e: Entry): seq<real>
    requires Sized(pool, t, e)
  {
    if pool.createOrCall(t) == 0 then [0.0, -Rate(pool, t, e), pool.hash(t) as real]
    else [if pool.createOrCall(t) == 1 then 2.0 else 1.0, if e.size == pool.Size(t) then 0.0 else 1.0,
          -(pool.minGasPrice(t) as real), pool.Size(t) as real, pool.hash(t) as real]
  }

  ghost predicate Less(a: seq<real>, b: seq<real>) {
    a != [] && b != [] && (a[0] < b[0] || (a[0] == b[0] && Less(a[1..], b[1..])))
  }

  lemma {:induction false} LessTrans(a: seq<real>, b: seq<real>, c: seq<real>)
    requires Less(a, b) && Less(b, c)
    ensures Less(a, c)
  {
    if a[0] == b[0] == c[0] {
      LessTrans(a[1..], b[1..], c[1..]);
    }
  }

  lemma {:induction false} LessTotal(a: seq<real>, b: seq<real>)
    requires |a| == |b|
    ensures (Less(a, b) || Less(b, a) <==> a != b) && !(Less(a, b) && Less(b, a))
  {
    if a != [] {
      LessTotal(a[1..], b[1..]);
      assert a == [a[0]] + a[1..] && b == [b[0]] + b[1..];
    }
  }

  lemma Crossed(a: int, b: int, c: int, d: int)
    requires b > 0 && d > 0
    ensures a * d > c * b <==> a as real / b as real > c as real / d as real
    ensures a * d == c * b <==> a as real / b as real == c as real / d as real
  {
    var x, y := a as real / b as real, c as real / d as real;
    var p := b as real * d as real;
    assert p == (b * d) as real > 0.0;
    assert x * p == (a * d) as real by {
      assert x * b as real == a as real;
      assert x * p == x * b as real * d as real;
    }
    assert y * p == (c * b) as real by {
      assert y * d as real == c as real;
      assert y * p == y * d as real * b as real;
    }
    Scaled(x, y, p);
  }

  lemma Scaled(x: real, y: real, p: real)
    requires p > 0.0
    ensures x > y <==> x * p > y * p
    ensures x == y <==> x * p == y * p
  {
    if x > y {
      assert (x - y) * p > 0.0;
    } else if x < y {
      assert (y - x) * p > 0.0;
    }
  }

  lemma RateIs(pool: Pool, t: Tx, e: Entry)
    requires Sized(pool, t, e)
    ensures var (fee, size) := ModFeeAndSize(pool, t, e);
            size > 0 && Rate(pool, t, e) == fee as real / size as real
  {
    Crossed(pool.modifiedFee(t), pool.Size(t), e.fees, e.size);
  }

  /** The comparison is the order of the ranks. */
  lemma ComparesByRank(pool: Pool, a: Tx, e: Entry, b: Tx, f: Entry)
    requires Sized(pool, a, e) && Sized(pool, b, f)
    ensures CompareModifiedEntry(pool, a, e, b, f) <==> Less(Rank(pool, a, e), Rank(pool, b, f))
  {
    var r, s := Rank(pool, a, e), Rank(pool, b, f);
    if pool.createOrCall(a) == 0 && pool.createOrCall(b) == 0 {
      RateIs(pool, a, e);
      RateIs(pool, b, f);
      var (feeA, sizeA) := ModFeeAndSize(pool, a, e);
      var (feeB, sizeB) := ModFeeAndSize(pool, b, f);
      Crossed(feeA, sizeA, feeB, sizeB);
      Three(r, s);
    } else if pool.createOrCall(a) != 0 && pool.createOrCall(b) != 0 {
      Five(r, s);
    }
  }

  lemma Three(r: seq<real>, s: seq<real>)
    requires |r| == |s| == 3
    ensures Less(r, s) <==>
            r[0] < s[0] || (r[0] == s[0] && (r[1] < s[1] || (r[1] == s[1] && r[2] < s[2])))
  {
    assert Less(r[1..], s[1..]) <==> r[1] < s[1] || (r[1] == s[1] && Less(r[1..][1..], s[1..][1..]));
    assert Less(r[1..][1..], s[1..][1..]) <==> r[2] < s[2] by {
      assert r[1..][1..] == [r[2]] && s[1..][1..] == [s[2]];
    }
  }

  lemma Five(r: seq<real>, s: seq<real>)
    requires |r| == |s| == 5
    ensures var later := r[2] < s[2] || (r[2] == s[2] && (r[3] < s[3] || (r[3] == s[3] && r[4] < s[4])));
            Less(r, s) <==> r[0] < s[0] || (r[0] == s[0] && (r[1] < s[1] || (r[1] == s[1] && later)))
  {
    var q, t := r[1..], s[1..];
    assert Less(q, t) <==> q[0] < t[0] || (q[0] == t[0] && Less(q[1..], t[1..]));
    Three(q[1..], t[1..]);
  }

  /** A strict order, as a sorted container needs it, in which only entries of one hash can be level. */
  lemma CompareIsOrder(pool: Pool, a: Tx, e: Entry, b: Tx, f: Entry, c: Tx, g: Entry)
    requires Sized(pool, a, e) && Sized(pool, b, f) && Sized(pool, c, g)
    ensures !CompareModifiedEntry(pool, a, e, a, e)
    ensures CompareModifiedEntry(pool, a, e, b, f) && CompareModifiedEntry(pool, b, f, c, g) ==>
              CompareModifiedEntry(pool, a, e, c, g)
    ensures pool.hash(a) != pool.hash(b) ==>
              (CompareModifiedEntry(pool, a, e, b, f) <==> !CompareModifiedEntry(pool, b, f, a, e))
  {
    hide Rank, CompareModifiedEntry;
    var r, s, t := Rank(pool, a, e), Rank(pool, b, f), Rank(pool, c, g);
    ComparesByRank(pool, a, e, a, e);
    ComparesByRank(pool, a, e, b, f);
    ComparesByRank(pool, b, f, a, e);
    ComparesByRank(pool, b, f, c, g);
    ComparesByRank(pool, a, e, c, g);
    LessTotal(r, r);
    if Less(r, s) && Less(s, t) {
      LessTrans(r, s, t);
    }
    if pool.hash(a) != pool.hash(b) {
      RanksDiffer(pool, a, e, b, f);
    }
  }

  lemma RanksDiffer(pool: Pool, a: Tx, e: Entry, b: Tx, f: Entry)
    requires Sized(pool, a, e) && Sized(pool, b, f) && pool.hash(a) != pool.hash(b)
    ensures Less(Rank(pool, a, e), Rank(pool, b, f)) <==> !Less(Rank(pool, b, f), Rank(pool, a, e))
  {
    var r, s := Rank(pool, a, e), Rank(pool, b, f);
    if |r| == |s| {
      assert r[|r| - 1] != s[|s| - 1];
      LessTotal(r, s);
    }
  }

  /** Not being outranked without a contract means paying at least as much per byte. */
  lemma RankIsRate(pool: Pool, a: Tx, e: Entry, b: Tx, f: Entry)
    requires Sized(pool, a, e) && Sized(pool, b, f) && pool.createOrCall(a) == pool.createOrCall(b) == 0
    requires !Less(Rank(pool, a, e), Rank(pool, b, f))
    ensures Rate(pool, a, e) <= Rate(pool, b, f)
  {
    Three(Rank(pool, a, e), Rank(pool, b, f));
  }

  /** What loses to something lost to does not win. */
  lemma NotOutranked(a: seq<real>, b: seq<real>, c: seq<real>)
    requires !Less(a, b) && Less(c, b)
    ensures !Less(a, c)
  {
    if Less(a, c) {
      LessTrans(a, c, b);
    }
  }

  lemma {:induction false} NotBoth(a: seq<real>, b: seq<real>)
    requires Less(a, b)
    ensures !Less(b, a)
  {
    if a[0] == b[0] {
      NotBoth(a[1..], b[1..]);
    }
  }

  lemma RanksComparable(pool: Pool, a: Tx, e: Entry, b: Tx, f: Entry)
    requires Sized(pool, a, e) && Sized(pool, b, f)
    ensures var r, s := Rank(pool, a, e), Rank(pool, b, f);
            Less(r, s) || Less(s, r) || r == s
  {
    var r, s := Rank(pool, a, e), Rank(pool, b, f);
    if |r| == |s| {
      LessTotal(r, s);
    }
  }

  lemma NeitherBefore(pool: Pool, a: Tx, e: Entry, b: Tx, f: Entry, c: Tx, g: Entry)
    requires Sized(pool, a, e) && Sized(pool, b, f) && Sized(pool, c, g)
    requires !Less(Rank(pool, a, e), Rank(pool, b, f)) && !Less(Rank(pool, b, f), Rank(pool, c, g))
    ensures !Less(Rank(pool, a, e), Rank(pool, c, g))
  {
    hide Rank, Less;
    var r, s, t := Rank(pool, a, e), Rank(pool, b, f), Rank(pool, c, g);
    RanksComparable(pool, a, e, b, f);
    RanksComparable(pool, b, f, c, g);
    if Less(r, t) && r != s && s != t {
      LessTrans(t, s, r);
      NotBoth(r, t);
    }
  }

  /** Every transaction has a size. */
  ghost predicate AllSized(pool: Pool) { forall t | t in pool.order :: pool.Size(t) > 0 }

  lemma EnoughSized(pool: Pool, block: set<Tx>, t: Tx, e: Entry)
    requires pool.Ok() && AllSized(pool) && t in pool.order && t !in block && Enough(pool, block, t, e)
    ensures Sized(pool, t, e)
  {
    SumMono(pool.order, {t}, pool.Family(t) - block, pool.Sizes());
    SumOne(pool.order, t, pool.Sizes());
  }
}
