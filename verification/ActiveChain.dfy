/** CChain: the active chain as a vector, forks and locators (src/chain.cpp, src/chain.h). */
module ActiveChain {
  import opened Powers
  import opened Chain

  /** The branch of a block as a vector. */
  ghost predicate IsPath(v: seq<BlockIndex?>, tip: BlockIndex)
    requires Linked(tip)
  {
    |v| == tip.nHeight + 1 && forall h | 0 <= h <= tip.nHeight :: v[h] == Ancestor(tip, h)
  }

  ghost predicate Has(v: seq<BlockIndex?>, b: BlockIndex) { b.nHeight < |v| && v[b.nHeight] == b }

  /** No block of the branch from a height on is in the vector. */
  ghost predicate NoneFrom(v: seq<BlockIndex?>, b: BlockIndex, low: nat)
    requires Linked(b)
  {
    forall h: nat | low <= h <= b.nHeight :: !Has(v, Ancestor(b, h))
  }

  lemma NoneBeyond(v: seq<BlockIndex?>, b: BlockIndex)
    requires Linked(b)
    ensures NoneFrom(v, b, |v|)
  {
    forall h: nat | |v| <= h <= b.nHeight ensures !Has(v, Ancestor(b, h)) {
      AncestorHeight(b, h);
    }
  }

  lemma NoneFromLower(v: seq<BlockIndex?>, b: BlockIndex, a: BlockIndex)
    requires Linked(b) && IsAncestor(a, b) && !Has(v, a) && NoneFrom(v, b, a.nHeight + 1)
    ensures NoneFrom(v, b, a.nHeight)
  {
  }

  class ActiveChain {
    var vChain: seq<BlockIndex?>

    constructor ()
      ensures vChain == []
    {
      vChain := [];
    }

    /** The vector is the branch of its last entry. */
    ghost predicate Valid(tree: set<BlockIndex>)
      reads this, tree
    {
      SkipTree(tree)
      && (vChain != [] ==> var tip := vChain[|vChain| - 1]; tip != null && tip in tree && IsPath(vChain, tip))
    }

    function At(height: int): BlockIndex?
      reads this
    {
      if height < 0 || height >= |vChain| then null else vChain[height]
    }

    predicate Contains(b: BlockIndex)
      reads this
    {
      At(b.nHeight) == b
    }

    /** Makes the vector the branch of the new tip, stopping where it meets the branch that is already there. */
    method SetTip(tip: BlockIndex?, ghost tree: set<BlockIndex>)
      requires Valid(tree) && (tip == null || tip in tree)
      modifies this
      ensures Valid(tree)
      ensures if tip == null then vChain == [] else IsPath(vChain, tip)
    {
      hide GetSkipHeight, Linked, Ancestor, SkipTree;
      if tip == null {
        vChain := [];
        return;
      }
      InTree(tree, tip);
      SelfAncestor(tip);
      ghost var old_ := vChain;
      var size := tip.nHeight + 1;
      vChain := if size <= |vChain| then vChain[..size] else vChain + seq(size - |vChain|, _ => null);
      var pindex: BlockIndex? := tip;
      while pindex != null && vChain[pindex.nHeight] != pindex
        invariant |vChain| == size && (pindex != null ==> pindex in tree && IsAncestor(pindex, tip))
        invariant var done := if pindex == null then 0 else pindex.nHeight + 1;
                  && (forall h | done <= h < size :: vChain[h] == Ancestor(tip, h))
                  && (forall h | 0 <= h < done :: vChain[h] == if h < |old_| then old_[h] else null)
        decreases if pindex == null then 0 else pindex.nHeight + 1
      {
        StepBack(tip, pindex);
        InTree(tree, pindex);
        vChain := vChain[pindex.nHeight := pindex];
        pindex := pindex.pprev;
      }
      if pindex != null {
        if old_ != [] {
          InTree(tree, old_[|old_| - 1]);
        }
        MeetsPath(old_, pindex, tip);
      }
    }

    /** The highest block of the given one's branch that is in the chain; null if there is none. */
    method FindFork(b: BlockIndex?, ghost tree: set<BlockIndex>) returns (r: BlockIndex?)
      requires Valid(tree) && (b == null || b in tree)
      ensures b == null ==> r == null
      ensures b != null && r != null ==> IsAncestor(r, b) && Has(vChain, r) && NoneFrom(vChain, b, r.nHeight + 1)
      ensures b != null && r == null ==> NoneFrom(vChain, b, 0)
    {
      hide GetSkipHeight, Linked, Ancestor, SkipTree, NoneFrom;
      if b == null {
        return null;
      }
      InTree(tree, b);
      SelfAncestor(b);
      r := b;
      NoneBeyond(vChain, b);
      if b.nHeight > |vChain| - 1 {
        r := b.GetAncestor(|vChain| - 1, tree);
        if vChain != [] {
          AncestorHeight(b, |vChain| - 1);
        }
      } else {
        NoneAbove(vChain, b);
      }
      while r != null && !Contains(r)
        invariant r != null ==> r in tree && IsAncestor(r, b) && NoneFrom(vChain, b, r.nHeight + 1)
        invariant r == null ==> NoneFrom(vChain, b, 0)
        decreases if r == null then 0 else r.nHeight + 1
      {
        NoneFromLower(vChain, b, r);
        StepBack(b, r);
        InTree(tree, r);
        r := r.pprev;
      }
    }

    function Tip(): BlockIndex?
      reads this
    {
      if vChain == [] then null else vChain[|vChain| - 1]
    }

    /** The ancestor at a height, from the vector if the block is in the chain and by skipping otherwise. */
    method GoBack(b: BlockIndex, height: nat, ghost tree: set<BlockIndex>) returns (r: BlockIndex)
      requires Valid(tree) && b in tree && height <= b.nHeight
      ensures r in tree && r.nHeight == height && Linked(b) && r == Ancestor(b, height)
    {
      hide GetSkipHeight, Linked, Ancestor, SkipTree;
      InTree(tree, b);
      AncestorHeight(b, height);
      if Contains(b) {
        OnPath(vChain, b, height, tree);
        r := At(height);
      } else {
        r := b.GetAncestor(height, tree);
      }
    }

    /**
     A locator: blocks of one branch from the given one, or the tip, down to height 0, at exactly the heights of
     LocatorHeight.  They go down strictly, and their number is logarithmic in the height of the first.
     */
    method GetLocator(b: BlockIndex?, ghost tree: set<BlockIndex>) returns (have: seq<BlockIndex>)
      requires Valid(tree) && (b == null || b in tree)
      ensures (b == null && vChain == []) <==> have == []
      ensures have != [] ==> var start := if b == null then Tip() else b;
                             && start != null && Linked(start) && have[0] == start && have[|have| - 1].nHeight == 0
                             && (forall i: nat | i < |have| ::
                                   IsAncestor(have[i], start) && have[i].nHeight == LocatorHeight(start.nHeight, i))
                             && (forall i: nat | i + 1 < |have| :: have[i].nHeight > have[i + 1].nHeight)
                             && (|have| >= 13 ==> start.nHeight > Pow2(|have| - 12))
                             && (forall i: nat | i + 1 < |have| ::
                                   have[i + 1].nHeight == 0
                                   || have[i].nHeight - have[i + 1].nHeight == if i <= 10 then 1 else Pow2(i - 10))
    {
      hide GetSkipHeight, Linked, Ancestor, SkipTree, Pow2, LocatorHeight, LocatorStep;
      var step: nat := 1;
      LocatorStart(if b != null then b.nHeight else if Tip() != null then Tip().nHeight else 0);
      have := [];
      var pindex := if b == null then Tip() else b;
      if pindex == null {
        return;
      }
      ghost var start: BlockIndex := pindex;
      InTree(tree, start);
      SelfAncestor(start);
      while true
        invariant pindex in tree && IsAncestor(pindex, start) && pindex.nHeight == LocatorHeight(start.nHeight, |have|)
        invariant step == LocatorStep(|have|) && (have == [] ==> pindex == start) && (have != [] ==> have[0] == start)
        invariant forall i: nat | i < |have| ::
                    have[i].nHeight > 0 && IsAncestor(have[i], start)
                    && have[i].nHeight == LocatorHeight(start.nHeight, i)
        decreases pindex.nHeight
      {
        have := have + [pindex];
        if pindex.nHeight == 0 {
          break;
        }
        LocatorNext(start.nHeight, |have| - 1);
        var nHeight: nat := if pindex.nHeight < step then 0 else pindex.nHeight - step;
        AncestorOfAncestor(start, pindex.nHeight, nHeight);
        pindex := GoBack(pindex, nHeight, tree);
        if |have| > 10 {
          step := step * 2;
        }
      }
      LocatorShape(have, start.nHeight);
    }
  }

  lemma LocatorShape(have: seq<BlockIndex>, start: nat)
    requires have != [] && forall i: nat | i < |have| :: have[i].nHeight == LocatorHeight(start, i)
    requires forall i: nat | i + 1 < |have| :: have[i].nHeight > 0
    ensures forall i: nat | i + 1 < |have| :: have[i].nHeight > have[i + 1].nHeight
    ensures |have| >= 13 ==> start > Pow2(|have| - 12)
    ensures forall i: nat | i + 1 < |have| ::
              have[i + 1].nHeight == 0
              || have[i].nHeight - have[i + 1].nHeight == if i <= 10 then 1 else Pow2(i - 10)
  {
    hide Pow2, LocatorHeight, LocatorStep;
    forall i: nat | i + 1 < |have|
      ensures have[i].nHeight > have[i + 1].nHeight
      ensures have[i + 1].nHeight == 0
              || have[i].nHeight - have[i + 1].nHeight == if i <= 10 then 1 else Pow2(i - 10)
    {
      LocatorDescends(start, i);
      LocatorGap(start, i);
    }
    if |have| >= 13 {
      LocatorLength(start, |have|);
    }
  }

  /** Where the old branch and the new one share an entry they share everything below it. */
  lemma MeetsPath(v: seq<BlockIndex?>, meet: BlockIndex, tip: BlockIndex)
    requires Linked(tip) && IsAncestor(meet, tip) && meet.nHeight < |v| && v[meet.nHeight] == meet
    requires var last := v[|v| - 1]; last != null && Linked(last) && IsPath(v, last)
    ensures forall h | 0 <= h <= meet.nHeight :: v[h] == Ancestor(tip, h)
  {
    forall h: nat | h <= meet.nHeight ensures v[h] == Ancestor(tip, h) {
      AncestorOfAncestor(v[|v| - 1], meet.nHeight, h);
      AncestorOfAncestor(tip, meet.nHeight, h);
    }
  }

  /** In the chain the ancestor of a contained block is the entry at its height. */
  lemma OnPath(v: seq<BlockIndex?>, b: BlockIndex, h: nat, tree: set<BlockIndex>)
    requires SkipTree(tree) && b in tree && h <= b.nHeight && Has(v, b)
    requires var last := v[|v| - 1]; last != null && last in tree && IsPath(v, last)
    ensures Linked(b) && v[h] == Ancestor(b, h) && v[h] in tree
  {
    hide GetSkipHeight;
    var last := v[|v| - 1];
    AncestorOfAncestor(last, b.nHeight, h);
    AncestorInTree(tree, b, h);
  }

  lemma {:induction false} AncestorInTree(tree: set<BlockIndex>, b: BlockIndex, h: nat)
    requires SkipTree(tree) && b in tree && h <= b.nHeight
    ensures Linked(b) && Ancestor(b, h) in tree
    decreases b.nHeight
  {
    hide GetSkipHeight;
    if h < b.nHeight {
      AncestorInTree(tree, b.pprev, h);
    }
  }

  // ---- locators ----

  /** How far below the start the i-th entry of a locator lies: ten steps of one, then steps that double. */
  ghost function LocatorDrop(i: nat): nat { if i <= 10 then i else 9 + Pow2(i - 10) }

  ghost function LocatorHeight(start: nat, i: nat): nat { if start < LocatorDrop(i) then 0 else start - LocatorDrop(i) }

  ghost function LocatorStep(i: nat): nat { if i <= 10 then 1 else Pow2(i - 10) }

  lemma LocatorStart(start: nat)
    ensures LocatorHeight(start, 0) == start && LocatorStep(0) == 1
  {
  }

  /** One step back, and the next step. */
  lemma LocatorNext(start: nat, i: nat)
    ensures var h := LocatorHeight(start, i);
            LocatorHeight(start, i + 1) == if h < LocatorStep(i) then 0 else h - LocatorStep(i)
    ensures LocatorStep(i + 1) == (if i + 1 > 10 then 2 * LocatorStep(i) else LocatorStep(i)) >= 1
    ensures LocatorStep(i) >= 1
  {
    assert Pow2(1) == 2;
  }

  lemma LocatorDescends(start: nat, i: nat)
    requires LocatorHeight(start, i) > 0
    ensures LocatorHeight(start, i) > LocatorHeight(start, i + 1)
  {
    hide LocatorHeight, LocatorStep;
    LocatorNext(start, i);
  }

  lemma LocatorGap(start: nat, i: nat)
    ensures LocatorHeight(start, i + 1) == 0
            || LocatorHeight(start, i) - LocatorHeight(start, i + 1) == if i <= 10 then 1 else Pow2(i - 10)
  {
    hide LocatorHeight, Pow2;
    LocatorNext(start, i);
  }

  /** The length of a locator is logarithmic: n entries need a start higher than 2^(n-12). */
  lemma LocatorLength(start: nat, n: nat)
    requires n >= 13 && LocatorHeight(start, n - 2) > 0
    ensures start > Pow2(n - 12)
  {
  }

  lemma NoneAbove(v: seq<BlockIndex?>, b: BlockIndex)
    requires Linked(b)
    ensures NoneFrom(v, b, b.nHeight + 1)
  {
  }

  /** The branches have different blocks at every common height from a height on. */
  ghost predicate ApartFrom(a: BlockIndex, b: BlockIndex, low: nat)
    requires Linked(a) && Linked(b)
  {
    forall h: nat | low <= h <= a.nHeight && h <= b.nHeight :: Ancestor(a, h) != Ancestor(b, h)
  }

  lemma ApartLower(a: BlockIndex, b: BlockIndex, pa: BlockIndex, pb: BlockIndex)
    requires Linked(a) && Linked(b) && IsAncestor(pa, a) && IsAncestor(pb, b) && pa.nHeight == pb.nHeight && pa != pb
    requires ApartFrom(a, b, pa.nHeight + 1)
    ensures ApartFrom(a, b, pa.nHeight)
  {
  }

  lemma ApartAbove(a: BlockIndex, b: BlockIndex, low: nat)
    requires Linked(a) && Linked(b) && (a.nHeight < low || b.nHeight < low)
    ensures ApartFrom(a, b, low)
  {
  }

  /** The highest block both branches share; null if they share none. */
  method LastCommonAncestor(a: BlockIndex, b: BlockIndex, ghost tree: set<BlockIndex>) returns (r: BlockIndex?)
    requires SkipTree(tree) && a in tree && b in tree
    ensures r != null ==> IsAncestor(r, a) && IsAncestor(r, b) && ApartFrom(a, b, r.nHeight + 1)
    ensures r == null ==> ApartFrom(a, b, 0)
  {
    hide GetSkipHeight, Linked, Ancestor, SkipTree, ApartFrom;
    InTree(tree, a);
    InTree(tree, b);
    SelfAncestor(a);
    SelfAncestor(b);
    var pa: BlockIndex?, pb: BlockIndex? := a, b;
    if a.nHeight > b.nHeight {
      pa := a.GetAncestor(b.nHeight, tree);
      AncestorHeight(a, b.nHeight);
    } else if b.nHeight > a.nHeight {
      pb := b.GetAncestor(a.nHeight, tree);
      AncestorHeight(b, a.nHeight);
    }
    ApartAbove(a, b, pa.nHeight + 1);
    while pa != pb && pa != null && pb != null
      invariant (pa == null) == (pb == null)
      invariant pa != null ==> pa.nHeight == pb.nHeight && IsAncestor(pa, a) && IsAncestor(pb, b)
      invariant ApartFrom(a, b, if pa == null then 0 else pa.nHeight + 1)
      decreases if pa == null then 0 else pa.nHeight + 1
    {
      ApartLower(a, b, pa, pb);
      StepBack(a, pa);
      StepBack(b, pb);
      pa, pb := pa.pprev, pb.pprev;
    }
    assert pa == pb;
    return pa;
  }
}
