/** Block index entries with their skip pointers, and the active chain (src/chain.cpp, src/chain.h). */
module Chain {
  import opened Powers

  /** A block's entry.  Its predecessor and height are fixed when it enters the index. */
  class BlockIndex {
    const pprev: BlockIndex?
    const nHeight: nat
    var pskip: BlockIndex?

    constructor (pprev: BlockIndex?)
      ensures this.pprev == pprev && nHeight == (if pprev == null then 0 else pprev.nHeight + 1) && pskip == null
    {
      this.pprev := pprev;
      nHeight := if pprev == null then 0 else pprev.nHeight + 1;
      pskip := null;
    }

    /** The entry at a height on this block's branch, found with the skip pointers; null outside the branch. */
    method GetAncestor(height: int, ghost tree: set<BlockIndex>) returns (r: BlockIndex?)
      requires SkipTree(tree) && this in tree
      ensures if 0 <= height <= nHeight then r == Ancestor(this, height) && r in tree else r == null
    {
      if height > nHeight || height < 0 {
        return null;
      }
      var walk, heightWalk: nat := this, nHeight;
      while heightWalk > height
        invariant walk in tree && height <= heightWalk <= nHeight && walk == Ancestor(this, heightWalk)
        decreases heightWalk
      {
        AncestorHeight(this, heightWalk);
        SkipBelow(heightWalk);
        var heightSkip, heightSkipPrev := GetSkipHeight(heightWalk), GetSkipHeight(heightWalk - 1);
        if walk.pskip != null &&
           (heightSkip == height
            || (heightSkip > height && !(heightSkipPrev < heightSkip - 2 && heightSkipPrev >= height))) {
          AncestorOfAncestor(this, heightWalk, heightSkip);
          walk := walk.pskip;
          heightWalk := heightSkip;
        } else {
          AncestorOfAncestor(this, heightWalk, heightWalk - 1);
          walk := walk.pprev;
          heightWalk := heightWalk - 1;
        }
      }
      return walk;
    }

    /** Sets the skip pointer of an entry whose predecessors have theirs; the tree stays a tree with right pointers. */
    method BuildSkip(ghost tree: set<BlockIndex>)
      requires SkipTree(tree) && this in tree
      modifies this`pskip
      ensures SkipTree(tree) && (pprev != null ==> pskip == Ancestor(this, GetSkipHeight(nHeight)))
              && (pprev == null ==> pskip == old(pskip))
    {
      if pprev != null {
        SkipBelow(nHeight);
        pskip := pprev.GetAncestor(GetSkipHeight(nHeight), tree);
      }
    }
  }

  // ---- branches ----

  /** The branch of a block goes down to height 0 one by one. */
  ghost predicate Linked(b: BlockIndex)
    decreases b.nHeight
  {
    if b.pprev == null then b.nHeight == 0 else b.nHeight == b.pprev.nHeight + 1 && Linked(b.pprev)
  }

  /** Walking back to a height. */
  ghost function Ancestor(b: BlockIndex, height: nat): BlockIndex
    requires Linked(b) && height <= b.nHeight
    decreases b.nHeight
  {
    if height == b.nHeight then b else Ancestor(b.pprev, height)
  }

  lemma {:induction false} AncestorHeight(b: BlockIndex, height: nat)
    requires Linked(b) && height <= b.nHeight
    ensures Linked(Ancestor(b, height)) && Ancestor(b, height).nHeight == height
    decreases b.nHeight
  {
    if height < b.nHeight {
      AncestorHeight(b.pprev, height);
    }
  }

  lemma {:induction false} AncestorOfAncestor(b: BlockIndex, mid: nat, low: nat)
    requires Linked(b) && low <= mid <= b.nHeight
    ensures Linked(Ancestor(b, mid)) && Ancestor(b, mid).nHeight == mid
            && Ancestor(Ancestor(b, mid), low) == Ancestor(b, low)
    decreases b.nHeight
  {
    if mid < b.nHeight {
      AncestorOfAncestor(b.pprev, mid, low);
    }
  }

  ghost predicate IsAncestor(a: BlockIndex, b: BlockIndex)
    requires Linked(b)
  {
    a.nHeight <= b.nHeight && Ancestor(b, a.nHeight) == a
  }

  /** One step back on a branch. */
  lemma StepBack(b: BlockIndex, a: BlockIndex)
    requires Linked(b) && IsAncestor(a, b)
    ensures Linked(a) && (a.nHeight == 0 <==> a.pprev == null)
    ensures a.pprev != null ==> a.pprev.nHeight == a.nHeight - 1 && IsAncestor(a.pprev, b)
  {
    AncestorOfAncestor(b, a.nHeight, if a.nHeight == 0 then 0 else a.nHeight - 1);
  }

  lemma SelfAncestor(b: BlockIndex)
    requires Linked(b)
    ensures IsAncestor(b, b)
  {
  }

  // ---- skip heights ----

  /** The bitwise conjunction of two numbers. */
  function BitAnd(x: nat, y: nat): (r: nat)
    ensures r <= x && r <= y
  {
    if x == 0 || y == 0 then 0 else 2 * BitAnd(x / 2, y / 2) + if x % 2 == 1 && y % 2 == 1 then 1 else 0
  }

  lemma {:induction false} BitAndSame(x: nat)
    ensures BitAnd(x, x) == x
  {
    if x > 0 {
      BitAndSame(x / 2);
    }
  }

  /** The lowest one bit turned into a zero; for zero the other operand is -1. */
  function InvertLowestOne(n: nat): (r: nat)
    ensures n > 0 ==> r < n
    ensures n == 0 ==> r == 0
  {
    if n == 0 then 0 else BitAnd(n, n - 1)
  }

  lemma InvertStep(n: nat)
    requires n > 0
    ensures InvertLowestOne(n) == if n % 2 == 1 then n - 1 else 2 * InvertLowestOne(n / 2)
  {
    if n % 2 == 1 {
      BitAndSame(n / 2);
    } else {
      assert (n - 1) / 2 == n / 2 - 1;
    }
  }

  /** What is taken off is the lowest one bit: a power of two of which the rest is a multiple of the double. */
  lemma {:induction false} LowestOne(n: nat) returns (k: nat, q: nat)
    requires n > 0
    ensures n == InvertLowestOne(n) + Pow2(k) && InvertLowestOne(n) == Pow2(k + 1) * q
  {
    hide InvertLowestOne;
    InvertStep(n);
    if n % 2 == 1 {
      k, q := 0, n / 2;
      assert Pow2(1) == 2;
    } else {
      k, q := LowestOne(n / 2);
      assert 2 * (Pow2(k + 1) * q) == Pow2(k + 2) * q;
      k := k + 1;
    }
  }

  function GetSkipHeight(height: nat): nat {
    if height < 2 then 0
    else if height % 2 == 1 then InvertLowestOne(InvertLowestOne(height - 1)) + 1
    else InvertLowestOne(height)
  }

  /** A skip goes back. */
  /** An even height skips back by its lowest one bit; an odd one, but for that last bit, by its two lowest ones. */
  lemma SkipIs(height: nat) returns (k: nat, l: nat, q: nat)
    requires height >= 2
    ensures var skip := GetSkipHeight(height);
            if height % 2 == 0 then height == skip + Pow2(k) && skip == Pow2(k + 1) * q
            else || (skip == 1 && height == 1 + Pow2(k))
                 || (k < l && height == skip + Pow2(k) + Pow2(l) && skip == Pow2(l + 1) * q + 1)
  {
    k, q := LowestOne(if height % 2 == 0 then height else height - 1);
    l := 0;
    if height % 2 == 1 && InvertLowestOne(height - 1) > 0 {
      var p := q;
      l, q := LowestOne(InvertLowestOne(height - 1));
      assert Pow2(l + 1) * q == Pow2(l) * (2 * q);
      assert Pow2(l) * (2 * q + 1) == Pow2(l) * (2 * q) + Pow2(l);
      HigherOne(k + 1, p, l, q);
    }
  }

  lemma HigherOne(a: nat, p: nat, l: nat, q: nat)
    requires Pow2(a) * p == Pow2(l) * (2 * q + 1)
    ensures a <= l
  {
    if l < a {
      Pow2Add(l, a - l);
      PowDouble(a - l - 1);
      hide Pow2;
      Regroup(Pow2(l), Pow2(a - l - 1), p);
      SameFactor(Pow2(l), 2 * (Pow2(a - l - 1) * p), 2 * q + 1);
      OddEven(Pow2(a - l - 1) * p, q);
    }
  }

  lemma PowDouble(n: nat)
    ensures Pow2(n + 1) == 2 * Pow2(n)
  {
  }

  lemma Regroup(c: nat, h: nat, p: nat)
    ensures c * (2 * h) * p == c * (2 * (h * p))
  {
  }

  lemma OddEven(x: nat, q: nat)
    ensures 2 * x != 2 * q + 1
  {
  }

  lemma SameFactor(c: nat, x: nat, y: nat)
    requires c > 0 && c * x == c * y
    ensures x == y
  {
    assert c * (x - y) == 0;
  }

  lemma SkipBelow(height: nat)
    requires height > 0
    ensures GetSkipHeight(height) < height
  {
  }

  /**
   A set of entries closed under predecessors whose skip pointers, where set, lead to the ancestor at the skip height.
   */
  ghost predicate SkipTree(tree: set<BlockIndex>)
    reads tree
  {
    forall b | b in tree ::
      && Linked(b) && (b.pprev != null ==> b.pprev in tree)
      && (b.pskip != null ==> b.nHeight > 0 && SkipsTo(b, b.pskip) && b.pskip in tree)
  }

  lemma InTree(tree: set<BlockIndex>, b: BlockIndex)
    requires SkipTree(tree) && b in tree
    ensures Linked(b) && (b.pprev != null ==> b.pprev in tree)
  {
  }

  ghost predicate SkipsTo(b: BlockIndex, s: BlockIndex)
    requires Linked(b)
  {
    b.nHeight > 0 ==> (SkipBelow(b.nHeight); s == Ancestor(b, GetSkipHeight(b.nHeight)))
  }

  /** A new block at the end of a branch belongs to the tree once its skip pointer is built. */
  method AddBlock(pprev: BlockIndex?, ghost tree: set<BlockIndex>) returns (b: BlockIndex, ghost tree': set<BlockIndex>)
    requires SkipTree(tree) && (pprev == null || pprev in tree)
    ensures SkipTree(tree') && tree' == tree + {b} && b !in tree && b.pprev == pprev && fresh(b)
  {
    b := new BlockIndex(pprev);
    tree' := tree + {b};
    b.BuildSkip(tree');
  }
}
