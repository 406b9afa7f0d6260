/**
 How much a partial Merkle tree stores (src/merkleblock.h:36-48): one hash per transaction at most, one more than
 matches times height at most, and two bits per hash less one, plus one for every stored node with a single child.
 */
module MerkleSizes {
  import opened Powers
  import opened MerkleTree
  import opened MerklePartial

  lemma {:induction false} BuildSizes(H: Pair, txids: seq<Hash>, mask: seq<bool>, height: nat, pos: nat)
    requires |txids| == |mask| > 0 && pos < Width(|txids|, height)
    ensures var parts := Build(H, txids, mask, height, pos);
            && 1 <= |parts.hashes| <= First(height, pos + 1) - First(height, pos)
            && First(height, pos) + |parts.hashes| <= |txids|
            && |parts.hashes| <= 1 + |Below(mask, height, pos)| * height
            && |parts.bits| == 2 * |parts.hashes| - 1 + Lone(mask, height, pos)
    decreases height
  {
    hide Width, Pow2, Below, Above, CalcHash, Build;
    FirstMono(height, pos, pos + 1);
    NodeHasLeaf(|txids|, height, pos);
    if height == 0 || !Above(mask, height, pos) {
      StoredSizes(H, txids, mask, height, pos);
    } else {
      BuildDescends(H, txids, mask, height, pos);
      BelowSplits(mask, height, pos);
      BelowNone(mask, height, pos);
      BuildSizes(H, txids, mask, height - 1, pos * 2);
      var left, right := |Below(mask, height - 1, pos * 2)|, 0;
      FirstMono(height - 1, pos * 2 + 1, pos * 2 + 2);
      if pos * 2 + 1 < Width(|txids|, height - 1) {
        BuildSizes(H, txids, mask, height - 1, pos * 2 + 1);
        right := |Below(mask, height - 1, pos * 2 + 1)|;
      }
      assert left + right >= 1;
      assert (left + right) * height == left * (height - 1) + right * (height - 1) + (left + right);
    }
  }

  lemma StoredSizes(H: Pair, txids: seq<Hash>, mask: seq<bool>, height: nat, pos: nat)
    requires |txids| == |mask| > 0 && pos < Width(|txids|, height) && (height == 0 || !Above(mask, height, pos))
    ensures var parts := Build(H, txids, mask, height, pos);
            |parts.hashes| == |parts.bits| == 1 && Lone(mask, height, pos) == 0
  {
  }

  /** The last node of the level has a single child and a match below it. */
  ghost predicate LoneEnd(mask: seq<bool>, height: nat)
    requires |mask| > 0 && height > 0
  {
    Width(|mask|, height - 1) % 2 == 1 && Width(|mask|, height) >= 1 && Above(mask, height, Width(|mask|, height) - 1)
  }

  /** The documented 2N-1 bits are kept exactly if no level has such an end. */
  lemma {:induction false} LoneExactly(mask: seq<bool>, height: nat, pos: nat)
    requires |mask| > 0 && pos < Width(|mask|, height)
    ensures pos < Width(|mask|, height) - 1 ==> Lone(mask, height, pos) == 0
    ensures pos == Width(|mask|, height) - 1 ==>
              (Lone(mask, height, pos) == 0 <==> forall h | 0 < h <= height :: !LoneEnd(mask, h))
    decreases height
  {
    hide Width, Pow2, Above;
    if height > 0 {
      Children(|mask|, height - 1, pos);
      AboveSplits(mask, height, pos);
      WidthHalves(|mask|, height - 1);
      LoneExactly(mask, height - 1, pos * 2);
      if pos * 2 + 1 < Width(|mask|, height - 1) {
        LoneExactly(mask, height - 1, pos * 2 + 1);
      }
      if pos == Width(|mask|, height) - 1 {
        assert LoneEnd(mask, height) <==> Above(mask, height, pos) && pos * 2 + 1 >= Width(|mask|, height - 1);
        if !Above(mask, height, pos) {
          NoneBelow(mask, height);
        }
      }
    }
  }

  /** A last node without matches has only last nodes without matches below it. */
  lemma {:induction false} NoneBelow(mask: seq<bool>, height: nat)
    requires |mask| > 0 && Width(|mask|, height) >= 1 && !Above(mask, height, Width(|mask|, height) - 1)
    ensures forall h | 0 < h <= height :: !LoneEnd(mask, h)
    decreases height
  {
    hide Width, Pow2, Above;
    if height > 0 {
      WidthHalves(|mask|, height - 1);
      AboveSplits(mask, height, Width(|mask|, height) - 1);
      NoneBelow(mask, height - 1);
    }
  }

  /** The whole tree: 2N-1 bits are enough for N hashes exactly if no level has a lone matched end. */
  lemma BitsBound(H: Pair, txids: seq<Hash>, mask: seq<bool>)
    requires |txids| == |mask| > 0
    ensures Width(|txids|, Height(|txids|)) == 1
    ensures var parts := Build(H, txids, mask, Height(|txids|), 0);
            |parts.bits| <= 2 * |parts.hashes| - 1 <==> forall h | 0 < h <= Height(|txids|) :: !LoneEnd(mask, h)
  {
    hide Width, Pow2, Build, Lone, LoneEnd;
    RootIsOnly(|txids|);
    BuildSizes(H, txids, mask, Height(|txids|), 0);
    LoneExactly(mask, Height(|txids|), 0);
  }

  /** With three transactions of which the last is matched the documented bound fails. */
  lemma BitsExceed(H: Pair, txids: seq<Hash>, mask: seq<bool>)
    requires |txids| == |mask| == 3 && mask[2]
    ensures Width(|txids|, Height(|txids|)) == 1
    ensures var parts := Build(H, txids, mask, Height(|txids|), 0); |parts.bits| > 2 * |parts.hashes| - 1
  {
    hide Build, Lone, Width, Pow2;
    BitsBound(H, txids, mask);
    WidthLeaves(|mask|);
    WidthHalves(|mask|, 0);
    assert First(1, 1) == 2 && First(1, 2) == 4;
    assert LoneEnd(mask, 1);
  }
}
