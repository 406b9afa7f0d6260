/**
 Partial Merkle trees as functions: what is stored for a set of matched leaves, what is read back from arbitrary bits
 and hashes, and how the two fit together (src/merkleblock.cpp:60-163).
 */
module MerklePartial {
  import opened Collections
  import opened Powers
  import opened MerkleTree

  /** The node has a matched leaf below it. */
  ghost predicate Above(mask: seq<bool>, height: nat, pos: nat) {
    exists p :: First(height, pos) <= p < First(height, pos + 1) && p < |mask| && mask[p]
  }

  lemma AboveSplits(mask: seq<bool>, height: nat, pos: nat)
    requires height > 0 && |mask| > 0 && pos < Width(|mask|, height)
    ensures Above(mask, height, pos) <==>
            Above(mask, height - 1, pos * 2)
            || (pos * 2 + 1 < Width(|mask|, height - 1) && Above(mask, height - 1, pos * 2 + 1))
  {
    hide Width, Pow2;
    FirstMono(height - 1, pos * 2, pos * 2 + 1);
    FirstMono(height - 1, pos * 2 + 1, pos * 2 + 2);
    NodeHasLeaf(|mask|, height - 1, pos * 2 + 1);
    assert First(height, pos + 1) == First(height - 1, pos * 2 + 2);
    if Above(mask, height, pos) {
      var p :| First(height, pos) <= p < First(height, pos + 1) && p < |mask| && mask[p];
      if p < First(height - 1, pos * 2 + 1) {
        assert Above(mask, height - 1, pos * 2);
      } else {
        assert Above(mask, height - 1, pos * 2 + 1);
      }
    }
    if Above(mask, height - 1, pos * 2) {
      var p :| First(height - 1, pos * 2) <= p < First(height - 1, pos * 2 + 1) && p < |mask| && mask[p];
      assert Above(mask, height, pos);
    }
    if Above(mask, height - 1, pos * 2 + 1) {
      var p :| First(height - 1, pos * 2 + 1) <= p < First(height - 1, pos * 2 + 2) && p < |mask| && mask[p];
      assert Above(mask, height, pos);
    }
  }

  /** The matched positions from lo up to hi, in order. */
  ghost function Picked(mask: seq<bool>, lo: nat, hi: nat): seq<nat>
    decreases hi - lo
  {
    if lo >= hi || lo >= |mask| then [] else (if mask[lo] then [lo] else []) + Picked(mask, lo + 1, hi)
  }

  lemma {:induction false} PickedSplits(mask: seq<bool>, lo: nat, mid: nat, hi: nat)
    requires lo <= mid <= hi
    ensures Picked(mask, lo, hi) == Picked(mask, lo, mid) + Picked(mask, mid, hi)
    decreases mid - lo
  {
    if lo < mid && lo < |mask| {
      PickedSplits(mask, lo + 1, mid, hi);
    }
  }

  lemma {:induction false} PickedNone(mask: seq<bool>, lo: nat, hi: nat)
    ensures Picked(mask, lo, hi) == [] <==> forall p | lo <= p < hi && p < |mask| :: !mask[p]
    decreases hi - lo
  {
    if lo < hi && lo < |mask| {
      PickedNone(mask, lo + 1, hi);
    }
  }

  lemma {:induction false} PickedExactly(mask: seq<bool>, lo: nat, hi: nat)
    ensures forall p :: p in Picked(mask, lo, hi) <==> lo <= p < hi && p < |mask| && mask[p]
    ensures forall i, j | 0 <= i < j < |Picked(mask, lo, hi)| :: Picked(mask, lo, hi)[i] < Picked(mask, lo, hi)[j]
    decreases hi - lo
  {
    if lo < hi && lo < |mask| {
      PickedExactly(mask, lo + 1, hi);
      var rest := Picked(mask, lo + 1, hi);
      assert forall i | 0 <= i < |rest| :: rest[i] in rest;
    }
  }

  ghost function At(txids: seq<Hash>, index: seq<nat>): seq<Hash>
    requires forall i | 0 <= i < |index| :: index[i] < |txids|
  {
    seq(|index|, i requires 0 <= i < |index| => txids[index[i]])
  }

  // ---- what is stored ----

  datatype Parts = Parts(bits: seq<bool>, hashes: seq<Hash>) {
    function Then(next: Parts): Parts { Parts(bits + next.bits, hashes + next.hashes) }
  }

  ghost function Build(H: Pair, txids: seq<Hash>, mask: seq<bool>, height: nat, pos: nat): Parts
    requires |txids| == |mask| > 0 && pos < Width(|txids|, height)
    decreases height
  {
    var above := Above(mask, height, pos);
    if height == 0 || !above then
      Parts([above], [CalcHash(H, txids, height, pos)])
    else
      Children(|txids|, height - 1, pos);
      var left := Parts([true], []).Then(Build(H, txids, mask, height - 1, pos * 2));
      if pos * 2 + 1 < Width(|txids|, height - 1) then left.Then(Build(H, txids, mask, height - 1, pos * 2 + 1))
      else left
  }

  /** The nodes stored as having a single child. */
  ghost function Lone(mask: seq<bool>, height: nat, pos: nat): nat
    requires |mask| > 0 && pos < Width(|mask|, height)
    decreases height
  {
    if height == 0 || !Above(mask, height, pos) then 0 else
    Children(|mask|, height - 1, pos);
    Lone(mask, height - 1, pos * 2) +
    if pos * 2 + 1 < Width(|mask|, height - 1) then Lone(mask, height - 1, pos * 2 + 1) else 1
  }

  // ---- what is read back ----

  /**
   The state of a traversal: the hash of the node it returns from, the bits and hashes used so far and what it found.
   */
  datatype Walk = Walk(hash: Hash, bitsUsed: nat, hashUsed: nat, txids: seq<Hash>, index: seq<nat>, bad: bool)

  /** The next bit says to go on to the children. */
  predicate Descends(parts: Parts, height: nat, from: Walk) {
    from.bitsUsed < |parts.bits| && height > 0 && parts.bits[from.bitsUsed]
  }

  /** The end of a branch: a stored hash, which is a matched txid at height 0 with the bit set, or an overflow. */
  function Stop(parts: Parts, height: nat, pos: nat, from: Walk): Walk {
    if from.bitsUsed >= |parts.bits| then from.(hash := 0, bad := true) else
    var above := parts.bits[from.bitsUsed];
    var next := from.(bitsUsed := from.bitsUsed + 1);
    if next.hashUsed >= |parts.hashes| then next.(hash := 0, bad := true) else
    var hash := parts.hashes[next.hashUsed];
    var leaf := next.(hash := hash, hashUsed := next.hashUsed + 1);
    if height == 0 && above then leaf.(txids := leaf.txids + [hash], index := leaf.index + [pos]) else leaf
  }

  function Extract(H: Pair, n: nat, parts: Parts, height: nat, pos: nat, from: Walk): Walk
    decreases height
  {
    if !Descends(parts, height, from) then Stop(parts, height, pos, from) else
    var left := Extract(H, n, parts, height - 1, pos * 2, from.(bitsUsed := from.bitsUsed + 1));
    if pos * 2 + 1 < Width(n, height - 1) then
      var right := Extract(H, n, parts, height - 1, pos * 2 + 1, left);
      right.(hash := H(left.hash, right.hash), bad := right.bad || right.hash == left.hash)
    else
      left.(hash := H(left.hash, left.hash))
  }

  // ---- soundness ----

  /** Between two states the lists grew only by txids that are where the index says, in the range [lo, hi), in order. */
  ghost predicate FoundTrue(txids: seq<Hash>, t0: seq<Hash>, i0: seq<nat>, t1: seq<Hash>, i1: seq<nat>, lo: nat,
                            hi: nat) {
    && |t0| == |i0| <= |t1| == |i1|
    && t0 <= t1 && i0 <= i1
    && (forall k | |i0| <= k < |i1| :: lo <= i1[k] < hi && i1[k] < |txids| && t1[k] == txids[i1[k]])
    && (forall j, k | |i0| <= j < k < |i1| :: i1[j] < i1[k])
  }

  lemma FoundNone(txids: seq<Hash>, t0: seq<Hash>, i0: seq<nat>, lo: nat, hi: nat)
    requires |t0| == |i0|
    ensures FoundTrue(txids, t0, i0, t0, i0, lo, hi)
  {
  }

  lemma FoundOne(txids: seq<Hash>, t0: seq<Hash>, i0: seq<nat>, pos: nat)
    requires |t0| == |i0| && pos < |txids|
    ensures FoundTrue(txids, t0, i0, t0 + [txids[pos]], i0 + [pos], pos, pos + 1)
  {
  }

  lemma FoundJoins(txids: seq<Hash>, t0: seq<Hash>, i0: seq<nat>, t1: seq<Hash>, i1: seq<nat>, t2: seq<Hash>,
                   i2: seq<nat>,
                   lo: nat, mid: nat, hi: nat)
    requires lo <= mid <= hi && FoundTrue(txids, t0, i0, t1, i1, lo, mid) && FoundTrue(txids, t1, i1, t2, i2, mid, hi)
    ensures FoundTrue(txids, t0, i0, t2, i2, lo, hi)
  {
    assert forall k | 0 <= k < |i1| :: i2[k] == i1[k] && t2[k] == t1[k];
  }

  /** A traversal of arbitrary bits and hashes that ends with the true hash of the node found true leaves only. */
  lemma {:induction false} ExtractSound(H: Pair, txids: seq<Hash>, parts: Parts, height: nat, pos: nat, from: Walk,
                                        to: Walk)
    requires |txids| > 0 && Binding(H, txids) && pos < Width(|txids|, height) && |from.txids| == |from.index|
    requires to == Extract(H, |txids|, parts, height, pos, from) && to.hash == CalcHash(H, txids, height, pos)
    ensures FoundTrue(txids, from.txids, from.index, to.txids, to.index, First(height, pos), First(height, pos + 1))
    decreases height
  {
    hide Width, Pow2, FoundTrue;
    FoundNone(txids, from.txids, from.index, First(height, pos), First(height, pos + 1));
    if height == 0 {
      WidthLeaves(|txids|);
      FoundOne(txids, from.txids, from.index, pos);
    } else if Descends(parts, height, from) {
      SoundBelow(H, txids, parts, height, pos, from.(bitsUsed := from.bitsUsed + 1), to);
    }
  }

  lemma SoundBelow(H: Pair, txids: seq<Hash>, parts: Parts, height: nat, pos: nat, next: Walk, to: Walk)
    requires height > 0 && |txids| > 0 && Binding(H, txids) && pos < Width(|txids|, height)
             && |next.txids| == |next.index|
    requires var left := Extract(H, |txids|, parts, height - 1, pos * 2, next);
             if pos * 2 + 1 < Width(|txids|, height - 1) then
               var right := Extract(H, |txids|, parts, height - 1, pos * 2 + 1, left);
               to == right.(hash := H(left.hash, right.hash), bad := right.bad || right.hash == left.hash)
             else
               to == left.(hash := H(left.hash, left.hash))
    requires to.hash == CalcHash(H, txids, height, pos)
    ensures FoundTrue(txids, next.txids, next.index, to.txids, to.index, First(height, pos), First(height, pos + 1))
    decreases height, 0
  {
    hide Width, Pow2, FoundTrue, Extract;
    assert BindsAt(H, txids, height, pos);
    Children(|txids|, height - 1, pos);
    FirstMono(height - 1, pos * 2, pos * 2 + 1);
    FirstMono(height - 1, pos * 2 + 1, pos * 2 + 2);
    assert First(height, pos + 1) == First(height - 1, pos * 2 + 2);
    var left := Extract(H, |txids|, parts, height - 1, pos * 2, next);
    ExtractSound(H, txids, parts, height - 1, pos * 2, next, left);
    FoundSame(txids, next.txids, next.index, left.txids, left.index, First(height - 1, pos * 2),
              First(height - 1, pos * 2 + 1));
    FoundNone(txids, left.txids, left.index, First(height - 1, pos * 2 + 1), First(height - 1, pos * 2 + 2));
    if pos * 2 + 1 < Width(|txids|, height - 1) {
      var right := Extract(H, |txids|, parts, height - 1, pos * 2 + 1, left);
      ExtractSound(H, txids, parts, height - 1, pos * 2 + 1, left, right);
    }
    FoundJoins(txids, next.txids, next.index, left.txids, left.index, to.txids, to.index,
               First(height - 1, pos * 2), First(height - 1, pos * 2 + 1), First(height - 1, pos * 2 + 2));
  }

  lemma FoundSame(txids: seq<Hash>, t0: seq<Hash>, i0: seq<nat>, t1: seq<Hash>, i1: seq<nat>, lo: nat, hi: nat)
    requires FoundTrue(txids, t0, i0, t1, i1, lo, hi)
    ensures |t1| == |i1|
  {
  }

  // ---- completeness ----

  /** The parts stored for a node lie at the place the walk has reached. */
  ghost predicate Lies(all: Parts, from: Walk, parts: Parts) {
    && from.bitsUsed + |parts.bits| <= |all.bits| && all.bits[from.bitsUsed..from.bitsUsed + |parts.bits|] == parts.bits
    && from.hashUsed + |parts.hashes| <= |all.hashes|
    && all.hashes[from.hashUsed..from.hashUsed + |parts.hashes|] == parts.hashes
  }

  lemma LiesSplits(all: Parts, from: Walk, a: Parts, b: Parts, mid: Walk)
    requires Lies(all, from, a.Then(b))
    requires mid.bitsUsed == from.bitsUsed + |a.bits| && mid.hashUsed == from.hashUsed + |a.hashes|
    ensures Lies(all, from, a) && Lies(all, mid, b)
  {
    assert a.bits == a.Then(b).bits[..|a.bits|] && b.bits == a.Then(b).bits[|a.bits|..];
    assert a.hashes == a.Then(b).hashes[..|a.hashes|] && b.hashes == a.Then(b).hashes[|a.hashes|..];
  }

  /** The leaves below a node that are matched. */
  ghost function Below(mask: seq<bool>, height: nat, pos: nat): (r: seq<nat>)
    ensures forall i | 0 <= i < |r| :: r[i] < |mask|
  {
    PickedExactly(mask, First(height, pos), First(height, pos + 1));
    var r := Picked(mask, First(height, pos), First(height, pos + 1));
    assert forall i | 0 <= i < |r| :: r[i] in r;
    r
  }

  lemma BelowLeaf(mask: seq<bool>, pos: nat)
    requires pos < |mask|
    ensures Below(mask, 0, pos) == if mask[pos] then [pos] else []
  {
    assert Picked(mask, pos + 1, pos + 1) == [];
  }

  lemma BelowNone(mask: seq<bool>, height: nat, pos: nat)
    ensures Below(mask, height, pos) == [] <==> !Above(mask, height, pos)
  {
    PickedNone(mask, First(height, pos), First(height, pos + 1));
  }

  lemma BelowSplits(mask: seq<bool>, height: nat, pos: nat)
    requires height > 0 && |mask| > 0 && pos < Width(|mask|, height)
    ensures Below(mask, height, pos) ==
            Below(mask, height - 1, pos * 2) + if pos * 2 + 1 < Width(|mask|, height - 1)
            then Below(mask, height - 1, pos * 2 + 1) else []
  {
    hide Width, Pow2;
    FirstMono(height - 1, pos * 2, pos * 2 + 1);
    FirstMono(height - 1, pos * 2 + 1, pos * 2 + 2);
    PickedSplits(mask, First(height - 1, pos * 2), First(height - 1, pos * 2 + 1), First(height - 1, pos * 2 + 2));
    NodeHasLeaf(|mask|, height - 1, pos * 2 + 1);
    PickedNone(mask, First(height - 1, pos * 2 + 1), First(height - 1, pos * 2 + 2));
  }

  /**
   The state after walking the parts of a node: its hash, the parts used up, the matched leaves found, nothing bad.
   */
  ghost function Walked(H: Pair, txids: seq<Hash>, mask: seq<bool>, height: nat, pos: nat, from: Walk): Walk
    requires |txids| == |mask| > 0 && pos < Width(|txids|, height)
  {
    var parts := Build(H, txids, mask, height, pos);
    Walk(CalcHash(H, txids, height, pos), from.bitsUsed + |parts.bits|, from.hashUsed + |parts.hashes|,
         from.txids + At(txids, Below(mask, height, pos)), from.index + Below(mask, height, pos), from.bad)
  }

  lemma {:induction false} ExtractComplete(H: Pair, txids: seq<Hash>, mask: seq<bool>, all: Parts, height: nat,
                                           pos: nat, from: Walk)
    requires |txids| == |mask| > 0 && Binding(H, txids) && Distinct(txids) && pos < Width(|txids|, height)
    requires Lies(all, from, Build(H, txids, mask, height, pos))
    ensures Extract(H, |txids|, all, height, pos, from) == Walked(H, txids, mask, height, pos, from)
    decreases height
  {
    hide *;
    if height == 0 || !Above(mask, height, pos) {
      CompleteStored(H, txids, mask, all, height, pos, from);
    } else {
      CompleteBelow(H, txids, mask, all, height, pos, from);
    }
  }

  lemma CompleteStored(H: Pair, txids: seq<Hash>, mask: seq<bool>, all: Parts, height: nat, pos: nat, from: Walk)
    requires |txids| == |mask| > 0 && pos < Width(|txids|, height) && (height == 0 || !Above(mask, height, pos))
    requires Lies(all, from, Build(H, txids, mask, height, pos))
    ensures Extract(H, |txids|, all, height, pos, from) == Walked(H, txids, mask, height, pos, from)
  {
    hide Width, Pow2, Below, Above;
    var parts := Build(H, txids, mask, height, pos);
    BelowNone(mask, height, pos);
    assert all.hashes[from.hashUsed] == all.hashes[from.hashUsed..from.hashUsed + |parts.hashes|][0];
    assert all.bits[from.bitsUsed] == all.bits[from.bitsUsed..from.bitsUsed + |parts.bits|][0];
    if height == 0 {
      WidthLeaves(|mask|);
      BelowLeaf(mask, pos);
      assert At(txids, [pos]) == [txids[pos]];
    }
  }

  lemma ExtractStops(H: Pair, n: nat, all: Parts, height: nat, pos: nat, from: Walk)
    requires !Descends(all, height, from)
    ensures Extract(H, n, all, height, pos, from) == Stop(all, height, pos, from)
  {
  }

  /** One step of the traversal on a set bit above the leaves. */
  lemma ExtractDescends(H: Pair, n: nat, all: Parts, height: nat, pos: nat, from: Walk)
    requires Descends(all, height, from)
    ensures var left := Extract(H, n, all, height - 1, pos * 2, from.(bitsUsed := from.bitsUsed + 1));
            Extract(H, n, all, height, pos, from) ==
            if pos * 2 + 1 < Width(n, height - 1) then
              var right := Extract(H, n, all, height - 1, pos * 2 + 1, left);
              right.(hash := H(left.hash, right.hash), bad := right.bad || right.hash == left.hash)
            else left.(hash := H(left.hash, left.hash))
  {
  }

  lemma {:induction false} ExtractIgnoresHash(H: Pair, n: nat, all: Parts, height: nat, pos: nat, from: Walk)
    ensures Extract(H, n, all, height, pos, from.(hash := 0)) == Extract(H, n, all, height, pos, from)
    decreases height
  {
    hide Extract, Width;
    if Descends(all, height, from) {
      ExtractDescends(H, n, all, height, pos, from);
      ExtractDescends(H, n, all, height, pos, from.(hash := 0));
      ExtractIgnoresHash(H, n, all, height - 1, pos * 2, from.(bitsUsed := from.bitsUsed + 1));
    } else {
      ExtractStops(H, n, all, height, pos, from);
      ExtractStops(H, n, all, height, pos, from.(hash := 0));
    }
  }

  lemma LiesFirst(all: Parts, from: Walk, rest: Parts)
    requires Lies(all, from, Parts([true], []).Then(rest))
    ensures from.bitsUsed < |all.bits| && all.bits[from.bitsUsed]
    ensures Lies(all, from.(bitsUsed := from.bitsUsed + 1), rest)
  {
    var one := Parts([true], []);
    LiesSplits(all, from, one, rest, from.(bitsUsed := from.bitsUsed + 1));
    assert all.bits[from.bitsUsed] == all.bits[from.bitsUsed..from.bitsUsed + |one.bits|][0];
  }

  lemma AtJoins(txids: seq<Hash>, a: seq<nat>, b: seq<nat>)
    requires (forall i | 0 <= i < |a| :: a[i] < |txids|) && forall i | 0 <= i < |b| :: b[i] < |txids|
    ensures At(txids, a + b) == At(txids, a) + At(txids, b)
  {
  }

  lemma BuildStored(H: Pair, txids: seq<Hash>, mask: seq<bool>, height: nat, pos: nat)
    requires |txids| == |mask| > 0 && pos < Width(|txids|, height) && (height == 0 || !Above(mask, height, pos))
    ensures Build(H, txids, mask, height, pos) == Parts([Above(mask, height, pos)], [CalcHash(H, txids, height, pos)])
  {
  }

  lemma BuildDescends(H: Pair, txids: seq<Hash>, mask: seq<bool>, height: nat, pos: nat)
    requires |txids| == |mask| > 0 && pos < Width(|txids|, height) && height > 0 && Above(mask, height, pos)
    ensures 2 * pos < Width(|txids|, height - 1)
    ensures var left := Parts([true], []).Then(Build(H, txids, mask, height - 1, pos * 2));
            Build(H, txids, mask, height, pos) ==
            if pos * 2 + 1 < Width(|txids|, height - 1) then left.Then(Build(H, txids, mask, height - 1, pos * 2 + 1))
            else left
  {
    Children(|txids|, height - 1, pos);
  }

  lemma CompleteBelow(H: Pair, txids: seq<Hash>, mask: seq<bool>, all: Parts, height: nat, pos: nat, from: Walk)
    requires |txids| == |mask| > 0 && Binding(H, txids) && Distinct(txids) && pos < Width(|txids|, height)
    requires height > 0 && Above(mask, height, pos)
    requires Lies(all, from, Build(H, txids, mask, height, pos))
    ensures Extract(H, |txids|, all, height, pos, from) == Walked(H, txids, mask, height, pos, from)
    decreases height, 0
  {
    hide Width, Pow2, Binding, Distinct, Below, Above, Lies, Extract, CalcHash, At, Build;
    BuildDescends(H, txids, mask, height, pos);
    var both := Halves(H, txids, height, pos);
    BelowSplits(mask, height, pos);
    var next := from.(bitsUsed := from.bitsUsed + 1);
    var leftParts := Build(H, txids, mask, height - 1, pos * 2);
    var left := Walked(H, txids, mask, height - 1, pos * 2, next);
    if pos * 2 + 1 < Width(|txids|, height - 1) {
      LiesSplits(all, from, Parts([true], []).Then(leftParts), Build(H, txids, mask, height - 1, pos * 2 + 1), left);
      ExtractComplete(H, txids, mask, all, height - 1, pos * 2 + 1, left);
      NodesDiffer(H, txids, height - 1, pos * 2, pos * 2 + 1);
      var a, b := Below(mask, height - 1, pos * 2), Below(mask, height - 1, pos * 2 + 1);
      AtJoins(txids, a, b);
      assert from.txids + At(txids, a) + At(txids, b) == from.txids + (At(txids, a) + At(txids, b));
      assert from.index + a + b == from.index + (a + b);
    } else {
      assert Below(mask, height, pos) == Below(mask, height - 1, pos * 2);
    }
    LiesFirst(all, from, leftParts);
    ExtractComplete(H, txids, mask, all, height - 1, pos * 2, next);
    ExtractDescends(H, |txids|, all, height, pos, from);
  }
}
