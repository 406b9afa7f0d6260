/**
 The transaction tree of a block and its shape (src/merkleblock.cpp, src/merkleblock.h).
 Hashes are numbers, 0 being the null hash; the hash of two concatenated hashes is a parameter.
 */
module MerkleTree {
  import opened Collections
  import opened Powers

  type Hash = nat
  type Pair = (Hash, Hash) -> Hash

  /** CalcTreeWidth: the number of nodes at a height. */
  function Width(n: nat, height: nat): nat { (n + Pow2(height) - 1) / Pow2(height) }

  lemma MulLess(p: nat, a: int, b: int)
    requires p * a < p * b
    ensures a < b
  {
    assert p * b - p * a == p * (b - a);
  }

  lemma CeilIs(n: nat, p: nat, r: int)
    requires p >= 1 && p * (r - 1) < n <= p * r
    ensures (n + p - 1) / p == r
  {
    var q := (n + p - 1) / p;
    assert p * q <= n + p - 1 < p * q + p;
    MulLess(p, q, r + 1);
    MulLess(p, r, q + 1);
  }

  lemma CeilBounds(n: nat, p: nat)
    requires p >= 1 && n > 0
    ensures var r := (n + p - 1) / p; p * (r - 1) < n <= p * r && r >= 1
  {
    var r := (n + p - 1) / p;
    assert p * r <= n + p - 1 < p * r + p;
    assert p * (r - 1) == p * r - p;
    MulLess(p, 0, r + 1 - 1);
  }

  /** Each level has half as many nodes, rounded up. */
  lemma WidthHalves(n: nat, height: nat)
    requires n > 0
    ensures Width(n, height + 1) == (Width(n, height) + 1) / 2 && Width(n, height) >= 1
  {
    var p, q := Pow2(height), Width(n, height);
    CeilBounds(n, p);
    HalvesScale(n, p, q);
    CeilIs(n, Pow2(height + 1), (q + 1) / 2);
  }

  lemma HalvesScale(n: nat, p: nat, q: nat)
    requires p * (q - 1) < n <= p * q
    ensures (2 * p) * ((q + 1) / 2 - 1) < n <= (2 * p) * ((q + 1) / 2)
  {
    var r := (q + 1) / 2;
    MulMono(p, q, 2 * r);
    MulMono(p, 2 * (r - 1), q - 1);
    assert p * (2 * r) == (2 * p) * r && p * (2 * (r - 1)) == (2 * p) * (r - 1);
  }

  lemma MulMono(p: nat, a: int, b: int)
    requires a <= b
    ensures p * a <= p * b
  {
  }

  lemma WidthLeaves(n: nat)
    ensures Width(n, 0) == n
  {
  }

  /** The children of a node: the left one exists, the right one is missing only at the end of an odd level. */
  lemma Children(n: nat, height: nat, pos: nat)
    requires n > 0 && pos < Width(n, height + 1)
    ensures 2 * pos < Width(n, height)
    ensures 2 * pos + 1 >= Width(n, height) ==> pos == Width(n, height + 1) - 1 && Width(n, height) == 2 * pos + 1
    ensures pos < Width(n, height + 1) - 1 ==> 2 * pos + 1 < Width(n, height) - 1
    ensures pos == Width(n, height + 1) - 1 && 2 * pos + 1 < Width(n, height) ==> 2 * pos + 1 == Width(n, height) - 1
  {
    WidthHalves(n, height);
  }

  /** The height at which at most one node is left, searched upwards. */
  function HeightFrom(n: nat, height: nat): (r: nat)
    ensures r >= height && Width(n, r) <= 1 && forall h | height <= h < r :: Width(n, h) > 1
    decreases Width(n, height)
  {
    if Width(n, height) <= 1 then height else
    Shrinks(n, height);
    HeightFrom(n, height + 1)
  }

  lemma NoWidth(height: nat)
    ensures Width(0, height) == 0
  {
    assert (Pow2(height) - 1) / Pow2(height) == 0;
  }

  lemma Shrinks(n: nat, height: nat)
    requires Width(n, height) > 1
    ensures Width(n, height + 1) < Width(n, height)
  {
    hide Width;
    NoWidth(height);
    if n > 0 {
      WidthHalves(n, height);
    }
  }

  function Height(n: nat): nat { HeightFrom(n, 0) }

  lemma RootIsOnly(n: nat)
    requires n > 0
    ensures Width(n, Height(n)) == 1
  {
    WidthHalves(n, Height(n));
  }

  /** The leaf at which the node's share of the leaves starts: [First(h, pos), First(h, pos + 1)). */
  function First(height: nat, pos: nat): (r: nat)
    ensures r == pos * Pow2(height)
    decreases height
  {
    if height == 0 then pos else
    assert pos * 2 * Pow2(height - 1) == pos * Pow2(height);
    First(height - 1, pos * 2)
  }

  lemma {:induction false} FirstMono(height: nat, p: nat, q: nat)
    requires p < q
    ensures First(height, p) < First(height, q)
    decreases height
  {
    if height > 0 {
      FirstMono(height - 1, p * 2, q * 2);
    }
  }

  /** A node exists exactly if its first leaf does. */
  lemma {:induction false} NodeHasLeaf(n: nat, height: nat, pos: nat)
    requires n > 0
    ensures pos < Width(n, height) <==> First(height, pos) < n
    decreases height
  {
    hide Width, Pow2;
    if height == 0 {
      WidthLeaves(n);
    } else {
      NodeHasLeaf(n, height - 1, pos * 2);
      WidthHalves(n, height - 1);
    }
  }

  // ---- the full tree ----

  function CalcHash(H: Pair, txids: seq<Hash>, height: nat, pos: nat): Hash
    requires |txids| > 0 && pos < Width(|txids|, height)
    decreases height
  {
    if height == 0 then
      WidthLeaves(|txids|);
      txids[pos]
    else
      Children(|txids|, height - 1, pos);
      var left := CalcHash(H, txids, height - 1, pos * 2);
      var right := if pos * 2 + 1 < Width(|txids|, height - 1) then CalcHash(H, txids, height - 1, pos * 2 + 1)
                   else left;
      H(left, right)
  }

  function Root(H: Pair, txids: seq<Hash>): Hash
    requires |txids| > 0
  {
    RootIsOnly(|txids|);
    CalcHash(H, txids, Height(|txids|), 0)
  }

  /** The two hashes combined at an inner node. */
  ghost function Halves(H: Pair, txids: seq<Hash>, height: nat, pos: nat): (r: (Hash, Hash))
    requires height > 0 && |txids| > 0 && pos < Width(|txids|, height)
    ensures CalcHash(H, txids, height, pos) == H(r.0, r.1)
  {
    Children(|txids|, height - 1, pos);
    var left := CalcHash(H, txids, height - 1, pos * 2);
    (left, if pos * 2 + 1 < Width(|txids|, height - 1) then CalcHash(H, txids, height - 1, pos * 2 + 1) else left)
  }

  ghost predicate BindsAt(H: Pair, txids: seq<Hash>, height: nat, pos: nat)
    requires height > 0 && |txids| > 0 && pos < Width(|txids|, height)
  {
    forall a: Hash, b: Hash | H(a, b) == CalcHash(H, txids, height, pos) :: (a, b) == Halves(H, txids, height, pos)
  }

  /** No inner node of the tree has a second preimage.  Under a collision-free hash every tree is like that. */
  ghost predicate Binding(H: Pair, txids: seq<Hash>) {
    |txids| > 0 ==>
      forall height: nat, pos: nat | height > 0 && pos < Width(|txids|, height) :: BindsAt(H, txids, height, pos)
  }

  ghost predicate CollisionFree(H: Pair) {
    forall a: Hash, b: Hash, c: Hash, d: Hash | H(a, b) == H(c, d) :: a == c && b == d
  }

  lemma CollisionFreeBinds(H: Pair, txids: seq<Hash>)
    requires CollisionFree(H)
    ensures Binding(H, txids)
  {
    hide Width, CalcHash;
    if |txids| > 0 {
      forall height: nat, pos: nat | height > 0 && pos < Width(|txids|, height) ensures BindsAt(H, txids, height, pos) {
        var both := Halves(H, txids, height, pos);
      }
    }
  }

  /** Nodes of one level with the same hash start with the same txid. */
  lemma {:induction false} SameFirstLeaf(H: Pair, txids: seq<Hash>, height: nat, p: nat, q: nat)
    requires |txids| > 0 && Binding(H, txids) && p < Width(|txids|, height) && q < Width(|txids|, height)
    requires CalcHash(H, txids, height, p) == CalcHash(H, txids, height, q)
    ensures First(height, p) < |txids| && First(height, q) < |txids|
    ensures txids[First(height, p)] == txids[First(height, q)]
    decreases height
  {
    hide Width, Pow2;
    NodeHasLeaf(|txids|, height, p);
    NodeHasLeaf(|txids|, height, q);
    if height > 0 {
      Children(|txids|, height - 1, p);
      Children(|txids|, height - 1, q);
      var both := Halves(H, txids, height, q);
      assert BindsAt(H, txids, height, p);
      SameFirstLeaf(H, txids, height - 1, p * 2, q * 2);
    }
  }

  /** With distinct txids no two nodes of a level have the same hash. */
  lemma NodesDiffer(H: Pair, txids: seq<Hash>, height: nat, p: nat, q: nat)
    requires |txids| > 0 && Binding(H, txids) && Distinct(txids) && p < q < Width(|txids|, height)
    ensures CalcHash(H, txids, height, p) != CalcHash(H, txids, height, q)
  {
    hide Width, CalcHash, Binding, First;
    FirstMono(height, p, q);
    if CalcHash(H, txids, height, p) == CalcHash(H, txids, height, q) {
      SameFirstLeaf(H, txids, height, p, q);
    }
  }
}
