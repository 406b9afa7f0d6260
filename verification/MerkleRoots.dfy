/**
 The root of a block's transactions computed level by level (src/consensus/merkle.cpp:45-66), and what its test for
 repeated transactions is worth.
 */
module MerkleRoots {
  import opened Powers
  import opened MerkleTree

  /** The nodes of a level of the tree, from left to right. */
  ghost function Level(H: Pair, txids: seq<Hash>, height: nat): (r: seq<Hash>)
    requires |txids| > 0
    ensures |r| == Width(|txids|, height)
  {
    seq(Width(|txids|, height), pos requires 0 <= pos < Width(|txids|, height) => CalcHash(H, txids, height, pos))
  }

  /** Two siblings of a level have the same hash. */
  ghost predicate TwinsAt(H: Pair, txids: seq<Hash>, height: nat, pos: nat) {
    && |txids| > 0 && pos * 2 + 1 < Width(|txids|, height)
    && CalcHash(H, txids, height, pos * 2) == CalcHash(H, txids, height, pos * 2 + 1)
  }

  ghost predicate Twins(H: Pair, txids: seq<Hash>, below: nat) {
    exists height: nat, pos: nat :: height < below && TwinsAt(H, txids, height, pos)
  }

  /** One level up: neighbours are hashed together, a last one without a neighbour with itself. */
  method HashPairs(H: Pair, hashes: seq<Hash>) returns (r: seq<Hash>)
    requires |hashes| % 2 == 0
    ensures |r| == |hashes| / 2 && forall i | 0 <= i < |r| :: r[i] == H(hashes[2 * i], hashes[2 * i + 1])
  {
    r := [];
    for i := 0 to |hashes| / 2
      invariant |r| == i && forall j | 0 <= j < i :: r[j] == H(hashes[2 * j], hashes[2 * j + 1])
    {
      r := r + [H(hashes[2 * i], hashes[2 * i + 1])];
    }
  }

  /** Whether two neighbours that are hashed together are the same. */
  method SameNeighbours(hashes: seq<Hash>) returns (same: bool)
    ensures same <==> exists i: nat :: i * 2 + 1 < |hashes| && hashes[i * 2] == hashes[i * 2 + 1]
  {
    same := false;
    var k := 0;
    while k * 2 + 1 < |hashes|
      invariant same <==> exists i: nat :: i < k && i * 2 + 1 < |hashes| && hashes[i * 2] == hashes[i * 2 + 1]
    {
      if hashes[k * 2] == hashes[k * 2 + 1] {
        same := true;
      }
      k := k + 1;
    }
  }

  method ComputeMerkleRoot(H: Pair, txids: seq<Hash>) returns (root: Hash, mutated: bool)
    ensures root == if txids == [] then 0 else Root(H, txids)
    ensures mutated <==> Twins(H, txids, Height(|txids|))
  {
    hide Width, Pow2, CalcHash;
    var hashes := txids;
    mutated := false;
    ghost var height: nat := 0;
    NoTwins(H, txids);
    if txids == [] {
      NoWidth(0);
      return 0, false;
    }
    WidthLeaves(|txids|);
    LeavesLevel(H, txids);
    while |hashes| > 1
      invariant hashes == Level(H, txids, height) && |hashes| >= 1
      invariant HeightFrom(|txids|, height) == Height(|txids|)
      invariant mutated <==> Twins(H, txids, height)
      decreases |hashes|
    {
      var same := SameNeighbours(hashes);
      if same {
        mutated := true;
      }
      TwinsNext(H, txids, height, hashes);
      ghost var level := hashes;
      if |hashes| % 2 == 1 {
        hashes := hashes + [hashes[|hashes| - 1]];
      }
      hashes := HashPairs(H, hashes);
      NextLevel(H, txids, height, level, hashes);
      height := height + 1;
    }
    RootIsOnly(|txids|);
    root := hashes[0];
  }

  lemma NoTwins(H: Pair, txids: seq<Hash>)
    ensures !Twins(H, txids, 0) && (txids == [] ==> forall below: nat :: !Twins(H, txids, below))
  {
  }

  lemma LeavesLevel(H: Pair, txids: seq<Hash>)
    requires |txids| > 0
    ensures Level(H, txids, 0) == txids
  {
    WidthLeaves(|txids|);
  }

  lemma TwinsNext(H: Pair, txids: seq<Hash>, height: nat, hashes: seq<Hash>)
    requires |txids| > 0 && hashes == Level(H, txids, height)
    ensures Twins(H, txids, height + 1) <==>
            Twins(H, txids, height) || exists i: nat :: i * 2 + 1 < |hashes| && hashes[i * 2] == hashes[i * 2 + 1]
  {
    hide Width, CalcHash;
    if Twins(H, txids, height) {
      var h: nat, p: nat :| h < height && TwinsAt(H, txids, h, p);
      assert h < height + 1;
    }
    if i: nat :| i * 2 + 1 < |hashes| && hashes[i * 2] == hashes[i * 2 + 1] {
      assert TwinsAt(H, txids, height, i);
    }
    if Twins(H, txids, height + 1) && !Twins(H, txids, height) {
      var h: nat, p: nat :| h < height + 1 && TwinsAt(H, txids, h, p);
      assert h == height;
      assert hashes[p * 2] == hashes[p * 2 + 1];
    }
  }

  lemma NextLevel(H: Pair, txids: seq<Hash>, height: nat, level: seq<Hash>, next: seq<Hash>)
    requires |txids| > 0 && level == Level(H, txids, height) && |level| > 1
    requires var all := if |level| % 2 == 1 then level + [level[|level| - 1]] else level;
             |next| == |all| / 2 && forall i | 0 <= i < |next| :: next[i] == H(all[2 * i], all[2 * i + 1])
    ensures next == Level(H, txids, height + 1) && |next| < |level|
    ensures HeightFrom(|txids|, height) == HeightFrom(|txids|, height + 1)
  {
    hide Width;
    WidthHalves(|txids|, height);
    forall i: nat | i < |next| ensures next[i] == CalcHash(H, txids, height + 1, i) {
      Children(|txids|, height, i);
    }
  }

  // ---- repeated transactions ----

  /** The nodes of two trees are the same, level by level from the root down. */
  lemma {:induction false} SameLevels(H: Pair, a: seq<Hash>, b: seq<Hash>, top: nat, height: nat)
    requires |a| > 0 && |b| > 0 && CollisionFree(H) && height <= top
    requires Level(H, a, top) == Level(H, b, top) && !Twins(H, a, top) && !Twins(H, b, top)
    ensures Level(H, a, height) == Level(H, b, height)
    decreases top - height
  {
    hide Width, CalcHash, Level;
    if height < top {
      SameLevels(H, a, b, top, height + 1);
      SameBelow(H, a, b, top, height);
    }
  }

  lemma SameBelow(H: Pair, a: seq<Hash>, b: seq<Hash>, top: nat, height: nat)
    requires |a| > 0 && |b| > 0 && CollisionFree(H) && height < top
    requires Level(H, a, height + 1) == Level(H, b, height + 1) && !Twins(H, a, top) && !Twins(H, b, top)
    ensures Level(H, a, height) == Level(H, b, height)
  {
    hide Width, CalcHash;
    WidthHalves(|a|, height);
    WidthHalves(|b|, height);
    var w := Width(|a|, height + 1);
    assert w == |Level(H, a, height + 1)| == |Level(H, b, height + 1)|;
    forall pos: nat | pos < w
      ensures pos * 2 < Width(|a|, height) && pos * 2 < Width(|b|, height)
      ensures CalcHash(H, a, height, pos * 2) == CalcHash(H, b, height, pos * 2)
      ensures pos * 2 + 1 < Width(|a|, height) <==> pos * 2 + 1 < Width(|b|, height)
      ensures pos * 2 + 1 < Width(|a|, height) ==>
                CalcHash(H, a, height, pos * 2 + 1) == CalcHash(H, b, height, pos * 2 + 1)
    {
      assert Level(H, a, height + 1)[pos] == Level(H, b, height + 1)[pos];
      SameChildren(H, a, b, height, pos);
      assert !TwinsAt(H, a, height, pos) && !TwinsAt(H, b, height, pos);
    }
    var last: nat := w - 1;
    assert CalcHash(H, a, height, last * 2) == CalcHash(H, b, height, last * 2);
    assert Width(|a|, height) == Width(|b|, height);
    forall p: nat | p < Width(|a|, height) ensures CalcHash(H, a, height, p) == CalcHash(H, b, height, p) {
      assert p / 2 < w && (p == p / 2 * 2 || p == p / 2 * 2 + 1);
    }
  }

  lemma SameChildren(H: Pair, a: seq<Hash>, b: seq<Hash>, height: nat, pos: nat)
    requires |a| > 0 && |b| > 0 && CollisionFree(H)
    requires pos < Width(|a|, height + 1) && pos < Width(|b|, height + 1)
    requires CalcHash(H, a, height + 1, pos) == CalcHash(H, b, height + 1, pos)
    ensures pos * 2 < Width(|a|, height) && pos * 2 < Width(|b|, height)
    ensures var l, m := CalcHash(H, a, height, pos * 2), CalcHash(H, b, height, pos * 2);
            && l == m
            && (if pos * 2 + 1 < Width(|a|, height) then CalcHash(H, a, height, pos * 2 + 1) else l) ==
               (if pos * 2 + 1 < Width(|b|, height) then CalcHash(H, b, height, pos * 2 + 1) else m)
  {
    hide Width;
    Children(|a|, height, pos);
    Children(|b|, height, pos);
  }

  /**
   With a collision-free hash, two lists of transactions of the same tree height that have the same root and that the
   test for repetitions lets pass are the same.
   */
  lemma SameRootSameList(H: Pair, a: seq<Hash>, b: seq<Hash>)
    requires |a| > 0 && |b| > 0 && CollisionFree(H) && Height(|a|) == Height(|b|)
    requires Root(H, a) == Root(H, b) && !Twins(H, a, Height(|a|)) && !Twins(H, b, Height(|b|))
    ensures a == b
  {
    hide Width, CalcHash, Height;
    RootIsOnly(|a|);
    RootIsOnly(|b|);
    var top := Height(|a|);
    assert Level(H, a, top) == Level(H, b, top);
    SameLevels(H, a, b, top, 0);
    LeavesLevel(H, a);
    LeavesLevel(H, b);
  }

  /** Without the test this is false: a list and the same list with its last transaction repeated have the same root. */
  lemma RepetitionSameRoot(H: Pair, x: Hash, y: Hash, z: Hash)
    ensures Root(H, [x, y, z]) == Root(H, [x, y, z, z]) && Height(3) == Height(4) == 2
    ensures Twins(H, [x, y, z, z], 2)
  {
    assert Pow2(0) == 1 && Pow2(1) == 2 && Pow2(2) == 4;
    assert CalcHash(H, [x, y, z], 1, 0) == H(x, y) && CalcHash(H, [x, y, z], 1, 1) == H(z, z);
    assert CalcHash(H, [x, y, z, z], 1, 0) == H(x, y) && CalcHash(H, [x, y, z, z], 1, 1) == H(z, z);
    assert TwinsAt(H, [x, y, z, z], 0, 1);
  }
}
