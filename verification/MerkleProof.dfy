/**
 What a partial Merkle tree is a proof of (src/merkleblock.cpp:78-163): bits and hashes are accepted exactly if they
 write down a pruned tree of the right shape without equal siblings, and then root and matches are read off that tree.
 */
module MerkleProof {
  import opened Powers
  import opened MerkleTree
  import opened MerklePartial

  /** A pruned tree: leaves, matched or not, branches cut off, and inner nodes with one child or two. */
  datatype Branch =
    | Leaf(matched: bool, hash: Hash)
    | Cut(hash: Hash)
    | One(left: Branch)
    | Two(left: Branch, right: Branch)

  /** The branch fits a node of a tree with n leaves. */
  ghost predicate Shaped(b: Branch, n: nat, height: nat, pos: nat) {
    match b
    case Leaf(_, _) => height == 0
    case Cut(_) => height > 0
    case One(left) => height > 0 && pos * 2 + 1 >= Width(n, height - 1) && Shaped(left, n, height - 1, pos * 2)
    case Two(left, right) =>
      && height > 0 && pos * 2 + 1 < Width(n, height - 1)
      && Shaped(left, n, height - 1, pos * 2) && Shaped(right, n, height - 1, pos * 2 + 1)
  }

  /** How it is written: a node before its children. */
  ghost function Written(b: Branch): Parts {
    match b
    case Leaf(matched, hash) => Parts([matched], [hash])
    case Cut(hash) => Parts([false], [hash])
    case One(left) => Parts([true], []).Then(Written(left))
    case Two(left, right) => Parts([true], []).Then(Written(left)).Then(Written(right))
  }

  ghost function RootOf(H: Pair, b: Branch): Hash {
    match b
    case Leaf(_, hash) => hash
    case Cut(hash) => hash
    case One(left) => H(RootOf(H, left), RootOf(H, left))
    case Two(left, right) => H(RootOf(H, left), RootOf(H, right))
  }

  /** No two siblings have the same hash. */
  ghost predicate Unlike(H: Pair, b: Branch) {
    match b
    case Leaf(_, _) => true
    case Cut(_) => true
    case One(left) => Unlike(H, left)
    case Two(left, right) => Unlike(H, left) && Unlike(H, right) && RootOf(H, left) != RootOf(H, right)
  }

  /** The matched leaves below the node at `pos`, from left to right. */
  ghost function Hashes(b: Branch): seq<Hash> {
    match b
    case Leaf(matched, hash) => if matched then [hash] else []
    case Cut(_) => []
    case One(left) => Hashes(left)
    case Two(left, right) => Hashes(left) + Hashes(right)
  }

  ghost function Places(b: Branch, pos: nat): seq<nat> {
    match b
    case Leaf(matched, _) => if matched then [pos] else []
    case Cut(_) => []
    case One(left) => Places(left, pos * 2)
    case Two(left, right) => Places(left, pos * 2) + Places(right, pos * 2 + 1)
  }

  /** The state after walking what is written for the branch. */
  ghost function After(H: Pair, b: Branch, pos: nat, from: Walk): Walk {
    Walk(RootOf(H, b), from.bitsUsed + |Written(b).bits|, from.hashUsed + |Written(b).hashes|,
         from.txids + Hashes(b), from.index + Places(b, pos), from.bad || !Unlike(H, b))
  }

  /** Walking what is written for a branch gives its root and matches, and finds equal siblings. */
  lemma {:induction false} WalkWritten(H: Pair, n: nat, all: Parts, b: Branch, height: nat, pos: nat, from: Walk)
    requires Shaped(b, n, height, pos) && Lies(all, from, Written(b))
    ensures Extract(H, n, all, height, pos, from) == After(H, b, pos, from)
    decreases b
  {
    hide Width, Lies, Extract;
    match b
    case Leaf(_, _) =>
      LiesOne(all, from, Written(b));
      ExtractStops(H, n, all, height, pos, from);
    case Cut(_) =>
      LiesOne(all, from, Written(b));
      ExtractStops(H, n, all, height, pos, from);
    case One(left) =>
      LiesFirst(all, from, Written(left));
      var next := from.(bitsUsed := from.bitsUsed + 1);
      WalkWritten(H, n, all, left, height - 1, pos * 2, next);
      ExtractDescends(H, n, all, height, pos, from);
    case Two(left, right) =>
      var next := from.(bitsUsed := from.bitsUsed + 1);
      var mid := After(H, left, pos * 2, next);
      LiesSplits(all, from, Parts([true], []).Then(Written(left)), Written(right), mid);
      LiesFirst(all, from, Written(left));
      WalkWritten(H, n, all, left, height - 1, pos * 2, next);
      WalkWritten(H, n, all, right, height - 1, pos * 2 + 1, mid);
      ExtractDescends(H, n, all, height, pos, from);
      AfterTwo(H, left, right, pos, from);
  }

  /** The state after both children, seen from their parent. */
  lemma AfterTwo(H: Pair, left: Branch, right: Branch, pos: nat, from: Walk)
    ensures var last := After(H, right, pos * 2 + 1, After(H, left, pos * 2, from.(bitsUsed := from.bitsUsed + 1)));
            After(H, Two(left, right), pos, from) ==
            last.(hash := RootOf(H, Two(left, right)), bad := last.bad || RootOf(H, left) == RootOf(H, right))
  {
    var b := Two(left, right);
    assert from.txids + Hashes(left) + Hashes(right) == from.txids + Hashes(b);
    assert from.index + Places(left, pos * 2) + Places(right, pos * 2 + 1) == from.index + Places(b, pos);
  }

  lemma LiesOne(all: Parts, from: Walk, one: Parts)
    requires Lies(all, from, one) && |one.bits| == 1 && |one.hashes| == 1
    ensures from.bitsUsed < |all.bits| && all.bits[from.bitsUsed] == one.bits[0]
    ensures from.hashUsed < |all.hashes| && all.hashes[from.hashUsed] == one.hashes[0]
  {
    assert all.bits[from.bitsUsed] == all.bits[from.bitsUsed..from.bitsUsed + 1][0];
    assert all.hashes[from.hashUsed] == all.hashes[from.hashUsed..from.hashUsed + 1][0];
  }

  /** A walk that meets nothing bad has walked what is written for some branch. */
  lemma {:induction false} WalkedIsWritten(H: Pair, n: nat, all: Parts, height: nat, pos: nat, from: Walk)
    returns (b: Branch)
    requires !Extract(H, n, all, height, pos, from).bad
    ensures Shaped(b, n, height, pos) && Lies(all, from, Written(b)) && Unlike(H, b) && !from.bad
    decreases height
  {
    hide Width, Lies, Extract;
    if Descends(all, height, from) {
      ExtractDescends(H, n, all, height, pos, from);
      var next := from.(bitsUsed := from.bitsUsed + 1);
      var mid := Extract(H, n, all, height - 1, pos * 2, next);
      if pos * 2 + 1 < Width(n, height - 1) {
        var right := WalkedIsWritten(H, n, all, height - 1, pos * 2 + 1, mid);
        var left := WalkedIsWritten(H, n, all, height - 1, pos * 2, next);
        b := Two(left, right);
        WalkWritten(H, n, all, left, height - 1, pos * 2, next);
        WalkWritten(H, n, all, right, height - 1, pos * 2 + 1, mid);
        LiesJoins(all, from, left, next);
        LiesBoth(all, from, Parts([true], []).Then(Written(left)), Written(right), mid);
      } else {
        var left := WalkedIsWritten(H, n, all, height - 1, pos * 2, next);
        b := One(left);
        LiesJoins(all, from, left, next);
      }
    } else {
      ExtractStops(H, n, all, height, pos, from);
      b := if height == 0 then Leaf(all.bits[from.bitsUsed], all.hashes[from.hashUsed])
      else Cut(all.hashes[from.hashUsed]);
      LiesHere(all, from, b);
    }
  }

  lemma LiesHere(all: Parts, from: Walk, b: Branch)
    requires from.bitsUsed < |all.bits| && from.hashUsed < |all.hashes|
    requires Written(b) == Parts([all.bits[from.bitsUsed]], [all.hashes[from.hashUsed]])
    ensures Lies(all, from, Written(b))
  {
  }

  lemma LiesJoins(all: Parts, from: Walk, left: Branch, next: Walk)
    requires from.bitsUsed < |all.bits| && all.bits[from.bitsUsed] && Lies(all, next, Written(left))
    requires next == from.(bitsUsed := from.bitsUsed + 1)
    ensures Lies(all, from, Parts([true], []).Then(Written(left)))
  {
    hide Written;
    assert all.bits[from.bitsUsed..from.bitsUsed + 1] == [true];
    LiesBoth(all, from, Parts([true], []), Written(left), next);
  }

  lemma LiesBoth(all: Parts, from: Walk, a: Parts, b: Parts, mid: Walk)
    requires Lies(all, from, a) && Lies(all, mid, b)
    requires mid.bitsUsed == from.bitsUsed + |a.bits| && mid.hashUsed == from.hashUsed + |a.hashes|
    ensures Lies(all, from, a.Then(b))
  {
    var i, j, k := from.bitsUsed, mid.bitsUsed, mid.bitsUsed + |b.bits|;
    assert all.bits[i..k] == all.bits[i..j] + all.bits[j..k];
    var p, q, r := from.hashUsed, mid.hashUsed, mid.hashUsed + |b.hashes|;
    assert all.hashes[p..r] == all.hashes[p..q] + all.hashes[q..r];
  }
}
