/**
 CPartialMerkleTree: building a partial Merkle tree, sending it and reading it (src/merkleblock.cpp, src/merkleblock.h).
 */
module MerkleBlock {
  import opened Collections
  import opened Powers
  import opened MerkleTree
  import opened MerklePartial
  import opened MerkleProof
  import opened MerkleSizes
  import opened ByteBits
  import opened MerkleBits

  /** What ExtractMatches returns and leaves behind. */
  datatype Outcome = Outcome(root: Hash, txids: seq<Hash>, index: seq<nat>, bad: bool)

  /** The tests made before the traversal. */
  predicate Plausible(n: nat, parts: Parts, maxTx: nat) {
    0 < n <= maxTx && |parts.hashes| <= n && |parts.bits| >= |parts.hashes|
  }

  /** The tests made after it: nothing bad, every hash used, and every bit used up to the padding of the last byte. */
  predicate UsedUp(parts: Parts, walk: Walk) {
    !walk.bad && (walk.bitsUsed + 7) / 8 == (|parts.bits| + 7) / 8 && walk.hashUsed == |parts.hashes|
  }

  function Outcomes(H: Pair, n: nat, parts: Parts, maxTx: nat, index: seq<nat>, bad: bool): Outcome {
    if !Plausible(n, parts, maxTx) then Outcome(0, [], index, bad) else
    var walk := Extract(H, n, parts, Height(n), 0, Walk(0, 0, 0, [], index, bad));
    Outcome(if UsedUp(parts, walk) then walk.hash else 0, walk.txids, walk.index, walk.bad)
  }

  /**
   Bits and hashes are those written for the branch, with the bits filled up to the end of their last byte at most.
   */
  ghost predicate Proves(b: Branch, n: nat, parts: Parts) {
    && Shaped(b, n, Height(n), 0) && Written(b).hashes == parts.hashes && Written(b).bits <= parts.bits
    && exists bytes: nat :: 8 * bytes - 8 < |Written(b).bits| && |parts.bits| <= 8 * bytes
  }

  /** What is accepted proves a branch without equal siblings, and the outcome is read off it. */
  lemma OutcomeProves(H: Pair, n: nat, parts: Parts, maxTx: nat, index: seq<nat>, bad: bool) returns (b: Branch)
    requires Outcomes(H, n, parts, maxTx, index, bad).root != 0
    ensures Proves(b, n, parts) && Unlike(H, b) && !bad && 0 < n <= maxTx && |parts.hashes| <= n
    ensures Outcomes(H, n, parts, maxTx, index, bad) == Outcome(RootOf(H, b), Hashes(b), index + Places(b, 0), false)
  {
    hide Extract, Height, Lies;
    var from := Walk(0, 0, 0, [], index, bad);
    b := WalkedIsWritten(H, n, parts, Height(n), 0, from);
    WalkWritten(H, n, parts, b, Height(n), 0, from);
    LiesWhole(parts, from, Written(b));
    var bytes: nat := (|parts.bits| + 7) / 8;
    assert 8 * bytes - 8 < |Written(b).bits| && |parts.bits| <= 8 * bytes;
  }

  lemma LiesWhole(parts: Parts, from: Walk, part: Parts)
    requires from.bitsUsed == 0 && from.hashUsed == 0
    ensures Lies(parts, from, part) <==> part.bits <= parts.bits && part.hashes <= parts.hashes
  {
  }

  /** What proves a branch is judged by its siblings alone. */
  lemma ProofDecides(H: Pair, n: nat, parts: Parts, maxTx: nat, index: seq<nat>, bad: bool, b: Branch)
    requires Proves(b, n, parts) && 0 < n <= maxTx && |parts.hashes| <= n
    ensures Outcomes(H, n, parts, maxTx, index, bad) ==
            Outcome(if bad || !Unlike(H, b) then 0 else RootOf(H, b), Hashes(b), index + Places(b, 0),
                    bad || !Unlike(H, b))
  {
    hide Extract, Height, Lies;
    var from := Walk(0, 0, 0, [], index, bad);
    LiesWhole(parts, from, Written(b));
    WalkWritten(H, n, parts, b, Height(n), 0, from);
    BitPerHash(b);
    var bytes: nat :| 8 * bytes - 8 < |Written(b).bits| && |parts.bits| <= 8 * bytes;
    assert (|parts.bits| + 7) / 8 == bytes == (|Written(b).bits| + 7) / 8;
  }

  lemma {:induction false} BitPerHash(b: Branch)
    ensures 0 < |Written(b).hashes| <= |Written(b).bits|
  {
    match b
    case Leaf(_, _) =>
    case Cut(_) =>
    case One(left) => BitPerHash(left);
    case Two(left, right) => BitPerHash(left); BitPerHash(right);
  }

  /** An accepted tree with a further hash or a further byte of bits is not accepted. */
  lemma NothingToSpare(H: Pair, n: nat, parts: Parts, maxTx: nat, more: Parts)
    requires Outcomes(H, n, parts, maxTx, [], false).root != 0
    requires parts.bits <= more.bits && parts.hashes <= more.hashes
    requires |more.hashes| > |parts.hashes| || |more.bits| >= |parts.bits| + 8
    ensures Outcomes(H, n, more, maxTx, [], false).root == 0
  {
    hide Extract, Height, Lies;
    var b := OutcomeProves(H, n, parts, maxTx, [], false);
    var from := Walk(0, 0, 0, [], [], false);
    LiesWhole(more, from, Written(b));
    WalkWritten(H, n, more, b, Height(n), 0, from);
  }

  /** The matched positions of a block, in order. */
  ghost function Matched(mask: seq<bool>): (r: seq<nat>)
    ensures forall p :: p in r <==> 0 <= p < |mask| && mask[p]
    ensures forall i | 0 <= i < |r| :: r[i] < |mask|
    ensures forall i, j | 0 <= i < j < |r| :: r[i] < r[j]
  {
    PickedExactly(mask, 0, |mask|);
    var r := Picked(mask, 0, |mask|);
    assert forall i | 0 <= i < |r| :: r[i] in r;
    r
  }

  lemma MatchedBelowRoot(mask: seq<bool>)
    requires |mask| > 0
    ensures Below(mask, Height(|mask|), 0) == Matched(mask)
  {
    hide Width, Pow2;
    var height := Height(|mask|);
    RootIsOnly(|mask|);
    NodeHasLeaf(|mask|, height, 1);
    FirstZero(height);
    PickedSplits(mask, 0, |mask|, First(height, 1));
    assert Picked(mask, |mask|, First(height, 1)) == [];
  }

  lemma {:induction false} FirstZero(height: nat)
    ensures First(height, 0) == 0
  {
    if height > 0 {
      FirstZero(height - 1);
    }
  }

  /**
   Soundness.  Bits and hashes from anywhere, with the true number of transactions, that extract to the true root of the
   block (which is not the null hash that stands for failure) report only txids that sit at the index reported for them,
   with strictly increasing indexes.
   */
  lemma ExtractedAreTrue(H: Pair, txids: seq<Hash>, parts: Parts, maxTx: nat, bad: bool)
    requires |txids| > 0 && Binding(H, txids) && Root(H, txids) != 0
    requires Outcomes(H, |txids|, parts, maxTx, [], bad).root == Root(H, txids)
    ensures var out := Outcomes(H, |txids|, parts, maxTx, [], bad);
            && |out.txids| == |out.index|
            && (forall i | 0 <= i < |out.index| :: out.index[i] < |txids| && out.txids[i] == txids[out.index[i]])
            && (forall i, j | 0 <= i < j < |out.index| :: out.index[i] < out.index[j])
  {
    hide Extract, CalcHash, Binding, Height;
    RootIsOnly(|txids|);
    var from := Walk(0, 0, 0, [], [], bad);
    ExtractSound(H, txids, parts, Height(|txids|), 0, from, Extract(H, |txids|, parts, Height(|txids|), 0, from));
  }

  /** Indexes the caller already had in its vector are kept in front and play no part. */
  lemma {:induction false} ExtractKeepsIndex(H: Pair, n: nat, parts: Parts, height: nat, pos: nat, from: Walk,
                                             had: seq<nat>)
    ensures var walk := Extract(H, n, parts, height, pos, from);
            Extract(H, n, parts, height, pos, from.(index := had + from.index)) == walk.(index := had + walk.index)
    decreases height
  {
    hide Extract, Width;
    if Descends(parts, height, from) {
      ExtractDescends(H, n, parts, height, pos, from);
      ExtractDescends(H, n, parts, height, pos, from.(index := had + from.index));
      var next := from.(bitsUsed := from.bitsUsed + 1);
      ExtractKeepsIndex(H, n, parts, height - 1, pos * 2, next, had);
      var left := Extract(H, n, parts, height - 1, pos * 2, next);
      ExtractKeepsIndex(H, n, parts, height - 1, pos * 2 + 1, left, had);
    } else {
      ExtractStops(H, n, parts, height, pos, from);
      ExtractStops(H, n, parts, height, pos, from.(index := had + from.index));
      assert had + (from.index + [pos]) == had + from.index + [pos];
    }
  }

  lemma OutcomeKeepsIndex(H: Pair, n: nat, parts: Parts, maxTx: nat, index: seq<nat>, bad: bool)
    ensures var out := Outcomes(H, n, parts, maxTx, [], bad);
            Outcomes(H, n, parts, maxTx, index, bad) == out.(index := index + out.index)
  {
    hide Extract, Height;
    assert index + [] == index;
    ExtractKeepsIndex(H, n, parts, Height(n), 0, Walk(0, 0, 0, [], [], bad), index);
  }

  /**
   Completeness.  What is built for distinct txids and any mask, possibly with padding bits behind it, extracts to the
   root and exactly the matched txids and positions.
   */
  lemma BuiltExtracts(H: Pair, txids: seq<Hash>, mask: seq<bool>, sent: Parts, maxTx: nat)
    requires 0 < |txids| == |mask| <= maxTx && Binding(H, txids) && Distinct(txids)
    requires Width(|txids|, Height(|txids|)) == 1
    requires var parts := Build(H, txids, mask, Height(|txids|), 0);
             sent.hashes == parts.hashes && |parts.bits| <= |sent.bits| && sent.bits[..|parts.bits|] == parts.bits
             && (|sent.bits| + 7) / 8 == (|parts.bits| + 7) / 8
    ensures Outcomes(H, |txids|, sent, maxTx, [], false) ==
            Outcome(Root(H, txids), At(txids, Matched(mask)), Matched(mask), false)
  {
    hide Extract, CalcHash, Binding, Distinct, Height, Build, Width, Pow2, Below, At;
    var from := Walk(0, 0, 0, [], [], false);
    BuildSizes(H, txids, mask, Height(|txids|), 0);
    FirstZero(Height(|txids|));
    ExtractComplete(H, txids, mask, sent, Height(|txids|), 0, from);
    MatchedBelowRoot(mask);
  }

  class PartialMerkleTree {
    var nTransactions: nat
    var vBits: seq<bool>
    var vHash: seq<Hash>
    var fBad: bool

    function Stored(): Parts
      reads this
    {
      Parts(vBits, vHash)
    }

    /** The empty tree, from which nothing extracts. */
    constructor Empty()
      ensures nTransactions == 0 && fBad && vBits == [] && vHash == []
      ensures forall H: Pair, maxTx: nat :: Outcomes(H, nTransactions, Stored(), maxTx, [], fBad).root == 0
    {
      nTransactions, fBad, vBits, vHash := 0, true, [], [];
    }

    /** The partial tree of a block's txids for a mask. */
    constructor (H: Pair, txids: seq<Hash>, mask: seq<bool>)
      requires |txids| == |mask| > 0
      ensures nTransactions == |txids| && !fBad
      ensures Width(|txids|, Height(|txids|)) == 1 && Stored() == Build(H, txids, mask, Height(|txids|), 0)
    {
      nTransactions, fBad := |txids|, false;
      vBits, vHash := [], [];
      new;
      var height := FindHeight();
      RootIsOnly(|txids|);
      TraverseAndBuild(H, txids, mask, height, 0);
    }

    method FindHeight() returns (height: nat)
      ensures height == Height(nTransactions)
    {
      height := 0;
      while Width(nTransactions, height) > 1
        invariant HeightFrom(nTransactions, height) == Height(nTransactions)
        decreases Width(nTransactions, height)
      {
        Shrinks(nTransactions, height);
        height := height + 1;
      }
    }

    method TraverseAndBuild(H: Pair, txids: seq<Hash>, mask: seq<bool>, height: nat, pos: nat)
      requires |txids| == |mask| == nTransactions > 0 && pos < Width(|txids|, height)
      modifies this`vBits, this`vHash
      ensures Stored() == old(Stored()).Then(Build(H, txids, mask, height, pos))
      decreases height
    {
      hide Width, Pow2, CalcHash, Above, Build;
      var above := AnyMatch(mask, height, pos);
      vBits := vBits + [above];
      if height == 0 || !above {
        BuildStored(H, txids, mask, height, pos);
        vHash := vHash + [CalcHash(H, txids, height, pos)];
      } else {
        BuildDescends(H, txids, mask, height, pos);
        TraverseAndBuild(H, txids, mask, height - 1, pos * 2);
        if pos * 2 + 1 < Width(nTransactions, height - 1) {
          TraverseAndBuild(H, txids, mask, height - 1, pos * 2 + 1);
        }
      }
    }

    /** The loop that decides whether a node is the parent of a match. */
    method AnyMatch(mask: seq<bool>, height: nat, pos: nat) returns (above: bool)
      requires nTransactions == |mask|
      ensures above == Above(mask, height, pos)
    {
      above := false;
      var p := pos * Pow2(height);
      while p < (pos + 1) * Pow2(height) && p < nTransactions
        invariant First(height, pos) <= p
        invariant above <==> exists q ::
                               First(height, pos) <= q < p && q < First(height, pos + 1) && q < |mask| && mask[q]
      {
        above := above || mask[p];
        p := p + 1;
      }
    }

    method TraverseAndExtract(H: Pair, height: nat, pos: nat, bitsUsed: nat, hashUsed: nat, match_: seq<Hash>,
                              index: seq<nat>)
      returns (hash: Hash, bitsUsed': nat, hashUsed': nat, match': seq<Hash>, index': seq<nat>)
      modifies this`fBad
      ensures Walk(hash, bitsUsed', hashUsed', match', index', fBad) ==
              old(Extract(H, nTransactions, Stored(), height, pos, Walk(0, bitsUsed, hashUsed, match_, index, fBad)))
      decreases height
    {
      hide Width, Extract;
      ghost var from := Walk(0, bitsUsed, hashUsed, match_, index, fBad);
      if !Descends(Stored(), height, from) {
        ExtractStops(H, nTransactions, Stored(), height, pos, from);
      }
      bitsUsed', hashUsed', match', index' := bitsUsed, hashUsed, match_, index;
      if bitsUsed >= |vBits| {
        fBad := true;
        return 0, bitsUsed', hashUsed', match', index';
      }
      var above := vBits[bitsUsed];
      bitsUsed' := bitsUsed + 1;
      if height == 0 || !above {
        if hashUsed >= |vHash| {
          fBad := true;
          return 0, bitsUsed', hashUsed', match', index';
        }
        hash := vHash[hashUsed];
        hashUsed' := hashUsed + 1;
        if height == 0 && above {
          match', index' := match' + [hash], index' + [pos];
        }
      } else {
        ExtractDescends(H, nTransactions, Stored(), height, pos, from);
        var left, right;
        left, bitsUsed', hashUsed', match', index' :=
          TraverseAndExtract(H, height - 1, pos * 2, bitsUsed', hashUsed', match', index');
        if pos * 2 + 1 < Width(nTransactions, height - 1) {
          ExtractIgnoresHash(H, nTransactions, Stored(), height - 1, pos * 2 + 1,
                             Walk(left, bitsUsed', hashUsed', match', index', fBad));
          right, bitsUsed', hashUsed', match', index' :=
            TraverseAndExtract(H, height - 1, pos * 2 + 1, bitsUsed', hashUsed', match', index');
          if right == left {
            fBad := true;
          }
        } else {
          right := left;
        }
        hash := H(left, right);
      }
    }

    /** The matched txids and indexes; 0 in place of the root on failure.  `index` is what the caller's vector held. */
    method ExtractMatches(H: Pair, maxTx: nat, index: seq<nat>)
      returns (root: Hash, match_: seq<Hash>, index': seq<nat>)
      modifies this`fBad
      ensures Outcome(root, match_, index', fBad) == old(Outcomes(H, nTransactions, Stored(), maxTx, index, fBad))
      ensures root != 0 ==>
                && !fBad && 0 < nTransactions <= maxTx && |vHash| <= nTransactions && |vHash| <= |vBits|
                && exists b :: && Proves(b, nTransactions, Stored()) && Unlike(H, b) && root == RootOf(H, b)
                               && match_ == Hashes(b) && index' == index + Places(b, 0)
      ensures forall b | Proves(b, nTransactions, Stored()) && 0 < nTransactions <= maxTx && |vHash| <= nTransactions ::
                && root == (if old(fBad) || !Unlike(H, b) then 0 else RootOf(H, b))
                && match_ == Hashes(b) && index' == index + Places(b, 0)
    {
      hide Proves, Unlike, RootOf, Hashes, Places, Extract;
      ProofsJudged(H, maxTx, index);
      match_, index' := [], index;
      if nTransactions == 0 {
        return 0, match_, index';
      }
      if nTransactions > maxTx {
        return 0, match_, index';
      }
      if |vHash| > nTransactions {
        return 0, match_, index';
      }
      if |vBits| < |vHash| {
        return 0, match_, index';
      }
      var height := FindHeight();
      var bitsUsed, hashUsed;
      root, bitsUsed, hashUsed, match_, index' := TraverseAndExtract(H, height, 0, 0, 0, match_, index');
      if fBad || (bitsUsed + 7) / 8 != (|vBits| + 7) / 8 || hashUsed != |vHash| {
        return 0, match_, index';
      }
    }

    lemma ProofsJudged(H: Pair, maxTx: nat, index: seq<nat>)
      ensures var out := Outcomes(H, nTransactions, Stored(), maxTx, index, fBad);
              && (out.root != 0 ==>
                    && !out.bad && 0 < nTransactions <= maxTx && |vHash| <= nTransactions && |vHash| <= |vBits|
                    && exists b :: && Proves(b, nTransactions, Stored()) && Unlike(H, b) && out.root == RootOf(H, b)
                                   && out.txids == Hashes(b) && out.index == index + Places(b, 0))
              && forall b | Proves(b, nTransactions, Stored()) && 0 < nTransactions <= maxTx
                            && |vHash| <= nTransactions ::
                   && out.root == (if fBad || !Unlike(H, b) then 0 else RootOf(H, b))
                   && out.txids == Hashes(b) && out.index == index + Places(b, 0)
    {
      hide Proves, Unlike, RootOf, Hashes, Places, Extract;
      if Outcomes(H, nTransactions, Stored(), maxTx, index, fBad).root != 0 {
        var b := OutcomeProves(H, nTransactions, Stored(), maxTx, index, fBad);
      }
      forall b | Proves(b, nTransactions, Stored()) && 0 < nTransactions <= maxTx && |vHash| <= nTransactions
        ensures Outcomes(H, nTransactions, Stored(), maxTx, index, fBad) ==
                Outcome(if fBad || !Unlike(H, b) then 0 else RootOf(H, b), Hashes(b), index + Places(b, 0),
                        fBad || !Unlike(H, b))
      {
        ProofDecides(H, nTransactions, Stored(), maxTx, index, fBad, b);
      }
    }

    /** Writing the tree: the count, the hashes and the packed bits. */
    method Write() returns (n: nat, hashes: seq<Hash>, bytes: seq<bv8>)
      ensures n == nTransactions && hashes == vHash && Packs(bytes, vBits)
    {
      bytes := Pack(vBits);
      return nTransactions, vHash, bytes;
    }

    /** Reading a tree from arbitrary data. */
    method Read(n: nat, hashes: seq<Hash>, bytes: seq<bv8>)
      modifies this
      ensures nTransactions == n && vHash == hashes && !fBad
      ensures |vBits| == 8 * |bytes| && forall p: nat | p / 8 < |bytes| :: vBits[p] == Bit(bytes[p / 8], p % 8)
    {
      nTransactions, vHash := n, hashes;
      vBits := Unpack(bytes);
      fBad := false;
    }
  }

  /** A filtered block sent to a peer: the peer reads the root and exactly the matched txids and positions. */
  method Relay(H: Pair, txids: seq<Hash>, mask: seq<bool>, maxTx: nat, peer: PartialMerkleTree)
    returns (root: Hash, match_: seq<Hash>, index: seq<nat>)
    requires 0 < |txids| == |mask| <= maxTx && Binding(H, txids) && Distinct(txids)
    modifies peer
    ensures root == Root(H, txids) && index == Matched(mask) && match_ == At(txids, Matched(mask))
    ensures |peer.vHash| <= |txids| && |peer.vHash| <= 1 + |Matched(mask)| * Height(|txids|)
  {
    hide Extract, CalcHash, Binding, Distinct, Height, Build, Width, Pow2, Below, At, Outcomes, Bit;
    var tree := new PartialMerkleTree(H, txids, mask);
    var n, hashes, bytes := tree.Write();
    peer.Read(n, hashes, bytes);
    UnpackPacked(tree.vBits, bytes, peer.vBits);
    BuildSizes(H, txids, mask, Height(|txids|), 0);
    FirstZero(Height(|txids|));
    MatchedBelowRoot(mask);
    BuiltExtracts(H, txids, mask, peer.Stored(), maxTx);
    root, match_, index := peer.ExtractMatches(H, maxTx, []);
  }
}
