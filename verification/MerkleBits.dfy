/** Flag bits on the wire, eight to a byte, least significant first (src/merkleblock.h:88-105). */
module MerkleBits {
  import opened ByteBits

  /** The bytes hold the bits and then zeros. */
  ghost predicate Packs(bytes: seq<bv8>, bits: seq<bool>) {
    && |bytes| == (|bits| + 7) / 8
    && forall p: nat | p / 8 < |bytes| :: Bit(bytes[p / 8], p % 8) == (p < |bits| && bits[p])
  }

  method Pack(bits: seq<bool>) returns (bytes: seq<bv8>)
    ensures Packs(bytes, bits)
  {
    var buffer := new bv8[(|bits| + 7) / 8](_ => 0);
    forall p: nat | p / 8 < buffer.Length ensures !Bit(buffer[p / 8], p % 8) {
      NoBit(p % 8);
    }
    for q := 0 to |bits|
      invariant forall p: nat | p / 8 < buffer.Length :: Bit(buffer[p / 8], p % 8) == (p < q && bits[p])
    {
      ghost var before := buffer[..];
      buffer[q / 8] := buffer[q / 8] | (if bits[q] then (1 as bv8) << (q % 8) else 0);
      forall p: nat | p / 8 < buffer.Length ensures Bit(buffer[p / 8], p % 8) == (p < q + 1 && bits[p]) {
        if p / 8 == q / 8 {
          SetBit(before[q / 8], q % 8, p % 8);
          SetNothing(before[q / 8]);
        }
      }
    }
    bytes := buffer[..];
  }

  method Unpack(bytes: seq<bv8>) returns (bits: seq<bool>)
    ensures |bits| == 8 * |bytes| && forall p: nat | p / 8 < |bytes| :: bits[p] == Bit(bytes[p / 8], p % 8)
  {
    var buffer := new bool[8 * |bytes|];
    for q := 0 to buffer.Length
      invariant forall p: nat | p < q :: buffer[p] == Bit(bytes[p / 8], p % 8)
    {
      buffer[q] := Bit(bytes[q / 8], q % 8);
    }
    bits := buffer[..];
  }

  /** Unpacking what was packed gives the bits back with fewer than eight zeros after them. */
  lemma UnpackPacked(bits: seq<bool>, bytes: seq<bv8>, back: seq<bool>)
    requires Packs(bytes, bits)
    requires |back| == 8 * |bytes| && forall p: nat | p / 8 < |bytes| :: back[p] == Bit(bytes[p / 8], p % 8)
    ensures |bits| <= |back| < |bits| + 8 && back[..|bits|] == bits
    ensures forall p | |bits| <= p < |back| :: !back[p]
  {
    forall p: nat | p < |back| ensures back[p] == (p < |bits| && bits[p]) {
      assert p / 8 < |bytes|;
    }
  }
}
