/** Single bits of a byte, as packed flags use them (src/merkleblock.h:88-105, src/cuckoocache.h:42-117). */
module ByteBits {
  predicate Bit(byte: bv8, i: nat)
    requires i < 8
  {
    byte & ((1 as bv8) << i) != 0
  }

  lemma SetBit(byte: bv8, i: nat, j: nat)
    requires i < 8 && j < 8
    ensures Bit(byte | ((1 as bv8) << i), j) == (i == j || Bit(byte, j))
  {
  }

  lemma NoBit(i: nat)
    requires i < 8
    ensures !Bit(0, i)
  {
  }

  lemma SetNothing(byte: bv8)
    ensures byte | 0 == byte
  {
  }

  lemma ClearBit(byte: bv8, i: nat, j: nat)
    requires i < 8 && j < 8
    ensures Bit(byte & !((1 as bv8) << i), j) == (i != j && Bit(byte, j))
  {
  }

  lemma EveryBit(i: nat)
    requires i < 8
    ensures Bit(0xFF, i)
  {
  }
}
