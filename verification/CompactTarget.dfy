/**
 Compact targets and block proof (src/arith_uint256.cpp:229-270, src/chain.cpp:121-134): a size byte, a sign bit and a
 23-bit mantissa for a 256-bit number.
 */
module CompactTarget {
  import opened Wrappers
  import opened Powers
  import opened LimbValue
  import opened LimbShift
  import opened BaseUint

  const WIDTH: nat := 8

  function Bytes(n: nat): (r: nat)
    ensures r >= 1
  {
    Pow2(8 * n)
  }

  lemma BytesNext(n: nat)
    ensures Bytes(n + 1) == 256 * Bytes(n)
  {
    Pow2Add(8, 8 * n);
    assert Pow2(8) == 256;
  }

  lemma BytesAdd(a: nat, b: nat)
    ensures Bytes(a + b) == Bytes(a) * Bytes(b)
  {
    Pow2Add(8 * a, 8 * b);
  }

  lemma BytesFew()
    ensures Bytes(0) == 1 && Bytes(1) == 256 && Bytes(2) == 65536 && Bytes(3) == 16777216
  {
    assert Pow2(0) == 1;
    BytesNext(0);
    BytesNext(1);
    BytesNext(2);
  }

  // ---- the fields of a compact number ----

  function SizeOf(c: nat): nat { c / 0x1000000 }
  function WordOf(c: nat): nat { c % 0x800000 }
  function SignOf(c: nat): bool { c / 0x800000 % 2 == 1 }

  /** The mantissa once sizes below three have cut it. */
  function CutWord(c: nat): nat { if SizeOf(c) <= 3 then Cut(WordOf(c), 3 - SizeOf(c)) else WordOf(c) }

  function Cut(word: nat, bytes: nat): nat { Quotient(word, Bytes(bytes)) }

  /** The number a compact form stands for, of any size. */
  function Meaning(c: nat): nat { if SizeOf(c) <= 3 then CutWord(c) else WordOf(c) * Bytes(SizeOf(c) - 3) }

  /** The mantissa, of up to three bytes, at its size. */
  lemma OverflowIs(word: nat, size: nat)
    requires 0 < word < 0x800000 && size > 3
    ensures word * Bytes(size - 3) >= Bytes(32) <==>
            size > 34 || (word > 0xff && size > 33) || (word > 0xffff && size > 32)
  {
    hide Bytes;
    var n := if word > 0xffff then 2 else if word > 0xff then 1 else 0;
    BytesFew();
    assert Bytes(n) <= word < Bytes(n + 1);
    BytesAdd(n, size - 3);
    BytesAdd(n + 1, size - 3);
    if size - 3 + n >= 32 {
      BytesMono(32, size - 3 + n);
      Scale(Bytes(n), word, Bytes(size - 3));
    } else {
      BytesMono(size - 3 + n + 1, 32);
      LessTimes(word, Bytes(n + 1), Bytes(size - 3));
    }
  }

  lemma BytesMono(a: nat, b: nat)
    requires a <= b
    ensures Bytes(a) <= Bytes(b)
  {
    Pow2Mono(8 * a, 8 * b);
  }

  lemma LessTimes(a: nat, b: nat, w: nat)
    requires a < b && w > 0
    ensures a * w < b * w
  {
    Scale(a + 1, b, w);
    assert (a + 1) * w == a * w + w;
  }

  lemma WidthBytes()
    ensures Weight(WIDTH) == Bytes(32)
  {
    WeightPow2(WIDTH);
  }

  /**
   SetCompact: overflow is flagged exactly if the scaled mantissa reaches 2^256; without it the number is exactly the
   scaled mantissa, cut off below size three.
   */
  method SetCompact(target: BaseUint, c: nat) returns (negative: bool, overflow: bool)
    requires target.Valid() && target.pn.Length == WIDTH && c < BASE
    modifies target.pn
    ensures target.Valid() && target.Val() == Meaning(c) % Bytes(32)
    ensures overflow <==> Meaning(c) >= Bytes(32)
    ensures negative <==> CutWord(c) != 0 && SignOf(c)
  {
    hide Pow2, Bytes, Weight, Part, Cut;
    var size := c / 0x1000000;
    var word := c % 0x800000;
    WidthBytes();
    BytesFew();
    BytesMono(3, 32);
    if size <= 3 {
      CutBound(c);
      word := Cut(word, 3 - size);
      var small := new BaseUint(WIDTH, word);
      target.Assign(small);
      DivMod(word, 0, word, Bytes(32));
    } else {
      var small := new BaseUint(WIDTH, word);
      target.Assign(small);
      target.ShiftLeft(8 * (size - 3));
      BytesIs(size - 3);
      if word != 0 {
        OverflowIs(word, size);
      }
    }
    negative := word != 0 && c / 0x800000 % 2 == 1;
    overflow := word != 0 && (size > 34 || (word > 0xff && size > 33) || (word > 0xffff && size > 32));
  }

  lemma BytesIs(n: nat)
    ensures Bytes(n) == Pow2(8 * n)
  {
  }

  lemma CutBound(c: nat)
    requires SizeOf(c) <= 3
    ensures CutWord(c) <= WordOf(c) < 0x800000
  {
    hide Bytes;
    QuotientLess(WordOf(c), Bytes(3 - SizeOf(c)));
  }

  lemma QuotientLess(x: nat, p: nat)
    requires p > 0
    ensures x / p <= x
  {
    assert x / p * p <= x;
    Scale(1, p, x / p);
  }

  // ---- encoding ----

  /** The number of bytes a number takes. */
  function SizeIn(x: nat): (n: nat)
    ensures x == 0 <==> n == 0
  {
    if x == 0 then 0 else 1 + SizeIn(x / 256)
  }

  lemma {:induction false} SizeBounds(x: nat)
    ensures x < Bytes(SizeIn(x)) && (x > 0 ==> Bytes(SizeIn(x) - 1) <= x)
  {
    if x > 0 {
      SizeBounds(x / 256);
      BytesNext(SizeIn(x / 256));
      if x / 256 > 0 {
        BytesNext(SizeIn(x / 256) - 1);
      } else {
        BytesFew();
      }
    } else {
      BytesFew();
    }
  }

  lemma SizeUnique(x: nat, n: nat)
    requires x > 0 && n > 0 && Bytes(n - 1) <= x < Bytes(n)
    ensures SizeIn(x) == n
  {
    SizeBounds(x);
    var k := SizeIn(x);
    if k < n {
      BytesMono(k, n - 1);
    } else if k > n {
      BytesMono(n, k - 1);
    }
  }

  /** The top three bytes of a number of n bytes. */
  function Mantissa(x: nat, n: nat): nat { if n <= 3 then x * Bytes(3 - n) else Quotient(x, Bytes(n - 3)) }

  /** Mantissa and size once the sign bit has been kept free. */
  function Word(x: nat): nat { var m := Mantissa(x, SizeIn(x)); if m >= 0x800000 then m / 256 else m }
  function Size(x: nat): nat { if Mantissa(x, SizeIn(x)) >= 0x800000 then SizeIn(x) + 1 else SizeIn(x) }

  function Encoded(x: nat, negative: bool): nat {
    Size(x) * 0x1000000 + Word(x) + if negative && Word(x) != 0 then 0x800000 else 0
  }

  lemma MantissaBound(x: nat)
    ensures var m := Mantissa(x, SizeIn(x)); m < 0x1000000 && (SizeIn(x) > 3 ==> m >= 0x10000)
  {
    hide Bytes;
    var n := SizeIn(x);
    SizeBounds(x);
    BytesFew();
    if n <= 3 {
      BytesAdd(n, 3 - n);
      LessTimes(x, Bytes(n), Bytes(3 - n));
    } else {
      BytesAdd(3, n - 3);
      LessQuotient(x, Bytes(n - 3), Bytes(3));
      BytesAdd(2, n - 3);
      AtLeast(x, Bytes(n - 3), Bytes(2));
    }
  }

  lemma AtLeast(x: nat, d: nat, k: nat)
    requires d > 0 && k * d <= x
    ensures x / d >= k
  {
    var q := x / d;
    assert x < q * d + d == (q + 1) * d;
    if q < k {
      Scale(q + 1, k, d);
    }
  }

  lemma EncodedFields(x: nat, negative: bool)
    ensures var c := Encoded(x, negative);
            && SizeOf(c) == Size(x) && WordOf(c) == Word(x) < 0x800000 && (SignOf(c) <==> negative && Word(x) != 0)
  {
    hide Mantissa, SizeIn;
    MantissaBound(x);
  }

  /** How much of a number its compact form keeps: the multiple of this unit below it. */
  function Unit(x: nat): nat { if Size(x) <= 3 then 1 else Bytes(Size(x) - 3) }

  /**
   The compact form stands for the number cut off to its unit, of which the number holds at least 2^15 unless it is one.
   */
  lemma Kept(x: nat, negative: bool)
    ensures Meaning(Encoded(x, negative)) == Quotient(x, Unit(x)) * Unit(x)
    ensures Unit(x) > 1 ==> Quotient(x, Unit(x)) == Word(x) >= 0x8000
  {
    hide Bytes, SizeIn, Encoded;
    EncodedFields(x, negative);
    if SizeIn(x) > 3 {
      KeptLarge(x);
    } else {
      KeptUpToThree(x);
    }
  }

  lemma KeptLarge(x: nat)
    requires SizeIn(x) > 3
    ensures Word(x) == Quotient(x, Unit(x)) && Word(x) >= 0x8000 && Size(x) > 3
  {
    hide Bytes, SizeIn;
    var n := SizeIn(x);
    var m := Mantissa(x, n);
    MantissaBound(x);
    if m >= 0x800000 {
      BytesNext(n - 3);
      TwoDivisions(x, Bytes(n - 3), 256, m, x % Bytes(n - 3));
      assert Bytes(n - 3) * 256 == Bytes(n - 2);
    }
  }

  lemma KeptUpToThree(x: nat)
    requires SizeIn(x) <= 3
    ensures Size(x) <= 3 ==> Cut(Word(x), 3 - Size(x)) == x
    ensures Size(x) > 3 ==> Unit(x) == 256 && Size(x) == 4 && Word(x) == x / 256 && Word(x) >= 0x8000 && Bytes(1) == 256
  {
    hide Bytes, SizeIn;
    var n := SizeIn(x);
    var m := Mantissa(x, n);
    BytesFew();
    if n < 3 {
      BytesNext(2 - n);
      KeptSmall(x, n, m);
    }
  }

  lemma KeptSmall(x: nat, n: nat, m: nat)
    requires n < 3 && m == x * Bytes(3 - n) && Bytes(3 - n) == 256 * Bytes(2 - n)
    ensures Quotient(m, Bytes(3 - n)) == x && Quotient(m / 256, Bytes(2 - n)) == x
  {
    hide Bytes;
    var p := Bytes(2 - n);
    DivMod(m, x, 0, Bytes(3 - n));
    assert m == (x * p) * 256;
    DivMod(m, x * p, 0, 256);
    DivMod(x * p, x, 0, p);
  }

  /** Setting what was gotten never exceeds the number and loses at most its 2^15th part. */
  lemma GetThenSet(x: nat, negative: bool)
    ensures Meaning(Encoded(x, negative)) <= x && x - Meaning(Encoded(x, negative)) <= x / 0x8000
  {
    hide Unit, Word, Encoded, Meaning;
    Kept(x, negative);
    UnitPositive(x);
    var d := Unit(x);
    assert x == x / d * d + x % d;
    if d > 1 {
      Scale(0x8000, x / d, d);
      AtLeast(x, 0x8000, d);
    }
  }

  lemma UnitPositive(x: nat)
    ensures Unit(x) >= 1
  {
  }

  /** What was set from a compact form gotten before has the same compact form. */
  lemma SetThenGet(x: nat, negative: bool)
    ensures Encoded(Meaning(Encoded(x, negative)), negative) == Encoded(x, negative)
  {
    hide Meaning, Encoded;
    Kept(x, negative);
    UnitPositive(x);
    var d := Unit(x);
    var y := Quotient(x, d) * d;
    if d == 1 {
      assert y == x;
    } else {
      SameForm(x, y);
      SameEncoded(x, y, negative);
    }
  }

  lemma SameEncoded(x: nat, y: nat, negative: bool)
    requires Word(x) == Word(y) && Size(x) == Size(y)
    ensures Encoded(x, negative) == Encoded(y, negative)
  {
  }

  lemma SameSize(x: nat, y: nat)
    requires Unit(x) > 1 && y == Quotient(x, Unit(x)) * Unit(x)
    ensures SizeIn(y) == SizeIn(x) >= 3
  {
    hide Bytes, SizeIn, Mantissa;
    var n, d := SizeIn(x), Unit(x);
    var k := Size(x) - 3;
    SizeBounds(x);
    assert x == x / d * d + x % d;
    BytesAdd(n - 1 - k, k);
    AtLeast(x, d, Bytes(n - 1 - k));
    Scale(Bytes(n - 1 - k), x / d, d);
    SizeUnique(y, n);
  }

  /** The cut number has the same size and, with the sign bit kept free, the same mantissa. */
  lemma SameForm(x: nat, y: nat)
    requires Unit(x) > 1 && y == Quotient(x, Unit(x)) * Unit(x) && Quotient(x, Unit(x)) == Word(x) >= 0x8000
    ensures Word(y) == Word(x) && Size(y) == Size(x)
  {
    hide Bytes, SizeIn;
    var n, d := SizeIn(x), Unit(x);
    var m := Mantissa(x, n);
    SameSize(x, y);
    BytesFew();
    if n == 3 {
      assert m == x && d == 256;
      DivMod(y, x / 256, 0, 256);
    } else if m < 0x800000 {
      DivMod(y, m, 0, d);
    } else {
      BytesNext(n - 3);
      var p := Bytes(n - 3);
      Assoc(Word(x), p);
      DivMod(y, Word(x) * 256, 0, p);
    }
  }

  lemma Assoc(w: nat, p: nat)
    ensures w * (256 * p) == w * 256 * p
  {
  }

  /** The size in bytes from the size in bits. */
  lemma SizeFromBits(x: nat, bits: nat)
    requires if x == 0 then bits == 0 else bits > 0 && Pow2(bits - 1) <= x < Pow2(bits)
    ensures SizeIn(x) == (bits + 7) / 8
  {
    hide Pow2, SizeIn;
    if x > 0 {
      var n := (bits + 7) / 8;
      Pow2Mono(bits, 8 * n);
      Pow2Mono(8 * (n - 1), bits - 1);
      SizeUnique(x, n);
    }
  }

  /** GetCompact; both its asserts hold. */
  method GetCompact(x: BaseUint, negative: bool) returns (c: nat)
    requires x.Valid() && x.pn.Length == WIDTH
    ensures c == Encoded(x.Val(), negative) < BASE
  {
    hide Mantissa, SizeIn, Or, Part;
    MantissaBound(x.Val());
    var size;
    c, size := TopBytes(x);
    if c / 0x800000 % 2 == 1 {
      c, size := c / 256, size + 1;
    }
    assert c < 0x800000 && size < 256;
    c := Join(size, c, negative);
  }

  /** The number's size in bytes and its top three bytes. */
  method TopBytes(x: BaseUint) returns (c: nat, size: nat)
    requires x.Valid() && x.pn.Length == WIDTH
    ensures size == SizeIn(x.Val()) <= 32 && c == Mantissa(x.Val(), size)
  {
    hide Pow2, Bytes, Weight, Part, SizeIn, Quotient;
    ghost var v := x.Val();
    var bits := x.Bits();
    SizeFromBits(v, bits);
    size := (bits + 7) / 8;
    BytesFew();
    SizeBounds(v);
    if size <= 3 {
      BytesMono(size, 3);
      var low := x.GetLow64();
      DivMod(v, 0, v, BASE * BASE);
      c := low * Bytes(3 - size);
    } else {
      MantissaBound(v);
      var bn := new BaseUint.Copy(x);
      bn.ShiftRight(8 * (size - 3));
      BytesIs(size - 3);
      QuotientIs(v, Bytes(size - 3));
      c := bn.GetLow64();
      DivMod(bn.Val(), 0, bn.Val(), BASE * BASE);
    }
  }

  /** Size, sign and mantissa put together. */
  method Join(size: nat, word: nat, negative: bool) returns (c: nat)
    requires word < 0x800000 && size < 256
    ensures c == size * 0x1000000 + word + (if negative && word != 0 then 0x800000 else 0) < BASE
  {
    hide Or;
    JoinFields(size, word);
    c := Or(word, size * 0x1000000);
    if negative && c % 0x800000 != 0 {
      AddSign(size, word);
      c := Or(c, 0x800000);
    }
  }

  lemma QuotientIs(a: nat, b: nat)
    requires b > 0
    ensures Quotient(a, b) == a / b
  {
  }

  lemma JoinFields(size: nat, word: nat)
    requires word < 0x800000
    ensures Or(word, size * 0x1000000) == size * 0x1000000 + word
  {
    hide Or;
    BytesFew();
    BytesIs(3);
    OrDisjoint(size, word, 24);
    OrComm(word, size * 0x1000000);
  }

  lemma AddSign(size: nat, word: nat)
    requires word < 0x800000
    ensures Or(size * 0x1000000 + word, 0x800000) == size * 0x1000000 + word + 0x800000
  {
    hide Or;
    assert Pow2(23) == 0x800000 by {
      BytesFew();
      BytesIs(2);
      Pow2Add(16, 7);
      assert Pow2(7) == 128;
    }
    OrBit(size * 0x1000000 + word, 23);
  }

  lemma {:induction false} OrBit(x: nat, s: nat)
    requires x / Pow2(s) % 2 == 0
    ensures Or(x, Pow2(s)) == x + Pow2(s)
  {
    if s == 0 {
      OrZero(x / 2);
    } else {
      HalfQuotient(x, Pow2(s - 1));
      OrBit(x / 2, s - 1);
    }
  }

  lemma HalfQuotient(x: nat, p: nat)
    requires p > 0
    ensures x / 2 / p == x / (2 * p)
  {
    TwoDivisions(x, 2, p, x / 2, x % 2);
  }

  // ---- proof ----

  /** What a target of this compact form proves: the expected number of hashes, 2^256 over target plus one. */
  function Proof(c: nat): nat {
    if (CutWord(c) != 0 && SignOf(c)) || Meaning(c) >= Bytes(32) || Meaning(c) == 0 then 0
    else Quotient(Bytes(32), Meaning(c) + 1)
  }

  method GetBlockProof(nBits: nat) returns (proof: BaseUint)
    requires nBits < BASE
    ensures proof.Valid() && proof.Val() == Proof(nBits)
  {
    hide Pow2, Bytes, Weight, Part, Quotient;
    WidthBytes();
    var target := new BaseUint(WIDTH, 0);
    var negative, overflow := SetCompact(target, nBits);
    var zero := target.EqualTo(0);
    if !overflow {
      DivMod(Meaning(nBits), 0, Meaning(nBits), Bytes(32));
    }
    if negative || overflow || zero {
      proof := new BaseUint(WIDTH, 0);
      return;
    }
    var t := target.Val();
    proof := target.Complemented();
    var one := new BaseUint(WIDTH, 1);
    target.Add(one);
    BelowTop(nBits);
    DivMod(t + 1, 0, t + 1, Bytes(32));
    var r := proof.Divide(target);
    ProofIs(Bytes(32), t);
    QuotientIs(Bytes(32), t + 1);
    ghost var q := proof.Val();
    proof.Add(one);
    ProofFits(Bytes(32), t);
    DivMod(q + 1, 0, q + 1, Bytes(32));
  }

  lemma ProofIs(m: nat, t: nat)
    requires t + 1 <= m
    ensures (m - 1 - t) / (t + 1) + 1 == m / (t + 1)
  {
    var d := t + 1;
    var q := (m - d) / d;
    assert m - d == q * d + (m - d) % d;
    assert (q + 1) * d == q * d + d;
    DivMod(m, q + 1, (m - d) % d, d);
  }

  lemma ProofFits(m: nat, t: nat)
    requires 0 < t && t + 1 <= m
    ensures m / (t + 1) < m
  {
    var q := m / (t + 1);
    assert q * (t + 1) <= m;
    Scale(2, t + 1, q);
  }

  /** An accepted target is below 2^256 - 1, so adding one does not wrap. */
  lemma BelowTop(c: nat)
    requires Meaning(c) < Bytes(32)
    ensures Meaning(c) + 1 < Bytes(32)
  {
    hide Bytes, Cut;
    BytesFew();
    BytesNext(31);
    BytesMono(3, 31);
    if SizeOf(c) <= 3 {
      CutBound(c);
    } else if SizeOf(c) > 3 {
      BytesNext(SizeOf(c) - 4);
      Assoc(WordOf(c), Bytes(SizeOf(c) - 4));
      assert Meaning(c) % 256 == 0 by {
        DivMod(Meaning(c), WordOf(c) * Bytes(SizeOf(c) - 4), 0, 256);
      }
    }
  }
}
