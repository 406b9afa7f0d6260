/**
 GF(1024) and the powers of one of its generators: no power below the 1023rd fixes an element other than zero.
 Multiplication by a power of the generator is a linear map of ten bits, given by its columns.
 */
module Bech32Roots {
  function Sum(x: bv10, y: bv10): bv10 { x ^ y }

  /** The sum of the columns chosen by the bits of v. */
  function Linear(v: bv10, c0: bv10, c1: bv10, c2: bv10, c3: bv10, c4: bv10, c5: bv10, c6: bv10, c7: bv10, c8: bv10,
                  c9: bv10): bv10 {
    (if v & 1 != 0 then c0 else 0) ^ (if v & 2 != 0 then c1 else 0) ^ (if v & 4 != 0 then c2 else 0)
    ^ (if v & 8 != 0 then c3 else 0) ^ (if v & 16 != 0 then c4 else 0) ^ (if v & 32 != 0 then c5 else 0)
    ^ (if v & 64 != 0 then c6 else 0) ^ (if v & 128 != 0 then c7 else 0) ^ (if v & 256 != 0 then c8 else 0)
    ^ (if v & 512 != 0 then c9 else 0)
  }

  /** Times the generator, a root of z^10 + z^8 + z^5 + z + 1. */
  function Next(v: bv10): bv10 { Sum(v << 1, Carry(v)) }

  function Carry(v: bv10): bv10 { if v & 512 != 0 then 0x123 else 0 }

  function Power(n: nat, v: bv10): bv10 { if n == 0 then v else Next(Power(n - 1, v)) }

  lemma {:induction false} PowerAdd(m: nat, n: nat, v: bv10)
    ensures Power(m, Power(n, v)) == Power(m + n, v)
  {
    hide Next;
    if m > 0 {
      PowerAdd(m - 1, n, v);
    }
  }

  lemma Assoc(a: bv10, b: bv10, c: bv10)
    ensures Sum(Sum(a, b), c) == Sum(a, Sum(b, c))
  {
  }

  lemma Comm(a: bv10, b: bv10)
    ensures Sum(a, b) == Sum(b, a)
  {
  }

  lemma Exchange(a: bv10, b: bv10, c: bv10, d: bv10)
    ensures Sum(Sum(a, b), Sum(c, d)) == Sum(Sum(a, c), Sum(b, d))
  {
    hide Sum;
    Assoc(a, b, Sum(c, d));
    Assoc(b, c, d);
    Comm(b, c);
    Assoc(c, b, d);
    Assoc(a, c, Sum(b, d));
  }

  lemma ShiftAdd(x: bv10, y: bv10)
    ensures Sum(x, y) << 1 == Sum(x << 1, y << 1)
    ensures Carry(Sum(x, y)) == Sum(Carry(x), Carry(y))
  {
  }

  lemma NextAdd(x: bv10, y: bv10)
    ensures Next(Sum(x, y)) == Sum(Next(x), Next(y))
  {
    hide Sum, Carry;
    ShiftAdd(x, y);
    Exchange(x << 1, y << 1, Carry(x), Carry(y));
  }

  lemma {:induction false} PowerOfSum(n: nat, x: bv10, y: bv10)
    ensures Power(n, Sum(x, y)) == Sum(Power(n, x), Power(n, y))
  {
    hide Next, Sum;
    if n > 0 {
      PowerOfSum(n - 1, x, y);
      NextAdd(Power(n - 1, x), Power(n - 1, y));
    }
  }

  lemma {:induction false} PowerOfZero(n: nat)
    ensures Power(n, 0) == 0
  {
    if n > 0 {
      PowerOfZero(n - 1);
    }
  }

  // ---- some powers ----

  function Times2(v: bv10): bv10 {
    Linear(v, 0x4, 0x8, 0x10, 0x20, 0x40, 0x80, 0x100, 0x200, 0x123, 0x246)
  }

  function Times3(v: bv10): bv10 {
    Linear(v, 0x8, 0x10, 0x20, 0x40, 0x80, 0x100, 0x200, 0x123, 0x246, 0x1af)
  }

  function Times6(v: bv10): bv10 {
    Linear(v, 0x40, 0x80, 0x100, 0x200, 0x123, 0x246, 0x1af, 0x35e, 0x39f, 0x21d)
  }

  function Times12(v: bv10): bv10 {
    Linear(v, 0x1af, 0x35e, 0x39f, 0x21d, 0x119, 0x232, 0x147, 0x28e, 0x3f, 0x7e)
  }

  function Times24(v: bv10): bv10 {
    Linear(v, 0x3f0, 0x2c3, 0xa5, 0x14a, 0x294, 0xb, 0x16, 0x2c, 0x58, 0xb0)
  }

  function Times25(v: bv10): bv10 {
    Linear(v, 0x2c3, 0xa5, 0x14a, 0x294, 0xb, 0x16, 0x2c, 0x58, 0xb0, 0x160)
  }

  function Times26(v: bv10): bv10 {
    Linear(v, 0xa5, 0x14a, 0x294, 0xb, 0x16, 0x2c, 0x58, 0xb0, 0x160, 0x2c0)
  }

  function Times31(v: bv10): bv10 {
    Linear(v, 0x2c, 0x58, 0xb0, 0x160, 0x2c0, 0xa3, 0x146, 0x28c, 0x3b, 0x76)
  }

  function Times33(v: bv10): bv10 {
    Linear(v, 0xb0, 0x160, 0x2c0, 0xa3, 0x146, 0x28c, 0x3b, 0x76, 0xec, 0x1d8)
  }

  function Times62(v: bv10): bv10 {
    Linear(v, 0x173, 0x2e6, 0xef, 0x1de, 0x3bc, 0x25b, 0x195, 0x32a, 0x377, 0x3cd)
  }

  function Times93(v: bv10): bv10 {
    Linear(v, 0x36a, 0x3f7, 0x2cd, 0xb9, 0x172, 0x2e4, 0xeb, 0x1d6, 0x3ac, 0x27b)
  }

  function Times124(v: bv10): bv10 {
    Linear(v, 0x90, 0x120, 0x240, 0x1a3, 0x346, 0x3af, 0x27d, 0x1d9, 0x3b2, 0x247)
  }

  function Times248(v: bv10): bv10 {
    Linear(v, 0x29f, 0x1d, 0x3a, 0x74, 0xe8, 0x1d0, 0x3a0, 0x263, 0x1e5, 0x3ca)
  }

  function Times341(v: bv10): bv10 {
    Linear(v, 0x36, 0x6c, 0xd8, 0x1b0, 0x360, 0x3e3, 0x2e5, 0xe9, 0x1d2, 0x3a4)
  }

  function Times682(v: bv10): bv10 {
    Linear(v, 0x37, 0x6e, 0xdc, 0x1b8, 0x370, 0x3c3, 0x2a5, 0x69, 0xd2, 0x1a4)
  }

  lemma Compose2(v: bv10)
    ensures Next(Next(v)) == Times2(v)
  {
  }

  lemma Compose3(v: bv10)
    ensures Times2(Next(v)) == Times3(v)
  {
  }

  lemma Compose6(v: bv10)
    ensures Times3(Times3(v)) == Times6(v)
  {
  }

  lemma Compose12(v: bv10)
    ensures Times6(Times6(v)) == Times12(v)
  {
  }

  lemma Compose24(v: bv10)
    ensures Times12(Times12(v)) == Times24(v)
  {
  }

  lemma Compose25(v: bv10)
    ensures Times24(Next(v)) == Times25(v)
  {
  }

  lemma Compose26(v: bv10)
    ensures Times25(Next(v)) == Times26(v)
  {
  }

  lemma Compose31(v: bv10)
    ensures Times25(Times6(v)) == Times31(v)
  {
  }

  lemma Compose33(v: bv10)
    ensures Times31(Times2(v)) == Times33(v)
  {
  }

  lemma Compose62(v: bv10)
    ensures Times31(Times31(v)) == Times62(v)
  {
  }

  lemma Compose93(v: bv10)
    ensures Times62(Times31(v)) == Times93(v)
  {
  }

  lemma Compose124(v: bv10)
    ensures Times62(Times62(v)) == Times124(v)
  {
  }

  lemma Compose248(v: bv10)
    ensures Times124(Times124(v)) == Times248(v)
  {
  }

  lemma Compose341(v: bv10)
    ensures Times248(Times93(v)) == Times341(v)
  {
  }

  lemma Compose682(v: bv10)
    ensures Times341(Times341(v)) == Times682(v)
  {
  }

  lemma Compose1023(v: bv10)
    ensures Times682(Times341(v)) == v
  {
  }

  lemma Power2(v: bv10)
    ensures Power(2, v) == Times2(v)
  {
    hide Next, Linear;
    PowerAdd(1, 1, v);
    Compose2(v);
  }

  lemma Power3(v: bv10)
    ensures Power(3, v) == Times3(v)
  {
    hide Next, Linear;
    Power2(Next(v));
    PowerAdd(2, 1, v);
    Compose3(v);
  }

  lemma Power6(v: bv10)
    ensures Power(6, v) == Times6(v)
  {
    hide Next, Linear;
    Power3(v);
    Power3(Times3(v));
    PowerAdd(3, 3, v);
    Compose6(v);
  }

  lemma Power12(v: bv10)
    ensures Power(12, v) == Times12(v)
  {
    hide Next, Linear;
    Power6(v);
    Power6(Times6(v));
    PowerAdd(6, 6, v);
    Compose12(v);
  }

  lemma Power24(v: bv10)
    ensures Power(24, v) == Times24(v)
  {
    hide Next, Linear;
    Power12(v);
    Power12(Times12(v));
    PowerAdd(12, 12, v);
    Compose24(v);
  }

  lemma Power25(v: bv10)
    ensures Power(25, v) == Times25(v)
  {
    hide Next, Linear;
    Power24(Next(v));
    PowerAdd(24, 1, v);
    Compose25(v);
  }

  lemma Power26(v: bv10)
    ensures Power(26, v) == Times26(v)
  {
    hide Next, Linear;
    Power25(Next(v));
    PowerAdd(25, 1, v);
    Compose26(v);
  }

  lemma Power31(v: bv10)
    ensures Power(31, v) == Times31(v)
  {
    hide Next, Linear;
    Power6(v);
    Power25(Times6(v));
    PowerAdd(25, 6, v);
    Compose31(v);
  }

  lemma Power33(v: bv10)
    ensures Power(33, v) == Times33(v)
  {
    hide Next, Linear;
    Power2(v);
    Power31(Times2(v));
    PowerAdd(31, 2, v);
    Compose33(v);
  }

  lemma Power62(v: bv10)
    ensures Power(62, v) == Times62(v)
  {
    hide Next, Linear;
    Power31(v);
    Power31(Times31(v));
    PowerAdd(31, 31, v);
    Compose62(v);
  }

  lemma Power93(v: bv10)
    ensures Power(93, v) == Times93(v)
  {
    hide Next, Linear;
    Power31(v);
    Power62(Times31(v));
    PowerAdd(62, 31, v);
    Compose93(v);
  }

  lemma Power124(v: bv10)
    ensures Power(124, v) == Times124(v)
  {
    hide Next, Linear;
    Power62(v);
    Power62(Times62(v));
    PowerAdd(62, 62, v);
    Compose124(v);
  }

  lemma Power248(v: bv10)
    ensures Power(248, v) == Times248(v)
  {
    hide Next, Linear;
    Power124(v);
    Power124(Times124(v));
    PowerAdd(124, 124, v);
    Compose248(v);
  }

  lemma Power341(v: bv10)
    ensures Power(341, v) == Times341(v)
  {
    hide Next, Linear;
    Power93(v);
    Power248(Times93(v));
    PowerAdd(248, 93, v);
    Compose341(v);
  }

  lemma Power682(v: bv10)
    ensures Power(682, v) == Times682(v)
  {
    hide Next, Linear;
    Power341(v);
    Power341(Times341(v));
    PowerAdd(341, 341, v);
    Compose682(v);
  }

  lemma Power1023(v: bv10)
    ensures Power(1023, v) == v
  {
    hide Next, Linear;
    Power341(v);
    Power682(Times341(v));
    PowerAdd(682, 341, v);
    Compose1023(v);
  }

  // ---- the order ----

  ghost predicate Fixed(n: nat, v: bv10) { Power(n, v) == v }

  lemma {:induction false} FixedMultiple(k: nat, n: nat, v: bv10)
    requires Fixed(n, v)
    ensures Fixed(k * n, v)
  {
    if k > 0 {
      FixedMultiple(k - 1, n, v);
      PowerAdd(n, (k - 1) * n, v);
      assert n + (k - 1) * n == k * n;
    }
  }

  lemma FixedDifference(m: nat, n: nat, v: bv10)
    requires m >= n && Fixed(m, v) && Fixed(n, v)
    ensures Fixed(m - n, v)
  {
    PowerAdd(m - n, n, v);
  }

  lemma Moves33(v: bv10)
    requires v != 0
    ensures Times33(v) != v
  {
  }

  lemma Moves93(v: bv10)
    requires v != 0
    ensures Times93(v) != v
  {
  }

  lemma Moves341(v: bv10)
    requires v != 0
    ensures Times341(v) != v
  {
  }

  /** The inverse of a number modulo 3, 11 or 31. */
  function Inverse(r: nat, p: nat): nat {
    if p == 3 then r else if p == 11 then Inverse11(r) else Inverse31(r)
  }

  function Inverse11(r: nat): nat {
    match r
    case 1 => 1 case 2 => 6 case 3 => 4 case 4 => 3 case 5 => 9 case 6 => 2 case 7 => 8 case 8 => 7
    case 9 => 5 case _ => 10
  }

  function Inverse31(r: nat): nat {
    match r
    case 1 => 1 case 2 => 16 case 3 => 21 case 4 => 8 case 5 => 25 case 6 => 26 case 7 => 9 case 8 => 4
    case 9 => 7 case 10 => 28 case 11 => 17 case 12 => 13 case 13 => 12 case 14 => 20 case 15 => 29
    case 16 => 2 case 17 => 11 case 18 => 19 case 19 => 18 case 20 => 14 case 21 => 3 case 22 => 24
    case 23 => 27 case 24 => 22 case 25 => 5 case 26 => 6 case 27 => 23 case 28 => 10 case 29 => 15
    case _ => 30
  }

  lemma InverseIs(r: nat, p: nat)
    requires 0 < r < p && (p == 3 || p == 11 || p == 31)
    ensures Inverse(r, p) * r % p == 1
  {
  }

  /** If the d-th power fixes v and p does not divide d, so does the power of 1023 / p. */
  lemma Reduce(d: nat, p: nat, e: nat, v: bv10)
    requires (p == 3 || p == 11 || p == 31) && d % p != 0 && p * e == 1023 && Fixed(d, v) && Fixed(1023, v)
    ensures Fixed(e, v)
  {
    hide Fixed, Inverse;
    var a, r := d / p, d % p;
    var q := Inverse(r, p);
    InverseIs(r, p);
    var t := q * a + q * r / p;
    Product(d, p, e, a, r, q, t);
    FixedMultiple(q * e, d, v);
    FixedMultiple(t, 1023, v);
    FixedDifference(q * e * d, t * 1023, v);
  }

  lemma Product(d: nat, p: nat, e: nat, a: nat, r: nat, q: nat, t: nat)
    requires p > 0 && p * e == 1023 && d == p * a + r && q * r % p == 1 && t == q * a + q * r / p
    ensures q * e * d == t * 1023 + e
  {
    var s := q * r / p;
    assert q * r == p * s + 1;
    assert q * d == q * (p * a) + q * r;
    assert q * (p * a) == p * (q * a);
    assert p * (q * a) + p * s == p * t;
    assert q * e * d == e * (q * d);
    assert e * (p * t + 1) == e * p * t + e;
    assert e * p * t == t * 1023;
  }

  /** No power of the generator below the 1023rd fixes anything but zero. */
  lemma Order(d: nat, v: bv10)
    requires 0 < d < 1023 && v != 0
    ensures !Fixed(d, v)
  {
    if Fixed(d, v) {
      hide Power, Times33, Times93, Times341;
      Power1023(v);
      if d % 3 != 0 {
        Reduce(d, 3, 341, v);
        Power341(v);
        Moves341(v);
      } else if d % 11 != 0 {
        Reduce(d, 11, 93, v);
        Power93(v);
        Moves93(v);
      } else if d % 31 != 0 {
        Reduce(d, 31, 33, v);
        Power33(v);
        Moves33(v);
      } else {
        var k := Multiple(d, d / 3, d / 11, d / 31);
      }
    }
  }

  lemma Multiple(d: int, a: int, b: int, c: int) returns (k: int)
    requires d == 3 * a && d == 11 * b && d == 31 * c
    ensures d == 1023 * k
  {
    var e := 4 * b - a;
    assert d == 33 * e;
    k := 16 * c - 17 * e;
  }
}
