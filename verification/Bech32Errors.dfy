/**
 Bits of the checksum state (src/bech32.cpp:37-94) as a number and as a polynomial over GF(32), and what follows for
 errors: up to three wrong values within 1023 are always detected.
 */
module Bech32Errors {
  import opened Powers
  import opened XorBits
  import opened Bech32Code
  import F = Bech32Field
  import I = Bech32Independence

  /** The element of x^p in a state. */
  function Part(s: F.State, p: nat): bv5 {
    if p == 0 then s.e0
    else if p == 1 then s.e1
    else if p == 2 then s.e2
    else if p == 3 then s.e3
    else if p == 4 then s.e4
    else s.e5
  }

  predicate Bit(y: bv5, k: nat) {
    if k == 0 then y & 1 != 0
    else if k == 1 then y & 2 != 0
    else if k == 2 then y & 4 != 0
    else if k == 3 then y & 8 != 0
    else y & 16 != 0
  }

  /** Bit n of a state. */
  predicate On(s: F.State, n: nat) { n < 30 && Bit(Part(s, n / 5), n % 5) }

  ghost predicate Agree(c: nat, s: F.State) { forall n: nat | n < 30 :: HasBit(c, n) <==> On(s, n) }

  // ---- bits of numbers ----

  lemma HighBit(c: nat, m: nat)
    ensures HasBit(High(c, 25), m) <==> HasBit(c, 25 + m)
  {
    hide Pow2;
    var w, p := Pow2(25), Pow2(m);
    Pow2Add(25, m);
    TwoDivisions(c, w, p, c / w, c % w);
  }

  lemma ShiftedBit(x: nat, n: nat)
    ensures n >= 5 ==> (HasBit(x * 32, n) <==> HasBit(x, n - 5))
    ensures n < 5 ==> !HasBit(x * 32, n)
  {
    hide Pow2;
    if n >= 5 {
      Constants();
      Pow2Add(5, n - 5);
      Cancel(x, 32, Pow2(n - 5));
    } else {
      ShiftedBits(x, n);
    }
  }

  lemma Cancel(x: nat, a: nat, p: nat)
    requires a > 0 && p > 0
    ensures a * p > 0 && Quotient(x * a, a * p) == Quotient(x, p)
  {
    var q, r := x / p, x % p;
    assert x == q * p + r;
    assert x * a == q * (a * p) + r * a;
    assert r * a < a * p;
    DivMod(x * a, q, r * a, a * p);
  }

  lemma LowBit(c: nat, k: nat)
    ensures k < 25 ==> (HasBit(Low(c, 25), k) <==> HasBit(c, k))
    ensures k >= 25 ==> !HasBit(Low(c, 25), k)
  {
    hide Pow2;
    if k < 25 {
      Pow2Add(24 - k, k);
      Pow2Add(1, 24);
      PowOne();
      Divided(c, Pow2(25));
      EvenPart(c, Pow2(25), Pow2(k), Pow2(24 - k), Quotient(c, Pow2(25)), Low(c, 25));
    } else {
      Pow2Mono(25, k);
      DivMod(Low(c, 25), 0, Low(c, 25), Pow2(k));
    }
  }

  lemma EvenPart(c: nat, p: nat, q: nat, r: nat, h: nat, l: nat)
    requires q > 0 && p == 2 * (r * q) && c == h * p + l
    ensures Quotient(l, q) % 2 == Quotient(c, q) % 2
  {
    hide Quotient;
    var a, b, k := Quotient(l, q), l % q, h * r;
    Divided(l, q);
    Regrouped(c, p, q, r, h, l, a, b, k);
    QuotientIs(c, 2 * k + a, b, q);
    Parity(k, a);
  }

  lemma Parity(k: nat, a: nat)
    ensures (2 * k + a) % 2 == a % 2
  {
  }

  lemma Divided(l: nat, q: nat)
    requires q > 0
    ensures l == Quotient(l, q) * q + l % q && l % q < q
  {
  }

  lemma QuotientIs(x: nat, q: nat, r: nat, m: nat)
    requires m > 0 && x == q * m + r && r < m
    ensures Quotient(x, m) == q
  {
    DivMod(x, q, r, m);
  }

  lemma Regrouped(c: nat, p: nat, q: nat, r: nat, h: nat, l: nat, a: nat, b: nat, k: nat)
    requires p == 2 * (r * q) && c == h * p + l && l == a * q + b && k == h * r
    ensures c == (2 * k + a) * q + b
  {
    assert h * p == 2 * (h * (r * q));
    assert h * (r * q) == k * q;
    assert (2 * k + a) * q == 2 * (k * q) + a * q;
  }

  /** The bits of a state after a step without a value. */
  lemma StepBit(c: nat, n: nat)
    ensures HasBit(Step(c, 0), n) <==>
            (5 <= n && HasBit(c, n - 5) && n < 30) !=
            Odd(HasBit(c, 25) && HasBit(0x3b6a57b2, n), HasBit(c, 26) && HasBit(0x26508e6d, n),
                HasBit(c, 27) && HasBit(0x1ea119fa, n), HasBit(c, 28) && HasBit(0x3d4233dd, n),
                HasBit(c, 29) && HasBit(0x2a1462b3, n))
  {
    hide Xor, HasBit, Term, Reduced, High, Low, Pow2;
    Constants();
    var x, c0 := Low(c, 25) * 32, High(c, 25);
    XorZero(x);
    ReducedBit(x, c0, n);
    TermBit(c0, 0, 0x3b6a57b2, n);
    TermBit(c0, 1, 0x26508e6d, n);
    TermBit(c0, 2, 0x1ea119fa, n);
    TermBit(c0, 3, 0x3d4233dd, n);
    TermBit(c0, 4, 0x2a1462b3, n);
    HighBit(c, 0);
    HighBit(c, 1);
    HighBit(c, 2);
    HighBit(c, 3);
    HighBit(c, 4);
    ShiftedBit(Low(c, 25), n);
    if n >= 5 {
      LowBit(c, n - 5);
    }
  }

  // ---- bits of the constants ----

  /** The five constants of the reduction, read as states. */
  const T0 := F.State(29, 22, 20, 21, 29, 18)
  const T1 := F.State(19, 5, 1, 3, 19, 13)
  const T2 := F.State(15, 10, 2, 6, 15, 26)
  const T3 := F.State(30, 20, 4, 12, 30, 29)
  const T4 := F.State(21, 1, 8, 24, 21, 19)

  lemma PowTable()
    ensures Pow2(0) == 0x1 && Pow2(1) == 0x2 && Pow2(2) == 0x4 && Pow2(3) == 0x8 && Pow2(4) == 0x10
    ensures Pow2(5) == 0x20 && Pow2(6) == 0x40 && Pow2(7) == 0x80 && Pow2(8) == 0x100 && Pow2(9) == 0x200
    ensures Pow2(10) == 0x400 && Pow2(11) == 0x800 && Pow2(12) == 0x1000 && Pow2(13) == 0x2000 && Pow2(14) == 0x4000
    ensures Pow2(15) == 0x8000 && Pow2(16) == 0x10000 && Pow2(17) == 0x20000 && Pow2(18) == 0x40000
    ensures Pow2(19) == 0x80000 && Pow2(20) == 0x100000 && Pow2(21) == 0x200000 && Pow2(22) == 0x400000
    ensures Pow2(23) == 0x800000 && Pow2(24) == 0x1000000 && Pow2(25) == 0x2000000 && Pow2(26) == 0x4000000
    ensures Pow2(27) == 0x8000000 && Pow2(28) == 0x10000000 && Pow2(29) == 0x20000000
  {
    hide Pow2;
    PowLow();
    Pow2Add(10, 1);
    Pow2Add(2, 10);
    Pow2Add(3, 10);
    Pow2Add(4, 10);
    Pow2Add(5, 10);
    Pow2Add(6, 10);
    Pow2Add(7, 10);
    Pow2Add(8, 10);
    Pow2Add(9, 10);
    Pow2Add(10, 10);
    Pow2Add(11, 10);
    Pow2Add(12, 10);
    Pow2Add(13, 10);
    Pow2Add(14, 10);
    Pow2Add(15, 10);
    Pow2Add(16, 10);
    Pow2Add(17, 10);
    Pow2Add(18, 10);
    Pow2Add(19, 10);
  }

  lemma PowLow()
    ensures Pow2(0) == 0x1 && Pow2(1) == 0x2 && Pow2(2) == 0x4 && Pow2(3) == 0x8 && Pow2(4) == 0x10 && Pow2(5) == 0x20
    ensures Pow2(6) == 0x40 && Pow2(7) == 0x80 && Pow2(8) == 0x100 && Pow2(9) == 0x200 && Pow2(10) == 0x400
  {
  }

  lemma ConstBit0(n: nat)
    requires n < 30
    ensures HasBit(0x3b6a57b2, n) <==> On(T0, n)
  {
    hide Pow2;
    PowTable();
  }

  lemma ConstBit1(n: nat)
    requires n < 30
    ensures HasBit(0x26508e6d, n) <==> On(T1, n)
  {
    hide Pow2;
    PowTable();
  }

  lemma ConstBit2(n: nat)
    requires n < 30
    ensures HasBit(0x1ea119fa, n) <==> On(T2, n)
  {
    hide Pow2;
    PowTable();
  }

  lemma ConstBit3(n: nat)
    requires n < 30
    ensures HasBit(0x3d4233dd, n) <==> On(T3, n)
  {
    hide Pow2;
    PowTable();
  }

  lemma ConstBit4(n: nat)
    requires n < 30
    ensures HasBit(0x2a1462b3, n) <==> On(T4, n)
  {
    hide Pow2;
    PowTable();
  }

  // ---- bits of states ----

  /** What the reduction adds to the element of x^p when the top element is y. */
  function Carried(y: bv5, p: nat): bv5 {
    if p == 0 then F.By18(y)
    else if p == 1 then F.By29(y)
    else if p == 2 then F.By21(y)
    else if p == 3 then F.By20(y)
    else if p == 4 then F.By22(y)
    else F.By29(y)
  }

  /** Bit k of z is the sum of that bit of the constants chosen by the bits of y. */
  ghost predicate Sums(y: bv5, z: bv5, p: nat, k: nat) {
    Bit(z, k) <==>
    Odd(Bit(y, 0) && Bit(Part(T0, p), k), Bit(y, 1) && Bit(Part(T1, p), k), Bit(y, 2) && Bit(Part(T2, p), k),
        Bit(y, 3) && Bit(Part(T3, p), k), Bit(y, 4) && Bit(Part(T4, p), k))
  }

  lemma Carried0(y: bv5, k: nat)
    requires k < 5
    ensures Sums(y, F.By18(y), 0, k)
  {
  }

  lemma Carried1(y: bv5, k: nat)
    requires k < 5
    ensures Sums(y, F.By29(y), 1, k)
  {
  }

  lemma Carried2(y: bv5, k: nat)
    requires k < 5
    ensures Sums(y, F.By21(y), 2, k)
  {
  }

  lemma Carried3(y: bv5, k: nat)
    requires k < 5
    ensures Sums(y, F.By20(y), 3, k)
  {
  }

  lemma Carried4(y: bv5, k: nat)
    requires k < 5
    ensures Sums(y, F.By22(y), 4, k)
  {
  }

  lemma Carried5(y: bv5, k: nat)
    requires k < 5
    ensures Sums(y, F.By29(y), 5, k)
  {
  }

  lemma CarriedOn(y: bv5, p: nat, k: nat)
    requires p < 6 && k < 5
    ensures Sums(y, Carried(y, p), p, k)
  {
    hide Sums, F.By29, F.By22, F.By20, F.By21, F.By18;
    if p == 0 {
      Carried0(y, k);
    } else if p == 1 {
      Carried1(y, k);
    } else if p == 2 {
      Carried2(y, k);
    } else if p == 3 {
      Carried3(y, k);
    } else if p == 4 {
      Carried4(y, k);
    } else {
      Carried5(y, k);
    }
  }

  lemma AddBit(x: bv5, y: bv5, k: nat)
    requires k < 5
    ensures Bit(F.Add(x, y), k) <==> Bit(x, k) != Bit(y, k)
  {
  }

  lemma TimesXPart(s: F.State, p: nat)
    requires p < 6
    ensures Part(F.TimesX(s), p) == if p == 0 then Carried(s.e5, 0) else F.Add(Part(s, p - 1), Carried(s.e5, p))
  {
    hide F.Add, F.By29, F.By22, F.By20, F.By21, F.By18;
  }

  /** The bits of a state times x. */
  lemma TimesXOn(s: F.State, n: nat)
    requires n < 30
    ensures On(F.TimesX(s), n) <==>
            (n >= 5 && On(s, n - 5)) !=
            Odd(On(s, 25) && On(T0, n), On(s, 26) && On(T1, n), On(s, 27) && On(T2, n), On(s, 28) && On(T3, n),
                On(s, 29) && On(T4, n))
  {
    hide F.TimesX, Bit, Part, Carried, F.Add, T0, T1, T2, T3, T4;
    var p, k := n / 5, n % 5;
    TimesXPart(s, p);
    CarriedOn(s.e5, p, k);
    TopBits(s);
    if p > 0 {
      AddBit(Part(s, p - 1), Carried(s.e5, p), k);
      assert (n - 5) / 5 == p - 1 && (n - 5) % 5 == k;
    }
  }

  lemma TopBits(s: F.State)
    ensures On(s, 25) == Bit(s.e5, 0) && On(s, 26) == Bit(s.e5, 1) && On(s, 27) == Bit(s.e5, 2)
    ensures On(s, 28) == Bit(s.e5, 3) && On(s, 29) == Bit(s.e5, 4)
  {
    hide Bit;
  }

  lemma StepAgrees(c: nat, s: F.State)
    requires Agree(c, s)
    ensures Agree(Step(c, 0), F.TimesX(s))
  {
    hide F.TimesX, On, HasBit, Step;
    forall n: nat | n < 30 ensures HasBit(Step(c, 0), n) <==> On(F.TimesX(s), n) {
      StepBit(c, n);
      TimesXOn(s, n);
      ConstBit0(n);
      ConstBit1(n);
      ConstBit2(n);
      ConstBit3(n);
      ConstBit4(n);
    }
  }

  ghost function Zeros(n: nat): (z: seq<nat>)
    ensures |z| == n
  {
    seq(n, _ => 0)
  }

  lemma {:induction false} FoldAgrees(c: nat, s: F.State, n: nat)
    requires Agree(c, s)
    ensures Agree(Fold(c, Zeros(n)), F.XPower(n, s))
  {
    hide F.TimesX, Step, Agree;
    if n > 0 {
      FoldAgrees(c, s, n - 1);
      assert Zeros(n)[..n - 1] == Zeros(n - 1);
      StepAgrees(Fold(c, Zeros(n - 1)), F.XPower(n - 1, s));
    }
  }

  lemma PlusPart(s: F.State, t: F.State, p: nat)
    ensures Part(F.Plus(s, t), p) == F.Add(Part(s, p), Part(t, p))
  {
    hide F.Add;
  }

  lemma PlusOn(s: F.State, t: F.State, n: nat)
    requires n < 30
    ensures On(F.Plus(s, t), n) <==> On(s, n) != On(t, n)
  {
    hide F.Add, F.Plus, Part, Bit;
    PlusPart(s, t, n / 5);
    AddBit(Part(s, n / 5), Part(t, n / 5), n % 5);
  }

  lemma XorAgrees(x: nat, y: nat, s: F.State, t: F.State)
    requires Agree(x, s) && Agree(y, t)
    ensures Agree(Xor(x, y), F.Plus(s, t))
  {
    hide F.Plus, On, HasBit, Xor;
    forall n: nat | n < 30 ensures HasBit(Xor(x, y), n) <==> On(F.Plus(s, t), n) {
      BitXor(x, y, n);
      PlusOn(s, t, n);
    }
  }

  /** A 5-bit number as an element. */
  ghost function Element(a: nat): bv5 {
    (if HasBit(a, 0) then 1 else 0) | (if HasBit(a, 1) then 2 else 0) | (if HasBit(a, 2) then 4 else 0)
    | (if HasBit(a, 3) then 8 else 0) | (if HasBit(a, 4) then 16 else 0)
  }

  lemma SmallOn(a: nat, n: nat)
    requires n < 30
    ensures On(I.Small(Element(a)), n) <==> n < 5 && HasBit(a, n)
  {
    hide HasBit;
  }

  lemma SmallAgrees(a: nat)
    requires a < 32
    ensures Agree(a, I.Small(Element(a))) && (Element(a) == 0 <==> a == 0)
  {
    hide On, HasBit, I.Small, Element;
    forall n: nat | n < 30 ensures HasBit(a, n) <==> On(I.Small(Element(a)), n) {
      SmallOn(a, n);
      if n >= 5 {
        NoHighBit(a, n);
      }
    }
    ElementZero(a);
  }

  lemma NoHighBit(a: nat, n: nat)
    requires a < 32 && n >= 5
    ensures !HasBit(a, n)
  {
    hide Pow2;
    Constants();
    Pow2Mono(5, n);
    DivMod(a, 0, a, Pow2(n));
  }

  lemma ElementZero(a: nat)
    requires a < 32
    ensures Element(a) == 0 <==> a == 0
  {
    hide HasBit;
    if a == 0 {
      forall n: nat ensures !HasBit(0, n) {
        ZeroBit(n);
      }
    } else if Element(a) == 0 {
      forall n: nat | n < 5 ensures !HasBit(a, n) {
        assert n == 0 || n == 1 || n == 2 || n == 3 || n == 4;
      }
      NoBits(a);
    }
  }

  lemma ZeroBit(n: nat)
    ensures !HasBit(0, n)
  {
    hide Pow2;
    DivMod(0, 0, 0, Pow2(n));
  }

  // ---- three errors ----

  lemma NoBit(y: bv5)
    requires y & 1 == 0 && y & 2 == 0 && y & 4 == 0 && y & 8 == 0 && y & 16 == 0
    ensures y == 0
  {
  }

  /** Only the zero state stands for zero. */
  lemma NothingOn(s: F.State)
    requires Agree(0, s)
    ensures s == F.ZERO
  {
    hide HasBit;
    forall n: nat | n < 30 ensures !On(s, n) {
      ZeroBit(n);
    }
    assert !On(s, 0) && !On(s, 1) && !On(s, 2) && !On(s, 3) && !On(s, 4);
    assert !On(s, 5) && !On(s, 6) && !On(s, 7) && !On(s, 8) && !On(s, 9);
    assert !On(s, 10) && !On(s, 11) && !On(s, 12) && !On(s, 13) && !On(s, 14);
    assert !On(s, 15) && !On(s, 16) && !On(s, 17) && !On(s, 18) && !On(s, 19);
    assert !On(s, 20) && !On(s, 21) && !On(s, 22) && !On(s, 23) && !On(s, 24);
    assert !On(s, 25) && !On(s, 26) && !On(s, 27) && !On(s, 28) && !On(s, 29);
    NoBit(s.e5);
    NoBit(s.e4);
    NoBit(s.e3);
    NoBit(s.e2);
    NoBit(s.e1);
    NoBit(s.e0);
  }

  /** Three values, not all zero, with up to 1021 zeros between the first and the last. */
  lemma ThreeNonzero(a: nat, m: nat, b: nat, n: nat, c: nat)
    requires a < 32 && b < 32 && c < 32 && (a != 0 || b != 0 || c != 0) && 0 < n < m <= 1022
    ensures Xor(Xor(Fold(a, Zeros(m)), Fold(b, Zeros(n))), c) != 0
  {
    hide Agree, Fold, Element, I.Small, F.XPower, F.Plus, Xor;
    SmallAgrees(a);
    SmallAgrees(b);
    SmallAgrees(c);
    var x, y, z := I.Small(Element(a)), I.Small(Element(b)), I.Small(Element(c));
    FoldAgrees(a, x, m);
    FoldAgrees(b, y, n);
    XorAgrees(Fold(a, Zeros(m)), Fold(b, Zeros(n)), F.XPower(m, x), F.XPower(n, y));
    XorAgrees(Xor(Fold(a, Zeros(m)), Fold(b, Zeros(n))), c, F.Plus(F.XPower(m, x), F.XPower(n, y)), z);
    I.ThreePowers(m, n, Element(a), Element(b), Element(c));
    if Xor(Xor(Fold(a, Zeros(m)), Fold(b, Zeros(n))), c) == 0 {
      NothingOn(F.Plus(F.Plus(F.XPower(m, x), F.XPower(n, y)), z));
    }
  }

  /** A value fed into a state. */
  lemma StepAdds(c: nat, v: nat)
    ensures Step(c, v) == Xor(Step(c, 0), v)
  {
    hide Xor, Reduced, Low, High, Pow2;
    XorZero(c);
    XorZero(v);
    StepLinear(c, 0, 0, v);
    NothingReduced(v);
  }

  lemma NothingReduced(v: nat)
    ensures Step(0, v) == v
  {
    hide Xor, Pow2;
    DivMod(0, 0, 0, Pow2(25));
    XorZero(v);
    NoTerms(v);
  }

  /** The state before the last value, with zeros and the value behind it. */
  lemma FoldGap(c: nat, d: seq<nat>)
    requires d != [] && forall i | 0 <= i < |d| - 1 :: d[i] == 0
    ensures Fold(c, d) == Xor(Fold(c, Zeros(|d|)), d[|d| - 1])
  {
    hide Step, Xor;
    var n := |d| - 1;
    assert d[..n] == Zeros(n) && Zeros(n + 1)[..n] == Zeros(n);
    StepAdds(Fold(c, Zeros(n)), d[n]);
  }

  lemma FoldZerosJoin(c: nat, m: nat, n: nat)
    ensures Fold(Fold(c, Zeros(m)), Zeros(n)) == Fold(c, Zeros(m + n))
  {
    hide Fold;
    FoldJoin(c, Zeros(m), Zeros(n));
    assert Zeros(m) + Zeros(n) == Zeros(m + n);
  }

  lemma FoldZerosXor(x: nat, y: nat, n: nat)
    ensures Fold(Xor(x, y), Zeros(n)) == Xor(Fold(x, Zeros(n)), Fold(y, Zeros(n)))
  {
    hide Fold, Xor;
    XorZero(0);
    FoldLinear(x, y, Zeros(n), Zeros(n), Zeros(n));
  }

  /** Three values, the first one at the start and the last one at the end. */
  lemma SparseState(d: seq<nat>, j: nat)
    requires |d| >= 3 && 0 < j < |d| - 1 && forall i | 0 <= i < |d| && i != 0 && i != j && i != |d| - 1 :: d[i] == 0
    ensures Fold(0, d) == Xor(Xor(Fold(d[0], Zeros(|d| - 1)), Fold(d[j], Zeros(|d| - 1 - j))), d[|d| - 1])
  {
    hide Fold, Xor;
    var n := |d| - 1;
    var x, y, z := d[..1], d[1..j + 1], d[j + 1..];
    assert d == x + y + z;
    FoldJoin(0, x + y, z);
    FoldJoin(0, x, y);
    FoldFirst(x);
    FoldGap(d[0], y);
    FoldGap(Xor(Fold(d[0], Zeros(j)), d[j]), z);
    FoldZerosXor(Fold(d[0], Zeros(j)), d[j], n - j);
    FoldZerosJoin(d[0], j, n - j);
  }

  lemma FoldFirst(x: seq<nat>)
    requires |x| == 1
    ensures Fold(0, x) == x[0]
  {
    hide Step;
    assert x[..0] == [];
    NothingReduced(x[0]);
  }

  /** Up to three values other than zero within 1023 never cancel out. */
  lemma SparseNonzero(d: seq<nat>, i: nat, j: nat, k: nat)
    requires i < j < k < |d| && k - i <= 1022 && Fives(d) && (d[i] != 0 || d[j] != 0 || d[k] != 0)
    requires forall h | 0 <= h < |d| && h != i && h != j && h != k :: d[h] == 0
    ensures Fold(0, d) != 0
  {
    hide Step, Pow2, Fold, Xor;
    var a, b, e := d[..i], d[i..k + 1], d[k + 1..];
    Constants();
    FoldZeros(0, a);
    FoldThree(d, i, k + 1);
    SparseState(b, j - i);
    ThreeNonzero(d[i], k - i, d[j], k - j, d[k]);
    FoldFits(0, b);
    FoldZeros(Fold(0, b), e);
  }

  /** Sequences that differ in up to three places within 1023 have different checksums. */
  lemma ThreeDetected(c: nat, v: seq<nat>, w: seq<nat>, i: nat, j: nat, k: nat)
    requires i < j < k < |v| == |w| && k - i <= 1022 && Fives(v) && Fives(w) && v != w
    requires forall h | 0 <= h < |v| && h != i && h != j && h != k :: v[h] == w[h]
    ensures Fold(c, v) != Fold(c, w)
  {
    hide Step, Pow2, Xor, Fold;
    var d := seq(|v|, h requires 0 <= h < |v| => Xor(v[h], w[h]));
    forall h | 0 <= h < |v| ensures w[h] == Xor(v[h], d[h]) && d[h] < 32 && (d[h] == 0 <==> v[h] == w[h]) {
      XorBack(v[h], w[h]);
    }
    FoldLinear(c, 0, w, v, d);
    XorZero(c);
    var h :| 0 <= h < |v| && v[h] != w[h];
    SparseNonzero(d, i, j, k);
    XorApart(Fold(c, v), Fold(0, d));
  }
}
