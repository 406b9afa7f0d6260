/** The Bech32 checksum over 5-bit values (src/bech32.cpp:37-139): a linear code with an invertible step. */
module Bech32Code {
  import opened Powers
  import opened XorBits

  predicate HasBit(c: nat, n: nat) { High(c, n) % 2 == 1 }

  /** A multiple of x^6 modulo the generator, for one bit of the coefficient that was highest. */
  function Term(c0: nat, n: nat, k: nat): nat { if HasBit(c0, n) then k else 0 }

  /** One value fed into the checksum: times x modulo the generator, plus the value. */
  function Step(c: nat, v: nat): nat {
    Reduced(Xor(Low(c, 25) * Pow2(5), v), High(c, 25))
  }

  function Reduced(c: nat, c0: nat): nat {
    Xor(Xor(Xor(Xor(Xor(c, Term(c0, 0, 0x3b6a57b2)), Term(c0, 1, 0x26508e6d)), Term(c0, 2, 0x1ea119fa)),
            Term(c0, 3, 0x3d4233dd)),
        Term(c0, 4, 0x2a1462b3))
  }

  lemma Constants()
    ensures Pow2(5) == 32 && Pow2(25) == 0x2000000 && Pow2(30) == 0x40000000
  {
    assert Pow2(5) == 32;
    Pow2Add(5, 5);
    Pow2Add(10, 10);
    Pow2Add(20, 5);
    Pow2Add(25, 5);
  }

  // ---- linearity ----

  lemma BitXor(x: nat, y: nat, n: nat)
    ensures HasBit(Xor(x, y), n) <==> HasBit(x, n) != HasBit(y, n)
  {
    hide High, Xor;
    XorSplit(x, y, n);
    XorHalf(High(x, n), High(y, n));
  }

  lemma TermLinear(x: nat, y: nat, n: nat, k: nat)
    ensures Term(Xor(x, y), n, k) == Xor(Term(x, n, k), Term(y, n, k))
  {
    hide HasBit, Xor;
    BitXor(x, y, n);
    XorZero(k);
    XorZero(0);
  }

  lemma AddTerm(a: nat, b: nat, x: nat, y: nat, n: nat, k: nat)
    ensures Xor(Xor(a, b), Term(Xor(x, y), n, k)) == Xor(Xor(a, Term(x, n, k)), Xor(b, Term(y, n, k)))
  {
    hide Term, Xor;
    TermLinear(x, y, n, k);
    Exchange(a, b, Term(x, n, k), Term(y, n, k));
  }

  lemma ReducedLinear(a: nat, b: nat, x: nat, y: nat)
    ensures Reduced(Xor(a, b), Xor(x, y)) == Xor(Reduced(a, x), Reduced(b, y))
  {
    hide Term, Xor;
    var c, d := a, b;
    AddTerm(c, d, x, y, 0, 0x3b6a57b2);
    c, d := Xor(c, Term(x, 0, 0x3b6a57b2)), Xor(d, Term(y, 0, 0x3b6a57b2));
    AddTerm(c, d, x, y, 1, 0x26508e6d);
    c, d := Xor(c, Term(x, 1, 0x26508e6d)), Xor(d, Term(y, 1, 0x26508e6d));
    AddTerm(c, d, x, y, 2, 0x1ea119fa);
    c, d := Xor(c, Term(x, 2, 0x1ea119fa)), Xor(d, Term(y, 2, 0x1ea119fa));
    AddTerm(c, d, x, y, 3, 0x3d4233dd);
    c, d := Xor(c, Term(x, 3, 0x3d4233dd)), Xor(d, Term(y, 3, 0x3d4233dd));
    AddTerm(c, d, x, y, 4, 0x2a1462b3);
  }

  /** The step respects exclusive or. */
  lemma StepLinear(a: nat, b: nat, v: nat, w: nat)
    ensures Step(Xor(a, b), Xor(v, w)) == Xor(Step(a, v), Step(b, w))
  {
    hide Xor, High, Low, Reduced, Pow2;
    XorSplit(a, b, 25);
    XorScale(Low(a, 25), Low(b, 25), 5);
    Exchange(Low(a, 25) * Pow2(5), Low(b, 25) * Pow2(5), v, w);
    ReducedLinear(Xor(Low(a, 25) * Pow2(5), v), Xor(Low(b, 25) * Pow2(5), w), High(a, 25), High(b, 25));
  }

  /** The state stays within six 5-bit coefficients. */
  lemma StepFits(c: nat, v: nat)
    requires v < 32
    ensures Step(c, v) < Pow2(30)
  {
    hide Xor, High, HasBit;
    Constants();
    var c0 := High(c, 25);
    var x := Low(c, 25) * Pow2(5);
    XorBound(x, v, 30);
    x := Xor(x, v);
    XorBound(x, Term(c0, 0, 0x3b6a57b2), 30);
    x := Xor(x, Term(c0, 0, 0x3b6a57b2));
    XorBound(x, Term(c0, 1, 0x26508e6d), 30);
    x := Xor(x, Term(c0, 1, 0x26508e6d));
    XorBound(x, Term(c0, 2, 0x1ea119fa), 30);
    x := Xor(x, Term(c0, 2, 0x1ea119fa));
    XorBound(x, Term(c0, 3, 0x3d4233dd), 30);
    x := Xor(x, Term(c0, 3, 0x3d4233dd));
    XorBound(x, Term(c0, 4, 0x2a1462b3), 30);
  }

  /** While the highest coefficient is zero a step only appends the value. */
  lemma StepAppends(c: nat, v: nat)
    requires c < Pow2(25) && v < 32
    ensures Step(c, v) == c * 32 + v
  {
    hide Xor;
    Constants();
    assert High(c, 25) == 0 && Low(c, 25) == c;
    XorDisjoint(c, v, 5);
    var x := c * 32 + v;
    XorZero(x);
    NoTerms(x);
  }

  lemma NoTerms(x: nat)
    ensures Reduced(x, 0) == x
  {
    hide Xor;
    forall n: nat ensures !HasBit(0, n) {
      DivMod(0, 0, 0, Pow2(n));
    }
    XorZero(x);
  }

  // ---- injectivity ----

  predicate Odd(a: bool, b: bool, c: bool, d: bool, e: bool) { a != (b != (c != (d != e))) }

  /** Bit n of a state after the reduction, from the bits of the terms. */
  lemma ReducedBit(x: nat, c0: nat, n: nat)
    ensures HasBit(Reduced(x, c0), n) <==>
            HasBit(x, n) != Odd(HasBit(Term(c0, 0, 0x3b6a57b2), n), HasBit(Term(c0, 1, 0x26508e6d), n),
                                HasBit(Term(c0, 2, 0x1ea119fa), n), HasBit(Term(c0, 3, 0x3d4233dd), n),
                                HasBit(Term(c0, 4, 0x2a1462b3), n))
  {
    hide Xor, HasBit, Term;
    var y := x;
    BitXor(y, Term(c0, 0, 0x3b6a57b2), n);
    y := Xor(y, Term(c0, 0, 0x3b6a57b2));
    BitXor(y, Term(c0, 1, 0x26508e6d), n);
    y := Xor(y, Term(c0, 1, 0x26508e6d));
    BitXor(y, Term(c0, 2, 0x1ea119fa), n);
    y := Xor(y, Term(c0, 2, 0x1ea119fa));
    BitXor(y, Term(c0, 3, 0x3d4233dd), n);
    y := Xor(y, Term(c0, 3, 0x3d4233dd));
    BitXor(y, Term(c0, 4, 0x2a1462b3), n);
  }

  lemma TermBit(c0: nat, m: nat, k: nat, n: nat)
    ensures HasBit(Term(c0, m, k), n) <==> HasBit(c0, m) && HasBit(k, n)
  {
    if !HasBit(c0, m) {
      DivMod(0, 0, 0, Pow2(n));
    }
  }

  /** The lowest coefficients of the five terms: 18, 13, 26, 29 and 19, which are independent. */
  lemma LowestBits(n: nat)
    requires n < 5
    ensures HasBit(0x3b6a57b2, n) <==> n == 1 || n == 4
    ensures HasBit(0x26508e6d, n) <==> n == 0 || n == 2 || n == 3
    ensures HasBit(0x1ea119fa, n) <==> n == 1 || n == 3 || n == 4
    ensures HasBit(0x3d4233dd, n) <==> n == 0 || n == 2 || n == 3 || n == 4
    ensures HasBit(0x2a1462b3, n) <==> n == 0 || n == 1 || n == 4
  {
    assert Pow2(0) == 1 && Pow2(1) == 2 && Pow2(2) == 4 && Pow2(3) == 8 && Pow2(4) == 16;
  }

  lemma ReducedLowBit(x: nat, c0: nat, n: nat)
    requires n < 5 && !HasBit(x, n) && !HasBit(Reduced(x, c0), n)
    ensures var b0, b1, b2, b3, b4 := HasBit(c0, 0), HasBit(c0, 1), HasBit(c0, 2), HasBit(c0, 3), HasBit(c0, 4);
            if n == 0 then b1 == (b3 != b4)
            else if n == 1 then b0 == (b2 != b4)
            else if n == 2 then b1 == b3
            else if n == 3 then b1 == (b2 != b3)
            else b0 == (b2 != (b3 != b4))
  {
    hide Xor, HasBit, Term, Reduced;
    ReducedBit(x, c0, n);
    LowestBits(n);
    TermBit(c0, 0, 0x3b6a57b2, n);
    TermBit(c0, 1, 0x26508e6d, n);
    TermBit(c0, 2, 0x1ea119fa, n);
    TermBit(c0, 3, 0x3d4233dd, n);
    TermBit(c0, 4, 0x2a1462b3, n);
  }

  lemma ShiftedBits(x: nat, n: nat)
    requires n < 5
    ensures !HasBit(x * 32, n) && !HasBit(0, n)
  {
    hide Pow2;
    Constants();
    Pow2Add(4 - n, n);
    Pow2Add(1, 4);
    DivMod(0, 0, 0, Pow2(n));
    var p := Pow2(4 - n);
    assert x * 32 == (2 * (x * p)) * Pow2(n) by {
      PowOne();
      assert p * Pow2(n) == 16;
      assert (2 * (x * p)) * Pow2(n) == 2 * x * (p * Pow2(n));
    }
    DivMod(x * 32, 2 * (x * p), 0, Pow2(n));
  }

  lemma PowOne()
    ensures Pow2(1) == 2 && Pow2(4) == 16
  {
  }

  /** A 5-bit number without bits is zero. */
  lemma NoBits(c: nat)
    requires c < 32 && forall n: nat | n < 5 :: !HasBit(c, n)
    ensures c == 0
  {
    assert Pow2(0) == 1 && Pow2(1) == 2 && Pow2(2) == 4 && Pow2(3) == 8 && Pow2(4) == 16;
    assert !HasBit(c, 0) && !HasBit(c, 1) && !HasBit(c, 2) && !HasBit(c, 3) && !HasBit(c, 4);
  }

  /** The step without a value loses nothing. */
  lemma StepInjective(c: nat)
    requires c < Pow2(30) && Step(c, 0) == 0
    ensures c == 0
  {
    hide Xor, HasBit, Term, Reduced, High, Low;
    Constants();
    var x, c0 := Low(c, 25) * 32, High(c, 25);
    XorZero(x);
    forall n: nat | n < 5 ensures !HasBit(x, n) && !HasBit(0, n) {
      ShiftedBits(Low(c, 25), n);
    }
    ReducedLowBit(x, c0, 0);
    ReducedLowBit(x, c0, 1);
    ReducedLowBit(x, c0, 2);
    ReducedLowBit(x, c0, 3);
    ReducedLowBit(x, c0, 4);
    TopFits(c);
    forall n: nat | n < 5 ensures !HasBit(c0, n) {
      assert n == 0 || n == 1 || n == 2 || n == 3 || n == 4;
    }
    NoBits(c0);
    NoTerms(x);
    Whole(c);
  }

  lemma TopFits(c: nat)
    requires c < Pow2(30)
    ensures High(c, 25) < 32
  {
    Constants();
  }

  lemma Whole(c: nat)
    ensures c == High(c, 25) * 0x2000000 + Low(c, 25)
  {
    Constants();
  }

  // ---- whole sequences ----

  function Fold(c: nat, v: seq<nat>): nat {
    if v == [] then c else Step(Fold(c, v[..|v| - 1]), v[|v| - 1])
  }

  predicate Fives(v: seq<nat>) { forall i | 0 <= i < |v| :: v[i] < 32 }

  lemma {:induction false} FoldFits(c: nat, v: seq<nat>)
    requires c < Pow2(30) && Fives(v)
    ensures Fold(c, v) < Pow2(30)
  {
    hide Step;
    if v != [] {
      StepFits(Fold(c, v[..|v| - 1]), v[|v| - 1]);
    }
  }

  lemma FoldLast(c: nat, v: seq<nat>, x: nat)
    ensures Fold(c, v + [x]) == Step(Fold(c, v), x)
  {
    hide Step;
    assert (v + [x])[..|v + [x]| - 1] == v;
  }

  lemma {:induction false} FoldJoin(c: nat, v: seq<nat>, w: seq<nat>)
    ensures Fold(c, v + w) == Fold(Fold(c, v), w)
    decreases |w|
  {
    hide Step;
    if w == [] {
      assert v + w == v;
    } else {
      var n := |w| - 1;
      assert (v + w)[..|v + w| - 1] == v + w[..n];
      FoldJoin(c, v, w[..n]);
    }
  }

  /** Each value of v is the exclusive or of those of w and d. */
  ghost predicate Sums(v: seq<nat>, w: seq<nat>, d: seq<nat>) {
    |v| == |w| == |d| && forall i | 0 <= i < |v| :: v[i] == Xor(w[i], d[i])
  }

  /** The checksum of a sum is the sum of the checksums. */
  lemma {:induction false} FoldLinear(a: nat, b: nat, v: seq<nat>, w: seq<nat>, d: seq<nat>)
    requires Sums(v, w, d)
    ensures Fold(Xor(a, b), v) == Xor(Fold(a, w), Fold(b, d))
  {
    hide Step, Xor;
    if v != [] {
      var n := |v| - 1;
      FoldLinear(a, b, v[..n], w[..n], d[..n]);
      StepLinear(Fold(a, w[..n]), Fold(b, d[..n]), w[n], d[n]);
    }
  }

  /** Zeros behind a state never bring it to zero. */
  lemma {:induction false} FoldZeros(c: nat, v: seq<nat>)
    requires c < Pow2(30) && forall i | 0 <= i < |v| :: v[i] == 0
    ensures Fold(c, v) < Pow2(30) && (Fold(c, v) == 0 <==> c == 0)
  {
    hide Step, Pow2;
    if v != [] {
      var n := |v| - 1;
      FoldZeros(c, v[..n]);
      StepFits(Fold(c, v[..n]), 0);
      Constants();
      StepAppends(0, 0);
      if Step(Fold(c, v[..n]), 0) == 0 {
        StepInjective(Fold(c, v[..n]));
      }
    }
  }

  /** Up to six values fed into nothing are packed as they are. */
  ghost function Packed(v: seq<nat>): nat { if v == [] then 0 else Packed(v[..|v| - 1]) * 32 + v[|v| - 1] }

  lemma {:induction false} FoldPacks(v: seq<nat>)
    requires |v| <= 6 && Fives(v)
    ensures Fold(0, v) == Packed(v) < Room(|v|) && (Packed(v) == 0 <==> forall i | 0 <= i < |v| :: v[i] == 0)
  {
    hide Step, Pow2;
    if v != [] {
      var n := |v| - 1;
      FoldPacks(v[..n]);
      RoomIs();
      RoomMono(n, 5);
      StepAppends(Fold(0, v[..n]), v[n]);
      assert forall i | 0 <= i < n :: v[..n][i] == v[i];
    }
  }

  /** 32^n. */
  ghost function Room(n: nat): nat { if n == 0 then 1 else 32 * Room(n - 1) }

  lemma {:induction false} RoomMono(n: nat, m: nat)
    requires n <= m
    ensures 1 <= Room(n) <= Room(m)
    decreases m
  {
    if n < m {
      RoomMono(n, m - 1);
    } else if m > 0 {
      RoomMono(m - 1, m - 1);
    }
  }

  lemma RoomIs()
    ensures Room(5) == Pow2(25) && Room(6) == Pow2(30)
  {
    Constants();
    assert Room(2) == 1024;
    assert Room(4) == 1048576;
  }

  /** Two sequences that differ only within six neighbouring values have different checksums. */
  lemma BurstDetected(c: nat, v: seq<nat>, w: seq<nat>, lo: nat, hi: nat)
    requires c < Pow2(30) && |v| == |w| && lo <= hi <= |v| && hi - lo <= 6 && Fives(v) && Fives(w) && v != w
    requires forall i | 0 <= i < |v| && !(lo <= i < hi) :: v[i] == w[i]
    ensures Fold(c, v) != Fold(c, w)
  {
    hide Step, Pow2, Xor;
    var d := seq(|v|, i requires 0 <= i < |v| => Xor(v[i], w[i]));
    forall i | 0 <= i < |v| ensures w[i] == Xor(v[i], d[i]) && d[i] < 32 && (d[i] == 0 <==> v[i] == w[i]) {
      XorBack(v[i], w[i]);
    }
    FoldLinear(c, 0, w, v, d);
    XorZero(c);
    Constants();
    BurstNonzero(d, lo, hi);
    XorApart(Fold(c, v), Fold(0, d));
  }

  lemma XorBack(x: nat, y: nat)
    requires x < 32 && y < 32
    ensures y == Xor(x, Xor(x, y)) && Xor(x, y) < 32 && (Xor(x, y) == 0 <==> x == y)
  {
    hide Xor, Pow2;
    XorAssoc(x, x, y);
    XorZero(x);
    XorZero(y);
    Constants();
    XorBound(x, y, 5);
  }

  lemma XorApart(x: nat, d: nat)
    requires d != 0
    ensures Xor(x, d) != x
  {
    hide Xor;
    XorAssoc(x, x, d);
    XorZero(x);
    XorZero(d);
  }

  lemma BurstNonzero(d: seq<nat>, lo: nat, hi: nat)
    requires lo <= hi <= |d| && hi - lo <= 6 && Fives(d) && (forall i | 0 <= i < |d| && !(lo <= i < hi) :: d[i] == 0)
    requires exists i :: 0 <= i < |d| && d[i] != 0
    ensures Fold(0, d) != 0
  {
    hide Step, Pow2, Fold, Packed;
    var a, b, e := d[..lo], d[lo..hi], d[hi..];
    var i :| 0 <= i < |d| && d[i] != 0;
    assert b[i - lo] == d[i];
    Constants();
    FoldZeros(0, a);
    FoldPacks(b);
    RoomIs();
    RoomMono(|b|, 6);
    FoldZeros(Fold(0, b), e);
    FoldThree(d, lo, hi);
  }

  lemma FoldThree(d: seq<nat>, lo: nat, hi: nat)
    requires lo <= hi <= |d|
    ensures Fold(0, d) == Fold(Fold(Fold(0, d[..lo]), d[lo..hi]), d[hi..])
  {
    hide Fold;
    assert d == d[..hi] + d[hi..];
    assert d[..hi] == d[..lo] + d[lo..hi];
    FoldJoin(0, d[..hi], d[hi..]);
    FoldJoin(0, d[..lo], d[lo..hi]);
  }
}
