/** Shifts of limb numbers: limb by limb, and what they mean (src/arith_uint256.cpp:23-55). */
module LimbShift {
  import opened Powers
  import opened LimbValue

  /** The part of a limb shifted left by s that stays in its limb, and the part that goes to the next. */
  function Stays(x: nat, s: nat): nat { x * Pow2(s) % BASE }
  function Moves(x: nat, s: nat): nat { x * Pow2(s) / BASE }

  /** a << (32 k + s), limb by limb. */
  ghost predicate ShiftedLeft(a: seq<nat>, r: seq<nat>, k: nat, s: nat) {
    |r| == |a| && forall m | 0 <= m < |r| ::
      r[m] == (if m >= k then Stays(a[m - k], s) else 0) + if m >= k + 1 then Moves(a[m - k - 1], s) else 0
  }

  lemma {:induction false} LeftPart(a: seq<nat>, r: seq<nat>, k: nat, s: nat, m: nat)
    requires ShiftedLeft(a, r, k, s) && m <= |a|
    ensures m <= k ==> Part(r, m) == 0
    ensures m > k ==> Part(r, m) + Moves(a[m - k - 1], s) * Weight(m) == Part(a, m - k) * Pow2(s) * Weight(k)
  {
    if m > 0 {
      LeftPart(a, r, k, s, m - 1);
      if m > k {
        LeftStep(a, r, k, s, m - 1);
      }
    }
  }

  /** The limb at m, with what moves on from it, is the limb at m - k shifted, with what moved in. */
  lemma LeftStep(a: seq<nat>, r: seq<nat>, k: nat, s: nat, m: nat)
    requires ShiftedLeft(a, r, k, s) && k <= m < |a|
    requires var moved := if m > k then Moves(a[m - k - 1], s) else 0;
             Part(r, m) + moved * Weight(m) == Part(a, m - k) * Pow2(s) * Weight(k)
    ensures Part(r, m + 1) + Moves(a[m - k], s) * Weight(m + 1) == Part(a, m + 1 - k) * Pow2(s) * Weight(k)
  {
    hide Stays, Moves, Part, Weight, Pow2;
    var moved := if m > k then Moves(a[m - k - 1], s) else 0;
    var x := a[m - k] * Pow2(s);
    SplitShift(a[m - k], s);
    PartNext(r, m);
    PartNext(a, m - k);
    WeightNext(m);
    WeightAdd(m - k, k);
    CarryStep(Part(r, m) , moved, Part(a, m - k) * Pow2(s) * Weight(k), moved + x, x, Weight(m), r[m],
              Moves(a[m - k], s));
    Regroup(Part(a, m - k), a[m - k], Weight(m - k), Pow2(s), Weight(k));
  }

  lemma Regroup(part: nat, limb: nat, w: nat, p: nat, v: nat)
    ensures (part + limb * w) * p * v == part * p * v + limb * p * (w * v)
  {
    assert (part + limb * w) * p == part * p + limb * w * p;
    assert (part * p + limb * w * p) * v == part * p * v + limb * w * p * v;
    assert limb * w * p * v == limb * p * (w * v);
  }

  lemma SplitShift(x: nat, s: nat)
    ensures x * Pow2(s) == Moves(x, s) * BASE + Stays(x, s)
  {
  }

  /** What stays and what moves, for a whole limb: disjoint bits. */
  lemma Pieces(x: nat, s: nat)
    requires x < BASE && s < 32
    ensures Moves(x, s) == x / Pow2(32 - s) < Pow2(s) && Stays(x, s) == x % Pow2(32 - s) * Pow2(s)
    ensures Stays(x, s) + Pow2(s) <= BASE
  {
    hide Pow2;
    var p, q := Pow2(s), Pow2(32 - s);
    Pow2Base();
    Pow2Add(s, 32 - s);
    LessProduct(x % q, q, p);
    ShiftSplit(x, p, q);
    DivMod(x * p, x / q, x % q * p, BASE);
    LessQuotient(x, q, p);
  }

  lemma ShiftSplit(x: nat, p: nat, q: nat)
    requires q > 0
    ensures x * p == x / q * (p * q) + x % q * p
  {
    var hi, lo := x / q, x % q;
    assert x == hi * q + lo;
    assert (hi * q + lo) * p == hi * q * p + lo * p;
    assert hi * q * p == hi * (p * q);
  }

  lemma LeftLimbs(a: seq<nat>, r: seq<nat>, k: nat, s: nat)
    requires ShiftedLeft(a, r, k, s) && Limbs(a) && s < 32
    ensures Limbs(r)
  {
    hide Stays, Moves;
    forall m | 0 <= m < |r| ensures r[m] < BASE {
      if m >= k {
        Pieces(a[m - k], s);
        if m >= k + 1 {
          Pieces(a[m - k - 1], s);
        }
      }
    }
  }

  /** Shifting left multiplies by the power of two, within the width. */
  lemma LeftValue(a: seq<nat>, r: seq<nat>, k: nat, s: nat)
    requires ShiftedLeft(a, r, k, s) && Limbs(a) && s < 32
    ensures Limbs(r) && Value(r) == Value(a) * Pow2(32 * k + s) % Weight(|a|)
  {
    hide ShiftedLeft, Part, Weight, Pow2;
    var n := |a|;
    LeftSize(a, r, k, s);
    LeftLimbs(a, r, k, s);
    LeftPart(a, r, k, s, n);
    WeightPow2(k);
    Pow2Add(s, 32 * k);
    var p, v := Pow2(s), Weight(k);
    assert Value(a) * Pow2(32 * k + s) == Value(a) * p * v by {
      assert Value(a) * (p * v) == Value(a) * p * v;
    }
    if k >= n {
      WeightAdd(n, k - n);
      assert Value(a) * p * (Weight(n) * Weight(k - n)) == Value(a) * p * Weight(k - n) * Weight(n);
      Truncated(r, Value(a) * p * Weight(k - n), Value(a) * p * v);
    } else {
      PartSplit(a, n - k, n);
      WeightAdd(n - k, k);
      var rest := Part(a[n - k..], k);
      Regroup(Part(a, n - k), rest, Weight(n - k), p, v);
      assert Weight(n - k) * rest == rest * Weight(n - k);
      var moved := Moves(a[n - k - 1], s);
      assert (moved + rest * p) * Weight(n) == moved * Weight(n) + rest * p * Weight(n);
      Truncated(r, moved + rest * p, Value(a) * p * v);
    }
  }

  lemma LeftSize(a: seq<nat>, r: seq<nat>, k: nat, s: nat)
    requires ShiftedLeft(a, r, k, s)
    ensures |r| == |a|
  {
  }

  // ---- right ----

  /** The bits of a limb that fall out of it to the right, at the top of the limb below. */
  function Falls(x: nat, s: nat): nat
    requires s <= 32
  {
    x % Pow2(s) * Pow2(32 - s)
  }

  /** What is left of a limb shifted right. */
  function Kept(x: nat, s: nat): nat { Quotient(x, Pow2(s)) }

  /** a >> (32 k + s), limb by limb. */
  ghost predicate ShiftedRight(a: seq<nat>, r: seq<nat>, k: nat, s: nat)
    requires s < 32
  {
    |r| == |a| && forall m | 0 <= m < |r| ::
      r[m] == (if m + k < |a| then Kept(a[m + k], s) else 0) + if m + k + 1 < |a| then Falls(a[m + k + 1], s) else 0
  }

  /** The bits lost at the bottom, if the number from limb k on has m limbs or more. */
  ghost function LowBits(a: seq<nat>, i: nat, s: nat): nat { if i < |a| then a[i] % Pow2(s) else 0 }

  lemma {:induction false} RightPart(a: seq<nat>, r: seq<nat>, k: nat, s: nat, m: nat)
    requires s < 32 && ShiftedRight(a, r, k, s) && k + m <= |a|
    ensures Part(r, m) * Pow2(s) + LowBits(a, k, s) == Part(a[k..], m) + LowBits(a, k + m, s) * Weight(m)
  {
    if m > 0 {
      RightPart(a, r, k, s, m - 1);
      RightStep(a, r, k, s, m - 1);
    }
  }

  lemma RightStep(a: seq<nat>, r: seq<nat>, k: nat, s: nat, m: nat)
    requires s < 32 && ShiftedRight(a, r, k, s) && k + m < |a|
    requires Part(r, m) * Pow2(s) + LowBits(a, k, s) == Part(a[k..], m) + LowBits(a, k + m, s) * Weight(m)
    ensures Part(r, m + 1) * Pow2(s) + LowBits(a, k, s) ==
            Part(a[k..], m + 1) + LowBits(a, k + m + 1, s) * Weight(m + 1)
  {
    hide Part, Weight, Pow2;
    var p, w, x := Pow2(s), Weight(m), a[m + k];
    PartNext(r, m);
    PartNext(a[k..], m);
    WeightNext(m);
    Pow2Base();
    Pow2Add(32 - s, s);
    var next := LowBits(a, k + m + 1, s);
    RightLimb(x, p, next, Pow2(32 - s));
    RightAlgebra(Part(r, m), r[m], w, p, x, x % p, next);
  }

  lemma RightLimb(x: nat, p: nat, next: nat, q: nat)
    requires p > 0
    ensures (x / p + next * q) * p == (x - x % p) + next * (q * p)
  {
    assert x == x / p * p + x % p;
    assert (x / p + next * q) * p == x / p * p + next * q * p;
    assert next * q * p == next * (q * p);
  }

  lemma RightAlgebra(part: nat, limb: nat, w: nat, p: nat, x: nat, low: nat, next: nat)
    requires limb * p == (x - low) + next * BASE
    ensures (part + limb * w) * p == part * p + (x * w - low * w) + next * (BASE * w)
  {
    assert (part + limb * w) * p == part * p + limb * w * p;
    assert limb * w * p == limb * p * w;
    assert ((x - low) + next * BASE) * w == x * w - low * w + next * BASE * w;
    assert next * BASE * w == next * (BASE * w);
  }

  lemma {:induction false} ZeroAbove(r: seq<nat>, m: nat, n: nat)
    requires m <= n <= |r| && forall j | m <= j < n :: r[j] == 0
    ensures Part(r, n) == Part(r, m)
    decreases n
  {
    if n > m {
      ZeroAbove(r, m, n - 1);
    }
  }

  lemma RightLimbs(a: seq<nat>, r: seq<nat>, k: nat, s: nat)
    requires s < 32 && ShiftedRight(a, r, k, s) && Limbs(a)
    ensures Limbs(r)
  {
    hide Pow2;
    Pow2Base();
    Pow2Add(s, 32 - s);
    forall m | 0 <= m < |r| ensures r[m] < BASE {
      if m + k < |a| {
        LessQuotient(a[m + k], Pow2(s), Pow2(32 - s));
        if m + k + 1 < |a| {
          LessProduct(a[m + k + 1] % Pow2(s), Pow2(s), Pow2(32 - s));
        }
      }
    }
  }

  /** Shifting right divides by the power of two. */
  lemma RightValue(a: seq<nat>, r: seq<nat>, k: nat, s: nat)
    requires s < 32 && ShiftedRight(a, r, k, s) && Limbs(a)
    ensures Limbs(r) && Value(r) == Value(a) / Pow2(32 * k + s)
  {
    hide Part, Weight, Pow2, Limbs;
    RightLimbs(a, r, k, s);
    WeightPow2(k);
    Pow2Add(32 * k, s);
    if k >= |a| {
      RightAll(a, r, k, s);
    } else {
      RightSome(a, r, k, s);
    }
  }

  lemma RightAll(a: seq<nat>, r: seq<nat>, k: nat, s: nat)
    requires s < 32 && ShiftedRight(a, r, k, s) && Limbs(a) && k >= |a|
    ensures Value(r) == Value(a) / (Weight(k) * Pow2(s))
  {
    hide Part, Weight, Pow2;
    var n := |a|;
    PartBound(a, n);
    ZeroAbove(r, 0, n);
    PartZero(r);
    WeightAdd(n, k - n);
    Scale(1, Weight(k - n), Weight(n));
    Scale(1, Pow2(s), Weight(k));
    assert Value(a) < Weight(k) * Pow2(s);
    DivMod(Value(a), 0, Value(a), Weight(k) * Pow2(s));
  }

  lemma RightSome(a: seq<nat>, r: seq<nat>, k: nat, s: nat)
    requires s < 32 && ShiftedRight(a, r, k, s) && Limbs(a) && k < |a|
    ensures Value(r) == Value(a) / (Weight(k) * Pow2(s))
  {
    hide Part, Weight, Pow2;
    var n := |a|;
    PartBound(a, k);
    RightPart(a, r, k, s, n - k);
    ZeroAbove(r, n - k, n);
    PartSplit(a, k, n);
    var c := Part(a[k..], n - k);
    DivMod(c, Value(r), LowBits(a, k, s), Pow2(s));
    TwoDivisions(Value(a), Weight(k), Pow2(s), c, Part(a, k));
  }

  lemma PartZero(r: seq<nat>)
    ensures Part(r, 0) == 0
  {
  }

}
