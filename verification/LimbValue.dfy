/**
 Numbers as 32-bit limbs, least significant first, and what carries, shifts and comparisons do to them
 (src/arith_uint256.cpp).
 */
module LimbValue {
  import opened Powers

  const BASE: nat := 0x1_0000_0000

  function Weight(i: nat): (r: nat)
    ensures r >= 1
  {
    if i == 0 then 1 else BASE * Weight(i - 1)
  }

  ghost predicate Limbs(s: seq<nat>) { forall i | 0 <= i < |s| :: s[i] < BASE }

  /** The number in the first i limbs. */
  ghost function Part(s: seq<nat>, i: nat): nat
    requires i <= |s|
  {
    if i == 0 then 0 else Part(s, i - 1) + s[i - 1] * Weight(i - 1)
  }

  ghost function Value(s: seq<nat>): nat { Part(s, |s|) }

  lemma {:induction false} PartBound(s: seq<nat>, i: nat)
    requires i <= |s| && Limbs(s)
    ensures Part(s, i) < Weight(i)
  {
    if i > 0 {
      PartBound(s, i - 1);
      Scale(s[i - 1], BASE - 1, Weight(i - 1));
      assert (BASE - 1) * Weight(i - 1) == Weight(i) - Weight(i - 1);
    }
  }

  lemma {:induction false} PartSame(s: seq<nat>, t: seq<nat>, i: nat)
    requires i <= |s| && i <= |t| && forall j | 0 <= j < i :: s[j] == t[j]
    ensures Part(s, i) == Part(t, i)
  {
    if i > 0 {
      PartSame(s, t, i - 1);
    }
  }

  // ---- the steps of the loops ----

  /** One step of an addition, subtraction or multiplication loop, on the numbers so far. */
  lemma CarryStep(low: int, carry: int, part: int, n: int, x: int, w: nat, limb: nat, carry': nat)
    requires low + carry * w == part && n == carry + x && n == carry' * BASE + limb
    ensures low + limb * w + carry' * (BASE * w) == part + x * w
  {
    assert n * w == carry * w + x * w;
    assert n * w == carry' * (BASE * w) + limb * w;
  }

  lemma Split(n: nat)
    ensures n == (n / BASE) * BASE + n % BASE && n % BASE < BASE
  {
  }

  /** After the last limb the carry is what the result misses of the number. */
  lemma Truncated(r: seq<nat>, carry: nat, x: nat)
    requires Limbs(r) && Value(r) + carry * Weight(|r|) == x
    ensures Value(r) == x % Weight(|r|)
  {
    PartBound(r, |r|);
    DivMod(x, carry, Value(r), Weight(|r|));
  }

  // ---- comparison ----

  /** Equal limbs above and a smaller limb make a smaller number. */
  lemma {:induction false} Smaller(s: seq<nat>, t: seq<nat>, i: nat, n: nat)
    requires Limbs(s) && Limbs(t) && i < n <= |s| == |t| && s[i] < t[i] && forall j | i < j < n :: s[j] == t[j]
    ensures Part(s, n) < Part(t, n)
    decreases n
  {
    if n == i + 1 {
      PartBound(s, i);
      Scale(s[i] + 1, t[i], Weight(i));
      assert (s[i] + 1) * Weight(i) == s[i] * Weight(i) + Weight(i);
    } else {
      Smaller(s, t, i, n - 1);
    }
  }

  /** Numbers of the same width are equal exactly if their limbs are. */
  lemma ValueInjective(s: seq<nat>, t: seq<nat>)
    requires Limbs(s) && Limbs(t) && |s| == |t| && Value(s) == Value(t)
    ensures s == t
  {
    TopDifference(s, t, |s|);
  }

  lemma {:induction false} TopDifference(s: seq<nat>, t: seq<nat>, n: nat)
    requires Limbs(s) && Limbs(t) && |s| == |t| && n <= |s| && Part(s, n) == Part(t, n)
    ensures forall j | 0 <= j < n :: s[j] == t[j]
  {
    if n > 0 {
      if s[n - 1] < t[n - 1] {
        Smaller(s, t, n - 1, n);
      } else if s[n - 1] > t[n - 1] {
        Smaller(t, s, n - 1, n);
      } else {
        TopDifference(s, t, n - 1);
      }
    }
  }

  // ---- complement ----

  lemma {:induction false} Complement(s: seq<nat>, c: seq<nat>, i: nat)
    requires Limbs(s) && i <= |s| == |c| && forall j | 0 <= j < |s| :: c[j] == BASE - 1 - s[j]
    ensures Part(c, i) == Weight(i) - 1 - Part(s, i)
  {
    if i > 0 {
      Complement(s, c, i - 1);
      var w := Weight(i - 1);
      assert c[i - 1] * w == (BASE - 1) * w - s[i - 1] * w;
      assert (BASE - 1) * w == Weight(i) - w;
    }
  }

  // ---- bits ----

  /** The bitwise or of two numbers. */
  function Or(x: nat, y: nat): nat
    decreases x + y
  {
    if x == 0 && y == 0 then 0 else 2 * Or(x / 2, y / 2) + if x % 2 == 1 || y % 2 == 1 then 1 else 0
  }

  lemma {:induction false} OrDisjoint(q: nat, y: nat, s: nat)
    requires y < Pow2(s)
    ensures Or(q * Pow2(s), y) == q * Pow2(s) + y
    decreases s
  {
    if s == 0 {
      OrZero(q);
      assert q * Pow2(s) == q && y == 0;
    } else {
      assert q * Pow2(s) == 2 * (q * Pow2(s - 1));
      OrDisjoint(q, y / 2, s - 1);
    }
  }

  lemma {:induction false} OrZero(x: nat)
    ensures Or(x, 0) == x
  {
    if x > 0 {
      OrZero(x / 2);
    }
  }

  lemma Pow2Base()
    ensures Pow2(32) == BASE
  {
    assert Pow2(8) == 256;
    Pow2Add(8, 8);
    Pow2Add(16, 16);
  }

  lemma {:induction false} WeightPow2(i: nat)
    ensures Weight(i) == Pow2(32 * i)
  {
    if i > 0 {
      WeightPow2(i - 1);
      Pow2Base();
      Pow2Add(32, 32 * (i - 1));
    }
  }

  lemma {:induction false} WeightAdd(a: nat, b: nat)
    ensures Weight(a + b) == Weight(a) * Weight(b)
  {
    if a > 0 {
      WeightAdd(a - 1, b);
      assert BASE * (Weight(a - 1) * Weight(b)) == BASE * Weight(a - 1) * Weight(b);
    }
  }

  lemma PartNext(s: seq<nat>, i: nat)
    requires i < |s|
    ensures Part(s, i + 1) == Part(s, i) + s[i] * Weight(i)
  {
  }

  lemma WeightNext(i: nat)
    ensures Weight(i + 1) == BASE * Weight(i)
  {
  }

  /** A number split at a limb. */
  lemma {:induction false} PartSplit(s: seq<nat>, k: nat, n: nat)
    requires k <= n <= |s|
    ensures Part(s, n) == Part(s, k) + Weight(k) * Part(s[k..], n - k)
    decreases n
  {
    if n > k {
      PartSplit(s, k, n - 1);
      WeightAdd(k, n - 1 - k);
      assert s[k..][n - 1 - k] == s[n - 1];
      Distribute(Weight(k), Part(s[k..], n - 1 - k), s[n - 1], Weight(n - 1 - k));
    }
  }

  lemma Distribute(w: nat, part: nat, limb: nat, v: nat)
    ensures w * (part + limb * v) == w * part + limb * (w * v)
  {
    assert w * (part + limb * v) == w * part + w * (limb * v);
    assert w * (limb * v) == limb * (w * v);
  }

  /** Changing one limb. */
  lemma {:induction false} PartUpdate(s: seq<nat>, i: nat, x: nat, n: nat)
    requires i < |s| && n <= |s|
    ensures Part(s[i := x], n) == if i < n then Part(s, n) - s[i] * Weight(i) + x * Weight(i) else Part(s, n)
  {
    if n > 0 {
      PartUpdate(s, i, x, n - 1);
    }
  }

  /** Writing the next limb of a number under construction. */
  lemma PartWrite(s: seq<nat>, i: nat, x: nat)
    requires i < |s|
    ensures Part(s[i := x], i + 1) == Part(s, i) + x * Weight(i)
  {
    PartUpdate(s, i, x, i + 1);
  }

  lemma {:induction false} OrComm(x: nat, y: nat)
    ensures Or(x, y) == Or(y, x)
    decreases x + y
  {
    if x > 0 || y > 0 {
      OrComm(x / 2, y / 2);
    }
  }

  lemma {:induction false} PartOfZeros(s: seq<nat>, n: nat)
    requires n <= |s| && forall i | 0 <= i < n :: s[i] == 0
    ensures Part(s, n) == 0
  {
    if n > 0 {
      PartOfZeros(s, n - 1);
    }
  }
}
