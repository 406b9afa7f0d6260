/** Exclusive or of natural numbers, bit by bit. */
module XorBits {
  import opened Powers

  function Xor(x: nat, y: nat): nat
    decreases x + y
  {
    if x == 0 && y == 0 then 0 else 2 * Xor(x / 2, y / 2) + if x % 2 != y % 2 then 1 else 0
  }

  lemma {:induction false} XorZero(x: nat)
    ensures Xor(x, 0) == x && Xor(0, x) == x && Xor(x, x) == 0
  {
    if x > 0 {
      XorZero(x / 2);
    }
  }

  lemma {:induction false} XorComm(x: nat, y: nat)
    ensures Xor(x, y) == Xor(y, x)
    decreases x + y
  {
    if x > 0 || y > 0 {
      XorComm(x / 2, y / 2);
    }
  }

  lemma XorHalf(x: nat, y: nat)
    ensures Xor(x, y) / 2 == Xor(x / 2, y / 2) && Xor(x, y) % 2 == (if x % 2 != y % 2 then 1 else 0)
  {
  }

  lemma {:induction false} XorAssoc(x: nat, y: nat, z: nat)
    ensures Xor(Xor(x, y), z) == Xor(x, Xor(y, z))
    decreases x + y + z
  {
    if x > 0 || y > 0 || z > 0 {
      XorHalf(x, y);
      XorHalf(y, z);
      XorAssoc(x / 2, y / 2, z / 2);
      XorHalf(Xor(x, y), z);
      XorHalf(x, Xor(y, z));
    }
  }

  lemma Exchange(a: nat, b: nat, c: nat, d: nat)
    ensures Xor(Xor(a, b), Xor(c, d)) == Xor(Xor(a, c), Xor(b, d))
  {
    hide Xor;
    XorAssoc(a, b, Xor(c, d));
    XorAssoc(b, c, d);
    XorComm(b, c);
    XorAssoc(c, b, d);
    XorAssoc(a, c, Xor(b, d));
  }

  // ---- the bits above and below a position ----

  function High(x: nat, k: nat): nat { Quotient(x, Pow2(k)) }
  function Low(x: nat, k: nat): nat { x % Pow2(k) }

  lemma HighLow(x: nat, k: nat)
    ensures High(x, k + 1) == High(x / 2, k) && Low(x, k + 1) / 2 == Low(x / 2, k) && Low(x, k + 1) % 2 == x % 2
  {
    var p := Pow2(k);
    var h := x / 2;
    var q, r := h / p, h % p;
    assert h == q * p + r;
    assert q * (2 * p) == 2 * (q * p);
    DivMod(x, q, 2 * r + x % 2, 2 * p);
  }

  lemma HighLowZero(x: nat)
    ensures High(x, 0) == x && Low(x, 0) == 0
  {
    assert Pow2(0) == 1;
  }

  lemma {:induction false} XorSplit(x: nat, y: nat, k: nat)
    ensures High(Xor(x, y), k) == Xor(High(x, k), High(y, k))
    ensures Low(Xor(x, y), k) == Xor(Low(x, k), Low(y, k))
    decreases k
  {
    hide High, Low, Pow2, Xor;
    if k == 0 {
      HighLowZero(x);
      HighLowZero(y);
      HighLowZero(Xor(x, y));
      XorZero(0);
    } else {
      XorHalf(x, y);
      XorSplit(x / 2, y / 2, k - 1);
      HighLow(x, k - 1);
      HighLow(y, k - 1);
      HighLow(Xor(x, y), k - 1);
      XorHalf(Low(x, k), Low(y, k));
    }
  }

  lemma DoubleXor(x: nat, y: nat, b: nat)
    requires b < 2
    ensures Xor(2 * x, 2 * y + b) == 2 * Xor(x, y) + b
  {
    assert 2 * x / 2 == x && (2 * y + b) / 2 == y;
  }

  /** Numbers without a bit in common are added. */
  lemma {:induction false} XorDisjoint(q: nat, y: nat, s: nat)
    requires y < Pow2(s)
    ensures Xor(q * Pow2(s), y) == q * Pow2(s) + y
    decreases s
  {
    hide Xor;
    if s == 0 {
      XorZero(q);
      assert q * Pow2(s) == q && y == 0;
    } else {
      assert q * Pow2(s) == 2 * (q * Pow2(s - 1));
      XorDisjoint(q, y / 2, s - 1);
      DoubleXor(q * Pow2(s - 1), y / 2, y % 2);
    }
  }

  lemma {:induction false} XorScale(x: nat, y: nat, s: nat)
    ensures Xor(x * Pow2(s), y * Pow2(s)) == Xor(x, y) * Pow2(s)
    decreases s
  {
    hide Xor;
    if s == 0 {
      assert x * Pow2(s) == x && y * Pow2(s) == y;
    } else {
      var p := Pow2(s - 1);
      XorScale(x, y, s - 1);
      DoubleXor(x * p, y * p, 0);
      assert x * (2 * p) == 2 * (x * p) && y * (2 * p) == 2 * (y * p) && Xor(x, y) * (2 * p) == 2 * (Xor(x, y) * p);
    }
  }

  lemma {:induction false} XorBound(x: nat, y: nat, s: nat)
    requires x < Pow2(s) && y < Pow2(s)
    ensures Xor(x, y) < Pow2(s)
    decreases s
  {
    if s > 0 && (x > 0 || y > 0) {
      XorBound(x / 2, y / 2, s - 1);
    }
  }
}
