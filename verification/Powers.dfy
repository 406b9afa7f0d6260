/** Powers of two, quotients and remainders. */
module Powers {
  const TWO_32: nat := 0x1_0000_0000

  function Pow2(n: nat): (r: nat)
    ensures r >= 1
  {
    if n == 0 then 1 else 2 * Pow2(n - 1)
  }

  function Quotient(a: nat, b: nat): nat
    requires b > 0
  {
    a / b
  }

  lemma Scale(a: int, b: int, w: nat)
    requires a <= b
    ensures a * w <= b * w
  {
  }

  /** A number below the weight and the multiples of the weight above it are told apart by remainder and quotient. */
  lemma DivMod(x: nat, q: nat, r: nat, m: nat)
    requires m > 0 && x == q * m + r && r < m
    ensures x / m == q && x % m == r
  {
    assert x / m == q by {
      DivUnique(x, q, r, m);
    }
  }

  lemma DivUnique(x: nat, q: nat, r: nat, m: nat)
    requires m > 0 && x == q * m + r && r < m
    ensures x / m == q
  {
    var p := x / m;
    assert x == p * m + x % m;
    assert (p - q) * m == r - x % m;
    if p > q {
      Scale(1, p - q, m);
    } else if p < q {
      Scale(p - q, -1, m);
    }
  }

  lemma {:induction false} Pow2Add(a: nat, b: nat)
    ensures Pow2(a + b) == Pow2(a) * Pow2(b)
  {
    if a > 0 {
      Pow2Add(a - 1, b);
      assert 2 * (Pow2(a - 1) * Pow2(b)) == 2 * Pow2(a - 1) * Pow2(b);
    }
  }

  lemma {:induction false} Pow2Mono(a: nat, b: nat)
    requires a <= b
    ensures Pow2(a) <= Pow2(b)
  {
    if a < b {
      Pow2Mono(a, b - 1);
    }
  }

  lemma LessProduct(lo: nat, q: nat, p: nat)
    requires lo < q && p > 0
    ensures lo * p + p <= p * q
  {
    Scale(lo + 1, q, p);
    assert (lo + 1) * p == lo * p + p;
  }

  lemma LessQuotient(x: nat, q: nat, p: nat)
    requires q > 0 && x < p * q
    ensures x / q < p
  {
    var d := x / q;
    assert d * q <= x;
    if d >= p {
      Scale(p, d, q);
    }
  }

  lemma TwoDivisions(x: nat, w: nat, p: nat, c: nat, low: nat)
    requires w > 0 && p > 0 && x == c * w + low && low < w
    ensures x / (w * p) == c / p
  {
    var q, r := c / p, c % p;
    assert c == q * p + r;
    LessProduct(r, p, w);
    assert x == q * (w * p) + (r * w + low) by {
      assert (q * p + r) * w == q * p * w + r * w;
      assert q * p * w == q * (w * p);
    }
    assert w * p == p * w;
    DivMod(x, q, r * w + low, w * p);
  }
}
