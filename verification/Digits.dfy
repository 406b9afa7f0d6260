/** Numbers written in a base, most significant digit first. */
module Digits {
  import opened Powers

  function Pow(b: nat, n: nat): nat { if n == 0 then 1 else b * Pow(b, n - 1) }

  lemma {:induction false} PowPositive(b: nat, n: nat)
    requires b > 0
    ensures Pow(b, n) >= 1
  {
    if n > 0 {
      PowPositive(b, n - 1);
      Scale(1, b, Pow(b, n - 1));
    }
  }

  lemma {:induction false} PowAdd(b: nat, m: nat, n: nat)
    ensures Pow(b, m + n) == Pow(b, m) * Pow(b, n)
  {
    if m > 0 {
      PowAdd(b, m - 1, n);
      assert b * (Pow(b, m - 1) * Pow(b, n)) == b * Pow(b, m - 1) * Pow(b, n);
    } else {
      assert Pow(b, 0) * Pow(b, n) == Pow(b, n);
    }
  }

  lemma {:induction false} PowMul(b: nat, m: nat, n: nat)
    ensures Pow(b, m * n) == Pow(Pow(b, m), n)
    decreases n
  {
    if n > 0 {
      PowMul(b, m, n - 1);
      PowAdd(b, m, m * (n - 1));
      assert m * n == m + m * (n - 1);
    } else {
      assert m * n == 0;
    }
  }

  lemma PowMono(b: nat, m: nat, n: nat)
    requires b > 0 && m <= n
    ensures Pow(b, m) <= Pow(b, n)
  {
    PowAdd(b, n - m, m);
    PowPositive(b, n - m);
    Scale(1, Pow(b, n - m), Pow(b, m));
  }

  lemma {:induction false} PowBase(a: nat, b: nat, n: nat)
    requires a <= b
    ensures Pow(a, n) <= Pow(b, n)
  {
    if n > 0 {
      PowBase(a, b, n - 1);
      Scale(a, b, Pow(a, n - 1));
      Scale(Pow(a, n - 1), Pow(b, n - 1), b);
    }
  }

  lemma {:induction false} PowStrict(a: nat, b: nat, n: nat)
    requires a < b && n > 0
    ensures Pow(a, n) < Pow(b, n)
  {
    PowBase(a, b, n - 1);
    PowPositive(b, n - 1);
    Scale(Pow(a, n - 1), Pow(b, n - 1), a);
    Scale(a + 1, b, Pow(b, n - 1));
    assert (a + 1) * Pow(b, n - 1) == a * Pow(b, n - 1) + Pow(b, n - 1);
    assert a * Pow(a, n - 1) <= a * Pow(b, n - 1);
  }

  /** If q digits of base a fit into p digits of base b, n digits fit into any number above n p / q. */
  lemma Fits(a: nat, b: nat, p: nat, q: nat, n: nat, size: nat)
    requires a > 0 && b > 0 && q > 0 && Pow(a, q) <= Pow(b, p) && p * n <= q * size
    ensures Pow(a, n) <= Pow(b, size)
  {
    hide Pow;
    var m, k := p * n, q * size;
    Above(a, b, p, q, n, m);
    PowMono(b, m, k);
    Below(b, q, size, k);
    Root(Pow(a, n), Pow(b, size), q);
  }

  lemma Above(a: nat, b: nat, p: nat, q: nat, n: nat, m: nat)
    requires Pow(a, q) <= Pow(b, p) && m == p * n
    ensures Pow(Pow(a, n), q) <= Pow(b, m)
  {
    hide Pow;
    SwapPowers(a, n, q);
    PowBase(Pow(a, q), Pow(b, p), n);
    PowMul(b, p, n);
  }

  lemma Below(b: nat, q: nat, size: nat, k: nat)
    requires k == q * size
    ensures Pow(b, k) == Pow(Pow(b, size), q)
  {
    hide Pow;
    PowMul(b, q, size);
    SwapPowers(b, size, q);
  }

  lemma Root(x: nat, y: nat, q: nat)
    requires q > 0 && Pow(x, q) <= Pow(y, q)
    ensures x <= y
  {
    hide Pow;
    if x > y {
      PowStrict(y, x, q);
    }
  }

  lemma SwapPowers(a: nat, n: nat, q: nat)
    ensures Pow(Pow(a, n), q) == Pow(Pow(a, q), n)
  {
    hide Pow;
    PowMul(a, n, q);
    PowMul(a, q, n);
    assert n * q == q * n;
  }

  // ---- values ----

  ghost predicate InBase(s: seq<nat>, b: nat) { forall i | 0 <= i < |s| :: s[i] < b }

  ghost function Value(s: seq<nat>, b: nat): nat { if s == [] then 0 else Value(s[..|s| - 1], b) * b + s[|s| - 1] }

  lemma ValueNext(s: seq<nat>, x: nat, b: nat)
    ensures Value(s + [x], b) == Value(s, b) * b + x
  {
    assert (s + [x])[..|s + [x]| - 1] == s;
  }

  lemma {:induction false} ValueBound(s: seq<nat>, b: nat)
    requires InBase(s, b)
    ensures Value(s, b) < Pow(b, |s|)
  {
    if s != [] {
      var n := |s| - 1;
      ValueBound(s[..n], b);
      Scale(Value(s[..n], b) + 1, Pow(b, n), b);
      assert (Value(s[..n], b) + 1) * b == Value(s[..n], b) * b + b;
    }
  }

  lemma {:induction false} ValueJoin(s: seq<nat>, t: seq<nat>, b: nat)
    ensures Value(s + t, b) == Value(s, b) * Pow(b, |t|) + Value(t, b)
    decreases |t|
  {
    if t == [] {
      assert s + t == s;
    } else {
      var n := |t| - 1;
      assert (s + t)[..|s + t| - 1] == s + t[..n];
      ValueJoin(s, t[..n], b);
      Regroup(Value(s, b), Pow(b, n), Value(t[..n], b), b, t[n]);
    }
  }

  lemma Regroup(s: nat, p: nat, t: nat, b: nat, x: nat)
    ensures (s * p + t) * b + x == s * (b * p) + (t * b + x)
  {
    assert (s * p + t) * b == s * p * b + t * b;
    assert s * p * b == s * (b * p);
  }

  lemma {:induction false} ValueZeros(s: seq<nat>, b: nat)
    requires forall i | 0 <= i < |s| :: s[i] == 0
    ensures Value(s, b) == 0
  {
    if s != [] {
      ValueZeros(s[..|s| - 1], b);
    }
  }

  /** Digits without a leading zero. */
  ghost predicate Minimal(s: seq<nat>) { s == [] || s[0] != 0 }

  /** A number with a leading digit other than zero needs all its digits. */
  lemma {:induction false} ValueAtLeast(s: seq<nat>, b: nat)
    requires b > 0 && s != [] && s[0] != 0
    ensures Value(s, b) >= Pow(b, |s| - 1)
  {
    var n := |s| - 1;
    if n > 0 {
      ValueAtLeast(s[..n], b);
      Scale(Pow(b, n - 1), Value(s[..n], b), b);
    } else {
      assert s[..n] == [];
    }
  }

  /** Minimal digits of the same number are the same. */
  lemma {:induction false} MinimalUnique(s: seq<nat>, t: seq<nat>, b: nat)
    requires b > 1 && InBase(s, b) && InBase(t, b) && Minimal(s) && Minimal(t) && Value(s, b) == Value(t, b)
    ensures s == t
    decreases |s|
  {
    if s == [] {
      if t != [] {
        ValueAtLeast(t, b);
        PowPositive(b, |t| - 1);
      }
    } else if t == [] {
      ValueAtLeast(s, b);
      PowPositive(b, |s| - 1);
    } else {
      var m, n := |s| - 1, |t| - 1;
      DivMod(Value(s, b), Value(s[..m], b), s[m], b);
      DivMod(Value(t, b), Value(t[..n], b), t[n], b);
      MinimalUnique(s[..m], t[..n], b);
      assert s == s[..m] + [s[m]] && t == t[..n] + [t[n]];
    }
  }

  /** How many minimal digits a number has. */
  lemma MinimalLength(s: seq<nat>, b: nat, k: nat)
    requires b > 1 && InBase(s, b) && Minimal(s) && k > 0 && Pow(b, k - 1) <= Value(s, b) < Pow(b, k)
    ensures |s| == k
  {
    ValueBound(s, b);
    PowPositive(b, k - 1);
    if s != [] {
      ValueAtLeast(s, b);
      if |s| < k {
        PowMono(b, |s|, k - 1);
      } else if |s| > k {
        PowMono(b, k, |s| - 1);
      }
    }
  }
}
