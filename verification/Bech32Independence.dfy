/**
 Why the checksum detects three errors within 1023 values (src/bech32.cpp:43-49): the generator has three roots in
 geometric progression in GF(1024), so no three powers of x within 1023 have a sum of multiples that it divides.
 */
module Bech32Independence {
  import opened Bech32Field
  import opened Bech32Roots

  /** GF(32) in GF(1024). */
  function Embed(y: bv5): bv10 {
    (if y & 1 != 0 then 0x1 else 0) ^ (if y & 2 != 0 then 0xe else 0) ^ (if y & 4 != 0 then 0x54 else 0)
    ^ (if y & 8 != 0 then 0x358 else 0) ^ (if y & 16 != 0 then 0xbf else 0)
  }

  lemma EmbedAdd(x: bv5, y: bv5)
    ensures Embed(Add(x, y)) == Sum(Embed(x), Embed(y))
  {
  }

  lemma EmbedZero(y: bv5)
    ensures Embed(y) == 0 <==> y == 0
  {
  }

  lemma SumZero(x: bv10, y: bv10)
    ensures Sum(x, 0) == x && Sum(0, x) == x && (Sum(x, y) == 0 <==> x == y)
  {
  }

  // ---- the roots ----

  /** Times one of the three roots: the 24th, 25th and 26th powers of the generator of the field. */
  function Root(t: nat, v: bv10): bv10 { if t == 0 then Times24(v) else if t == 1 then Times25(v) else Times26(v) }

  lemma RootIs(t: nat, v: bv10)
    requires t < 3
    ensures Root(t, v) == Power(24 + t, v)
  {
    hide Times24, Times25, Times26, Power;
    Power24(v);
    Power25(v);
    Power26(v);
  }

  lemma RootOfSum(t: nat, x: bv10, y: bv10)
    requires t < 3
    ensures Root(t, Sum(x, y)) == Sum(Root(t, x), Root(t, y)) && Root(t, 0) == 0
  {
    hide Root, Sum, Power;
    RootIs(t, x);
    RootIs(t, y);
    RootIs(t, Sum(x, y));
    RootIs(t, 0);
    PowerOfSum(24 + t, x, y);
    PowerOfZero(24 + t);
  }

  /** One step of evaluating a polynomial at a root. */
  function Horner(t: nat, v: bv10, y: bv5): bv10 { Sum(Root(t, v), Embed(y)) }

  lemma HornerOfSum(t: nat, u: bv10, v: bv10, x: bv5, y: bv5)
    requires t < 3
    ensures Horner(t, Sum(u, v), Add(x, y)) == Sum(Horner(t, u, x), Horner(t, v, y))
  {
    hide Root, Sum, Add, Embed;
    RootOfSum(t, u, v);
    EmbedAdd(x, y);
    Exchange(Root(t, u), Root(t, v), Embed(x), Embed(y));
  }

  lemma HornerZero(t: nat, v: bv10, y: bv5)
    requires t < 3
    ensures Horner(t, v, 0) == Root(t, v) && Horner(t, 0, y) == Embed(y)
  {
    hide Root, Sum, Embed;
    RootOfSum(t, v, v);
    EmbedZero(0);
    SumZero(Root(t, v), 0);
    SumZero(Embed(y), 0);
  }

  /** The value of a state at a root. */
  function At(t: nat, s: State): bv10 {
    Horner(t, Horner(t, Horner(t, Horner(t, Horner(t, Embed(s.e5), s.e4), s.e3), s.e2), s.e1), s.e0)
  }

  lemma AtSum(t: nat, s: State, r: State)
    requires t < 3
    ensures At(t, Plus(s, r)) == Sum(At(t, s), At(t, r))
  {
    hide Horner, Sum, Add, Embed;
    EmbedAdd(s.e5, r.e5);
    var u, v := Embed(s.e5), Embed(r.e5);
    HornerOfSum(t, u, v, s.e4, r.e4);
    u, v := Horner(t, u, s.e4), Horner(t, v, r.e4);
    HornerOfSum(t, u, v, s.e3, r.e3);
    u, v := Horner(t, u, s.e3), Horner(t, v, r.e3);
    HornerOfSum(t, u, v, s.e2, r.e2);
    u, v := Horner(t, u, s.e2), Horner(t, v, r.e2);
    HornerOfSum(t, u, v, s.e1, r.e1);
    u, v := Horner(t, u, s.e1), Horner(t, v, r.e1);
    HornerOfSum(t, u, v, s.e0, r.e0);
  }

  /** A multiple of x^6 modulo the generator. */
  function Top(y: bv5): State { State(By29(y), By22(y), By20(y), By21(y), By29(y), By18(y)) }

  lemma IsRoot0(y: bv5)
    ensures Times24(Times24(Times24(Times24(Times24(Times24(Embed(y))))))) == At(0, Top(y))
  {
  }

  lemma IsRoot1(y: bv5)
    ensures Times25(Times25(Times25(Times25(Times25(Times25(Embed(y))))))) == At(1, Top(y))
  {
  }

  lemma IsRoot2(y: bv5)
    ensures Times26(Times26(Times26(Times26(Times26(Times26(Embed(y))))))) == At(2, Top(y))
  {
  }

  lemma IsRoot(t: nat, y: bv5)
    requires t < 3
    ensures Root(t, Root(t, Root(t, Root(t, Root(t, Root(t, Embed(y))))))) == At(t, Top(y))
  {
    hide Times24, Times25, Times26, Embed, At, Top;
    if t == 0 {
      IsRoot0(y);
    } else if t == 1 {
      IsRoot1(y);
    } else {
      IsRoot2(y);
    }
  }

  lemma AddZero(x: bv5)
    ensures Add(x, 0) == x && Add(0, x) == x
  {
  }

  /** A state is its highest element and the rest. */
  lemma Split(s: State)
    ensures s == Plus(State(s.e5, 0, 0, 0, 0, 0), State(0, s.e4, s.e3, s.e2, s.e1, s.e0))
    ensures TimesX(s) == Plus(State(s.e4, s.e3, s.e2, s.e1, s.e0, 0), Top(s.e5))
  {
    hide Add, By29, By22, By20, By21, By18;
    AddZero(s.e5);
    AddZero(s.e4);
    AddZero(s.e3);
    AddZero(s.e2);
    AddZero(s.e1);
    AddZero(s.e0);
    AddZero(By18(s.e5));
  }

  lemma AtHigh(t: nat, y: bv5)
    requires t < 3
    ensures At(t, State(y, 0, 0, 0, 0, 0)) == Root(t, Root(t, Root(t, Root(t, Root(t, Embed(y))))))
  {
    hide Horner, Root, Embed;
    var v := Embed(y);
    HornerZero(t, v, 0);
    HornerZero(t, Root(t, v), 0);
    HornerZero(t, Root(t, Root(t, v)), 0);
    HornerZero(t, Root(t, Root(t, Root(t, v))), 0);
    HornerZero(t, Root(t, Root(t, Root(t, Root(t, v)))), 0);
  }

  lemma AtShifted(t: nat, s: State)
    requires t < 3
    ensures At(t, State(s.e4, s.e3, s.e2, s.e1, s.e0, 0)) == Root(t, At(t, State(0, s.e4, s.e3, s.e2, s.e1, s.e0)))
  {
    hide Horner, Root, Embed;
    EmbedZero(0);
    HornerZero(t, 0, s.e4);
    HornerZero(t, At(t, State(0, s.e4, s.e3, s.e2, s.e1, s.e0)), 0);
  }

  /** Multiplying by x multiplies the value by the root. */
  lemma AtTimesX(t: nat, s: State)
    requires t < 3
    ensures At(t, TimesX(s)) == Root(t, At(t, s))
  {
    hide At, Root, Sum, Plus, TimesX, Top;
    var high, low := State(s.e5, 0, 0, 0, 0, 0), State(0, s.e4, s.e3, s.e2, s.e1, s.e0);
    var shifted := State(s.e4, s.e3, s.e2, s.e1, s.e0, 0);
    Split(s);
    AtSum(t, high, low);
    AtSum(t, shifted, Top(s.e5));
    AtHigh(t, s.e5);
    AtShifted(t, s);
    IsRoot(t, s.e5);
    RootOfSum(t, At(t, high), At(t, low));
    Comm(Root(t, At(t, high)), Root(t, At(t, low)));
  }

  lemma {:induction false} AtPower(t: nat, n: nat, s: State)
    requires t < 3
    ensures At(t, XPower(n, s)) == Power((24 + t) * n, At(t, s))
  {
    hide At, Root, TimesX;
    if n > 0 {
      AtPower(t, n - 1, s);
      AtTimesX(t, XPower(n - 1, s));
      RootIs(t, At(t, XPower(n - 1, s)));
      PowerAdd(24 + t, (24 + t) * (n - 1), At(t, s));
      assert 24 + t + (24 + t) * (n - 1) == (24 + t) * n;
    }
  }

  function Small(y: bv5): State { State(0, 0, 0, 0, 0, y) }

  lemma AtSmall(t: nat, y: bv5)
    requires t < 3
    ensures At(t, Small(y)) == Embed(y) && At(t, ZERO) == 0
  {
    hide Horner, Embed;
    EmbedZero(0);
    HornerZero(t, 0, 0);
    HornerZero(t, 0, y);
  }

  // ---- three powers ----

  /** The value of a sum of three multiples at a root. */
  lemma AtThree(t: nat, m: nat, n: nat, a: bv5, b: bv5, c: bv5)
    requires t < 3 && Plus(Plus(XPower(m, Small(a)), XPower(n, Small(b))), Small(c)) == ZERO
    ensures Sum(Sum(Power(t * m, Power(24 * m, Embed(a))), Power(t * n, Power(24 * n, Embed(b)))), Embed(c)) == 0
  {
    hide At, Plus, XPower, Small, Sum, Power, Embed;
    var x, y := XPower(m, Small(a)), XPower(n, Small(b));
    AtSum(t, Plus(x, y), Small(c));
    AtSum(t, x, y);
    AtPower(t, m, Small(a));
    AtPower(t, n, Small(b));
    AtSmall(t, a);
    AtSmall(t, b);
    AtSmall(t, c);
    PowerAdd(t * m, 24 * m, Embed(a));
    PowerAdd(t * n, 24 * n, Embed(b));
    assert t * m + 24 * m == (24 + t) * m && t * n + 24 * n == (24 + t) * n;
  }

  lemma PowerNonzero(n: nat, v: bv10)
    ensures Power(n, v) == 0 <==> v == 0
  {
    hide Power;
    PowerOfZero(n);
    if Power(n, v) == 0 {
      FixedMultiple(n, 1023, v) by {
        Power1023(v);
      }
      PowerAdd(1022 * n, n, v);
      PowerOfZero(1022 * n);
      assert 1022 * n + n == n * 1023;
    }
  }

  /** Different powers below the 1023rd move everything but zero to different places. */
  lemma Same(m: nat, n: nat, v: bv10)
    requires n < m <= 1022 && Power(m, v) == Power(n, v)
    ensures v == 0
  {
    hide Power;
    if v != 0 {
      PowerNonzero(n, v);
      PowerAdd(m - n, n, v);
      Order(m - n, Power(n, v));
    }
  }

  /** Sums of three terms that stay zero when their terms are moved by the m-th, the n-th and no power, twice. */
  lemma Vandermonde(m: nat, n: nat, x: bv10, y: bv10, z: bv10)
    requires 0 < n < m <= 1022 && Sum(Sum(x, y), z) == 0
    requires Sum(Sum(Power(m, x), Power(n, y)), z) == 0
    requires Sum(Sum(Power(2 * m, x), Power(2 * n, y)), z) == 0
    ensures x == 0 && y == 0 && z == 0
  {
    hide Power, Sum;
    var p, q := Sum(x, Power(m, x)), Sum(y, Power(n, y));
    Eliminate(x, y, z, Power(m, x), Power(n, y));
    Eliminate(Power(m, x), Power(n, y), z, Power(2 * m, x), Power(2 * n, y));
    assert p == q;
    PowerOfSum(m, x, Power(m, x));
    PowerOfSum(n, y, Power(n, y));
    PowerAdd(m, m, x);
    PowerAdd(n, n, y);
    assert Power(m, p) == Power(n, p);
    Same(m, n, p);
    SumZero(x, Power(m, x));
    SumZero(y, Power(n, y));
    PowerStart(x, y);
    Same(m, 0, x);
    Same(n, 0, y);
    SumZero(0, z);
    SumZero(z, 0);
  }

  lemma PowerStart(x: bv10, y: bv10)
    ensures Power(0, x) == x && Power(0, y) == y
  {
  }

  lemma Eliminate(x: bv10, y: bv10, z: bv10, u: bv10, v: bv10)
    requires Sum(Sum(x, y), z) == 0 && Sum(Sum(u, v), z) == 0
    ensures Sum(x, u) == Sum(y, v)
  {
    hide Sum;
    SumZero(Sum(x, y), z);
    SumZero(Sum(u, v), z);
    Exchange(x, y, u, v);
    SumZero(Sum(x, y), Sum(u, v));
    SumZero(Sum(x, u), Sum(y, v));
  }

  /** Multiples of x^m, x^n and 1, not all zero, have a sum that the generator does not divide. */
  lemma ThreePowers(m: nat, n: nat, a: bv5, b: bv5, c: bv5)
    requires 0 < n < m <= 1022 && (a != 0 || b != 0 || c != 0)
    ensures Plus(Plus(XPower(m, Small(a)), XPower(n, Small(b))), Small(c)) != ZERO
  {
    hide Plus, XPower, Small, Sum, Embed;
    if Plus(Plus(XPower(m, Small(a)), XPower(n, Small(b))), Small(c)) == ZERO {
      AtThree(0, m, n, a, b, c);
      AtThree(1, m, n, a, b, c);
      AtThree(2, m, n, a, b, c);
      var x, y := Power(24 * m, Embed(a)), Power(24 * n, Embed(b));
      Vandermonde(m, n, x, y, Embed(c));
      PowerNonzero(24 * m, Embed(a));
      PowerNonzero(24 * n, Embed(b));
      EmbedZero(a);
      EmbedZero(b);
      EmbedZero(c);
    }
  }
}
