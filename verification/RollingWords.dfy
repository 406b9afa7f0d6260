/** The words of the rolling filter as 64-bit vectors: src/bloom.cpp:264-301 does to them what the model does. */
module RollingWords {
  import opened RollingBloom

  predicate At(w: bv64, i: bv7)
    requires i < 64
  {
    (w >> i) & 1 == 1
  }

  function BitAnd(x: bv64, y: bv64): bv64 { x & y }
  function BitOr(x: bv64, y: bv64): bv64 { x | y }
  function BitXor(x: bv64, y: bv64): bv64 { x ^ y }
  function BitNot(x: bv64): bv64 { !x }

  /** A flag shifted to a place, and a flag subtracted from zero. */
  function Shift(v: bool, b: bv7): bv64
    requires b < 64
  {
    (if v then 1 else 0) << b
  }

  function Fill(v: bool): bv64 { 0 - if v then 1 else 0 }

  /** The vector has the bits of the word. */
  ghost predicate Stands(w: bv64, f: Word) { forall i: bv7 | i < 64 :: At(w, i) <==> f(i as nat) }

  lemma AndAt(x: bv64, y: bv64, i: bv7)
    requires i < 64
    ensures At(x & y, i) <==> At(x, i) && At(y, i)
  {
  }

  lemma OrAt(x: bv64, y: bv64, i: bv7)
    requires i < 64
    ensures At(x | y, i) <==> At(x, i) || At(y, i)
  {
  }

  lemma XorAt(x: bv64, y: bv64, i: bv7)
    requires i < 64
    ensures At(x ^ y, i) <==> At(x, i) != At(y, i)
  {
  }

  lemma NotAt(x: bv64, i: bv7)
    requires i < 64
    ensures At(!x, i) <==> !At(x, i)
  {
  }

  lemma AndStands(x: bv64, y: bv64, f: Word, g: Word)
    requires Stands(x, f) && Stands(y, g)
    ensures Stands(BitAnd(x, y), And(f, g))
  {
    hide At;
    forall i: bv7 | i < 64 ensures At(BitAnd(x, y), i) <==> And(f, g)(i as nat) {
      AndAt(x, y, i);
    }
  }

  lemma OrStands(x: bv64, y: bv64, f: Word, g: Word)
    requires Stands(x, f) && Stands(y, g)
    ensures Stands(BitOr(x, y), Or(f, g))
  {
    hide At;
    forall i: bv7 | i < 64 ensures At(BitOr(x, y), i) <==> Or(f, g)(i as nat) {
      OrAt(x, y, i);
    }
  }

  lemma XorStands(x: bv64, y: bv64, f: Word, g: Word)
    requires Stands(x, f) && Stands(y, g)
    ensures Stands(BitXor(x, y), Xor(f, g))
  {
    hide At;
    forall i: bv7 | i < 64 ensures At(BitXor(x, y), i) <==> Xor(f, g)(i as nat) {
      XorAt(x, y, i);
    }
  }

  lemma NotStands(x: bv64, f: Word)
    requires Stands(x, f)
    ensures Stands(BitNot(x), Not(f))
  {
    hide At;
    forall i: bv7 | i < 64 ensures At(BitNot(x), i) <==> Not(f)(i as nat) {
      NotAt(x, i);
    }
  }

  lemma ShiftAt(v: bool, b: bv7, i: bv7)
    requires b < 64 && i < 64
    ensures At(Shift(v, b), i) <==> v && i == b
  {
  }

  lemma FillAt(v: bool, i: bv7)
    requires i < 64
    ensures At(Fill(v), i) <==> v
  {
  }

  lemma SamePlace(b: bv7, i: bv7)
    ensures i as nat == b as nat <==> i == b
  {
  }

  lemma ShiftStands(v: bool, b: bv7)
    requires b < 64
    ensures Stands(Shift(v, b), Shifted(v, b as nat))
  {
    hide At, Shift;
    forall i: bv7 | i < 64 ensures At(Shift(v, b), i) <==> Shifted(v, b as nat)(i as nat) {
      ShiftAt(v, b, i);
      SamePlace(b, i);
    }
  }

  lemma FillStands(v: bool)
    ensures Stands(Fill(v), Filled(v))
  {
    hide At, Fill;
    forall i: bv7 | i < 64 ensures At(Fill(v), i) <==> Filled(v)(i as nat) {
      FillAt(v, i);
    }
  }

  /** The wiping of a pair of words. */
  lemma WipeOnWords(p1: bv64, p2: bv64, f1: Word, f2: Word, g: nat)
    requires Stands(p1, f1) && Stands(p2, f2)
    ensures var mask := BitOr(BitXor(p1, Fill(One(g))), BitXor(p2, Fill(Two(g))));
            var bits := Or(Xor(f1, Filled(One(g))), Xor(f2, Filled(Two(g))));
            Stands(BitAnd(p1, mask), And(f1, bits)) && Stands(BitAnd(p2, mask), And(f2, bits))
  {
    hide Stands, Fill, BitAnd, BitOr, BitXor, BitNot, And, Or, Xor, Filled, One, Two;
    FillStands(One(g));
    FillStands(Two(g));
    XorStands(p1, Fill(One(g)), f1, Filled(One(g)));
    XorStands(p2, Fill(Two(g)), f2, Filled(Two(g)));
    var x, y := BitXor(p1, Fill(One(g))), BitXor(p2, Fill(Two(g)));
    var u, v := Xor(f1, Filled(One(g))), Xor(f2, Filled(Two(g)));
    OrStands(x, y, u, v);
    AndStands(p1, BitOr(x, y), f1, Or(u, v));
    AndStands(p2, BitOr(x, y), f2, Or(u, v));
  }

  /** The marking of one place in a word. */
  lemma MarkOnWord(w: bv64, f: Word, v: bool, b: bv7)
    requires Stands(w, f) && b < 64
    ensures Stands(BitOr(BitAnd(w, BitNot(Shift(true, b))), Shift(v, b)),
                   Or(And(f, Not(Shifted(true, b as nat))), Shifted(v, b as nat)))
  {
    hide Stands, Shift, BitAnd, BitOr, BitXor, BitNot, And, Or, Not, Shifted;
    ShiftStands(true, b);
    ShiftStands(v, b);
    var x, p := Shift(true, b), Shifted(true, b as nat);
    NotStands(x, p);
    AndStands(w, BitNot(x), f, Not(p));
    OrStands(BitAnd(w, BitNot(x)), Shift(v, b), And(f, Not(p)), Shifted(v, b as nat));
  }

  /** The test of one place in a pair of words. */
  lemma TestOnWords(p1: bv64, p2: bv64, f1: Word, f2: Word, b: bv7)
    requires Stands(p1, f1) && Stands(p2, f2) && b < 64
    ensures At(BitOr(p1, p2), b) <==> Or(f1, f2)(b as nat)
  {
    hide At;
    OrAt(p1, p2, b);
  }
}
