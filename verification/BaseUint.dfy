/**
 base_uint: unsigned numbers of a fixed number of 32-bit limbs, changed in place (src/arith_uint256.cpp,
 src/arith_uint256.h). The width is any number of limbs from two on.
 */
module BaseUint {
  import opened Wrappers
  import opened Powers
  import opened LimbValue
  import opened LimbShift

  /** One limb and its successor, in place. */
  lemma OneMore(x: nat, y: nat, w: nat)
    requires x < BASE && y == (x + 1) % BASE
    ensures if y != 0 then y * w == x * w + w else x * w + w == BASE * w && y * w == 0
  {
    if y != 0 {
      assert y == x + 1;
    } else {
      assert x + 1 == BASE;
      assert (x + 1) * w == x * w + w;
    }
  }

  class BaseUint {
    const pn: array<nat>

    ghost predicate Valid()
      reads pn
    {
      pn.Length >= 2 && Limbs(pn[..])
    }

    ghost function Val(): nat
      reads pn
    {
      Value(pn[..])
    }

    /** 2^BITS. */
    ghost function Modulus(): nat { Weight(pn.Length) }

    /** A 64-bit number. */
    constructor (width: nat, b: nat)
      requires width >= 2 && b < BASE * BASE
      ensures Valid() && fresh(pn) && pn.Length == width && Val() == b
    {
      pn := new nat[width](_ => 0);
      new;
      Split(b);
      LessQuotient(b, BASE, BASE);
      PartOfZeros(pn[..], width);
      PartUpdate(pn[..], 0, b % BASE, width);
      pn[0] := b % BASE;
      PartUpdate(pn[..], 1, b / BASE, width);
      pn[1] := b / BASE;
      assert Weight(1) == BASE;
    }

    constructor Copy(b: BaseUint)
      requires b.Valid()
      ensures Valid() && fresh(pn) && pn.Length == b.pn.Length && pn[..] == b.pn[..] && Val() == b.Val()
    {
      pn := new nat[b.pn.Length];
      new;
      for i := 0 to pn.Length
        invariant forall j | 0 <= j < i :: pn[j] == b.pn[j]
      {
        pn[i] := b.pn[i];
      }
      assert pn[..] == b.pn[..];
    }

    /** operator=. */
    method Assign(b: BaseUint)
      requires b.Valid() && b.pn.Length == pn.Length
      modifies pn
      ensures Valid() && pn[..] == old(b.pn[..])
    {
      ghost var y := b.pn[..];
      for i := 0 to pn.Length
        invariant b.pn[..] == y && forall k | 0 <= k < i :: pn[k] == y[k]
      {
        pn[i] := b.pn[i];
      }
      assert pn[..] == y;
    }

    /** Sets all limbs to zero. */
    method Clear()
      requires pn.Length >= 2
      modifies pn
      ensures Valid() && Val() == 0 && forall i | 0 <= i < pn.Length :: pn[i] == 0
    {
      for i := 0 to pn.Length
        invariant forall j | 0 <= j < i :: pn[j] == 0
      {
        pn[i] := 0;
      }
      PartOfZeros(pn[..], pn.Length);
    }

    /** += : the sum modulo 2^BITS; no 64-bit intermediate overflows. */
    method Add(b: BaseUint)
      requires Valid() && b.Valid() && b.pn.Length == pn.Length
      modifies pn
      ensures Valid() && Val() == (old(Val()) + old(b.Val())) % Modulus()
    {
      hide Part, Weight;
      ghost var x, y := pn[..], b.pn[..];
      var carry: nat := 0;
      AddStart(x, y);
      for i := 0 to pn.Length
        invariant carry <= 1 && Limbs(pn[..])
        invariant forall j | i <= j < pn.Length :: pn[j] == x[j] && b.pn[j] == y[j]
        invariant Part(pn[..], i) + carry * Weight(i) == Part(x, i) + Part(y, i)
      {
        var n := carry + pn[i] + b.pn[i];
        assert n < BASE * BASE;
        Split(n);
        PartNext(x, i);
        PartNext(y, i);
        WeightNext(i);
        PartWrite(pn[..], i, n % BASE);
        CarryStep(Part(pn[..], i), carry, Part(x, i) + Part(y, i), n, x[i] + y[i], Weight(i), n % BASE, n / BASE);
        assert (x[i] + y[i]) * Weight(i) == x[i] * Weight(i) + y[i] * Weight(i);
        ghost var before := pn[..];
        var limb: nat := n % BASE;
        pn[i] := limb;
        assert pn[..] == before[i := limb];
        carry := n / BASE;
      }
      Truncated(pn[..], carry, Value(x) + Value(y));
    }

    /** *= for a 32-bit number. */
    method MulWord(b: nat)
      requires Valid() && b < BASE
      modifies pn
      ensures Valid() && Val() == old(Val()) * b % Modulus()
    {
      hide Part, Weight;
      ghost var x := pn[..];
      var carry: nat := 0;
      AddStart(x, x);
      for i := 0 to pn.Length
        invariant carry < BASE && Limbs(pn[..])
        invariant forall j | i <= j < pn.Length :: pn[j] == x[j]
        invariant Part(pn[..], i) + carry * Weight(i) == Part(x, i) * b
      {
        var n := carry + b * pn[i];
        ProductFits(b, pn[i], carry, 0);
        Split(n);
        LessQuotient(n, BASE, BASE);
        PartNext(x, i);
        WeightNext(i);
        PartWrite(pn[..], i, n % BASE);
        CarryStep(Part(pn[..], i), carry, Part(x, i) * b, n, b * x[i], Weight(i), n % BASE, n / BASE);
        TimesNext(Part(x, i), x[i], Weight(i), b);
        ghost var before := pn[..];
        var limb: nat := n % BASE;
        pn[i] := limb;
        assert pn[..] == before[i := limb];
        carry := n / BASE;
      }
      Truncated(pn[..], carry, Value(x) * b);
    }

    /** ++ : adds one modulo 2^BITS. */
    method Increment()
      requires Valid()
      modifies pn
      ensures Valid() && Val() == (old(Val()) + 1) % Modulus()
    {
      hide Part, Weight;
      ghost var x := Val();
      var i := 0;
      AddStart(pn[..], pn[..]);
      PartBound(pn[..], pn.Length);
      while i < pn.Length
        invariant i <= pn.Length && Valid() && Val() + Weight(i) == x + 1
      {
        var limb: nat := (pn[i] + 1) % BASE;
        PartUpdate(pn[..], i, limb, pn.Length);
        WeightNext(i);
        ghost var before := pn[..];
        OneMore(before[i], limb, Weight(i));
        if limb != 0 {
          pn[i] := limb;
          assert pn[..] == before[i := limb];
          PartBound(pn[..], pn.Length);
          DivMod(x + 1, 0, Val(), Modulus());
          return;
        }
        pn[i] := limb;
        assert pn[..] == before[i := limb];
        i := i + 1;
      }
      PartBound(pn[..], pn.Length);
      DivMod(x + 1, 1, Val(), Modulus());
    }

    /** -- : subtracts one modulo 2^BITS. */
    method Decrement()
      requires Valid()
      modifies pn
      ensures Valid() && (Val() + 1) % Modulus() == old(Val())
    {
      hide Part, Weight;
      ghost var x := Val();
      var i := 0;
      AddStart(pn[..], pn[..]);
      PartBound(pn[..], pn.Length);
      while i < pn.Length
        invariant i <= pn.Length && Valid() && Val() + 1 == x + Weight(i)
      {
        var limb: nat := if pn[i] == 0 then BASE - 1 else pn[i] - 1;
        PartUpdate(pn[..], i, limb, pn.Length);
        WeightNext(i);
        ghost var before := pn[..];
        pn[i] := limb;
        assert pn[..] == before[i := limb];
        if limb != BASE - 1 {
          assert before[i] * Weight(i) == limb * Weight(i) + Weight(i);
          DivMod(x, 0, Val() + 1, Modulus());
          return;
        }
        assert limb * Weight(i) == Weight(i) * BASE - Weight(i);
        assert before[i] * Weight(i) == 0;
        i := i + 1;
      }
      DivMod(Val() + 1, 1, x, Modulus());
    }

    /** ~ */
    method Complemented() returns (r: BaseUint)
      requires Valid()
      ensures fresh(r) && fresh(r.pn) && r.Valid() && r.pn.Length == pn.Length && r.Val() == Modulus() - 1 - Val()
    {
      r := new BaseUint(pn.Length, 0);
      for i := 0 to pn.Length
        invariant forall j | 0 <= j < i :: r.pn[j] == BASE - 1 - pn[j]
        invariant r.Valid()
      {
        ghost var before := r.pn[..];
        assert pn[i] == pn[..][i];
        var limb: nat := BASE - 1 - pn[i];
        r.pn[i] := limb;
        assert r.pn[..] == before[i := limb];
      }
      Complement(pn[..], r.pn[..], pn.Length);
    }

    /** Unary minus. */
    method Negated() returns (r: BaseUint)
      requires Valid()
      ensures fresh(r) && fresh(r.pn) && r.Valid() && r.pn.Length == pn.Length
              && r.Val() == (Modulus() - Val()) % Modulus()
    {
      r := Complemented();
      r.Increment();
    }

    /** -= : the difference modulo 2^BITS. */
    method Subtract(b: BaseUint)
      requires Valid() && b.Valid() && b.pn.Length == pn.Length
      modifies pn
      ensures Valid() && Val() == (old(Val()) + Modulus() - old(b.Val())) % Modulus()
    {
      hide Part, Weight;
      PartBound(b.pn[..], pn.Length);
      var negative := b.Negated();
      ModPlusMod(Val(), Modulus() - b.Val(), Modulus());
      Add(negative);
    }

    /** *= : the product modulo 2^BITS, limb by limb. */
    method Mul(b: BaseUint)
      requires Valid() && b.Valid() && b.pn.Length == pn.Length
      modifies pn
      ensures Valid() && Val() == old(Val()) * old(b.Val()) % Modulus()
    {
      hide Part, Weight;
      ghost var x, y := pn[..], b.pn[..];
      var a := new BaseUint(pn.Length, 0);
      ghost var over: nat := 0;
      AddStart(x, y);
      for j := 0 to pn.Length
        invariant a.Valid() && pn[..] == x && b.pn[..] == y
        invariant a.Val() + Times(over, Modulus()) == Times(Part(x, j), Value(y))
      {
        over := a.AddRow(pn[j], b, j, over, x, y);
      }
      Truncated(a.pn[..], over, Value(x) * Value(y));
      Assign(a);
    }

    /** One row of the multiplication: adds limb * b, moved up by j limbs. */
    method AddRow(limb: nat, b: BaseUint, j: nat, ghost over: nat, ghost x: seq<nat>, ghost y: seq<nat>)
      returns (ghost over': nat)
      requires Valid() && Limbs(x) && Limbs(y) && |x| == |y| == pn.Length == b.pn.Length && j < |x| && limb == x[j]
      requires b.pn != pn && b.pn[..] == y && Val() + Times(over, Modulus()) == Times(Part(x, j), Value(y))
      modifies pn
      ensures Valid() && Val() + Times(over', Modulus()) == Times(Part(x, j + 1), Value(y))
    {
      hide Part, Weight, Times;
      ghost var start := Val();
      var carry: nat := 0;
      RowStart(y, limb, Weight(j));
      for i := 0 to pn.Length - j
        invariant carry < BASE && Valid()
        invariant Val() + Times(carry, Weight(i + j)) == start + Times(Times(limb, Part(y, i)), Weight(j))
      {
        assert pn[..][i + j] < BASE && y[i] < BASE;
        var n := carry + pn[i + j] + Times(limb, b.pn[i]);
        RowFits(limb, y[i], carry, pn[i + j]);
        Split(n);
        LessQuotient(n, BASE, BASE);
        LimbUpdate(pn[..], i + j, n % BASE);
        RowPart(y, i, j);
        RowStep(Val(), pn[i + j], carry, n, Weight(i + j), start, limb, Part(y, i), y[i], Weight(i), Weight(j));
        ghost var before := pn[..];
        var word: nat := n % BASE;
        pn[i + j] := word;
        assert pn[..] == before[i + j := word];
        carry := n / BASE;
      }
      over' := over + carry + Times(limb, Part(y[|y| - j..], j));
      RowRest(x, y, j);
      RowEnd(Val(), carry, start, limb, Part(y, |y| - j), Part(y[|y| - j..], j), Weight(|y| - j), Weight(j), Modulus(),
             over, Part(x, j), Value(y));
    }

    /** <<= : multiplication by a power of two modulo 2^BITS. */
    method ShiftLeft(shift: nat)
      requires Valid()
      modifies pn
      ensures Valid() && Val() == old(Val()) * Pow2(shift) % Modulus()
    {
      hide Part, Weight, Pow2, Stays, Moves;
      var a := new BaseUint.Copy(this);
      ghost var x := pn[..];
      Clear();
      var k, s := shift / 32, shift % 32;
      for i := 0 to pn.Length
        invariant a.pn[..] == x && LeftSoFar(x, pn[..], k, s, i)
      {
        MoveLeft(a.pn[i], k, s, i, x);
      }
      LeftDone(x, pn[..], k, s);
      LeftValue(x, pn[..], k, s);
    }

    /** Moves one limb to its two places. */
    method MoveLeft(limb: nat, k: nat, s: nat, i: nat, ghost x: seq<nat>)
      requires s < 32 && Limbs(x) && i < |x| == pn.Length && LeftSoFar(x, pn[..], k, s, i) && limb == x[i]
      modifies pn
      ensures LeftSoFar(x, pn[..], k, s, i + 1)
    {
      hide Pow2, Stays, Moves, Or;
      ghost var r := pn[..];
      Pieces(limb, s);
      NoMoves(limb);
      if i + k + 1 < pn.Length && s != 0 {
        OrZeroLeft(Moves(limb, s));
        pn[i + k + 1] := Or(pn[i + k + 1], Quotient(limb, Pow2(32 - s)));
      }
      if i + k < pn.Length {
        LeftOr(x, pn[..], k, s, i);
        pn[i + k] := Or(pn[i + k], Stays(limb, s));
      }
      LeftNext(x, r, pn[..], k, s, i);
    }

    /** >>= : division by a power of two. */
    method ShiftRight(shift: nat)
      requires Valid()
      modifies pn
      ensures Valid() && Val() == old(Val()) / Pow2(shift)
    {
      hide Part, Weight, Pow2, Falls, Stays, Kept, Or;
      var a := new BaseUint.Copy(this);
      ghost var x := pn[..];
      Clear();
      var k, s := shift / 32, shift % 32;
      for i := 0 to pn.Length
        invariant a.pn[..] == x && RightSoFar(x, pn[..], k, s, i)
      {
        MoveRight(a.pn[i], k, s, i, x);
      }
      RightDone(x, pn[..], k, s);
      RightValue(x, pn[..], k, s);
    }

    method MoveRight(limb: nat, k: nat, s: nat, i: nat, ghost x: seq<nat>)
      requires s < 32 && Limbs(x) && i < |x| == pn.Length && RightSoFar(x, pn[..], k, s, i) && limb == x[i]
      modifies pn
      ensures RightSoFar(x, pn[..], k, s, i + 1)
    {
      hide Pow2, Falls, Stays, Kept, Or;
      ghost var r := pn[..];
      NoFalls(limb);
      if i - k - 1 >= 0 && s != 0 {
        RightOr(x, pn[..], k, s, i);
        pn[i - k - 1] := Or(pn[i - k - 1], Stays(limb, 32 - s));
      }
      if i - k >= 0 {
        OrZeroLeft(Kept(limb, s));
        pn[i - k] := Or(pn[i - k], Kept(limb, s));
      }
      RightNext(x, r, pn[..], k, s, i);
    }

    /** CompareTo: the order of the numbers. */
    method CompareTo(b: BaseUint) returns (c: int)
      requires Valid() && b.Valid() && b.pn.Length == pn.Length
      ensures c == if Val() < b.Val() then -1 else if Val() > b.Val() then 1 else 0
    {
      hide Part, Weight;
      var i := pn.Length - 1;
      while i >= 0
        invariant -1 <= i < pn.Length && forall j | i < j < pn.Length :: pn[j] == b.pn[j]
      {
        if pn[i] < b.pn[i] {
          Smaller(pn[..], b.pn[..], i, pn.Length);
          return -1;
        }
        if pn[i] > b.pn[i] {
          Smaller(b.pn[..], pn[..], i, pn.Length);
          return 1;
        }
        i := i - 1;
      }
      assert pn[..] == b.pn[..];
      return 0;
    }

    /** EqualTo: comparison with a 64-bit number. */
    method EqualTo(b: nat) returns (same: bool)
      requires Valid() && b < BASE * BASE
      ensures same <==> Val() == b
    {
      hide Part, Weight;
      var word := new BaseUint(pn.Length, b);
      WordLimbs(word.pn[..], b);
      var i := pn.Length - 1;
      while i >= 2
        invariant 1 <= i < pn.Length && forall j | i < j < pn.Length :: pn[j] == 0
      {
        if pn[i] != 0 {
          Smaller(word.pn[..], pn[..], i, pn.Length);
          return false;
        }
        i := i - 1;
      }
      same := pn[1] == b / BASE && pn[0] == b % BASE;
      if same {
        assert pn[..] == word.pn[..];
      } else if Val() == b {
        ValueInjective(pn[..], word.pn[..]);
      }
    }

    /** GetLow64. */
    method GetLow64() returns (low: nat)
      requires Valid()
      ensures low == Val() % (BASE * BASE)
    {
      hide Part, Weight;
      low := pn[0] + pn[1] * BASE;
      LowLimbs(pn[..]);
    }

    /** bits: the position of the highest bit set plus one, or zero. */
    method Bits() returns (n: nat)
      requires Valid()
      ensures n <= 32 * pn.Length && (if Val() == 0 then n == 0 else n > 0 && Pow2(n - 1) <= Val() < Pow2(n))
    {
      hide Part, Weight, Pow2;
      var pos := pn.Length - 1;
      while pos >= 0
        invariant -1 <= pos < pn.Length && forall j | pos < j < pn.Length :: pn[j] == 0
      {
        if pn[pos] != 0 {
          var top := TopBit(pn[pos]);
          TopLimb(pn[..], pos, top);
          return 32 * pos + top + 1;
        }
        pos := pos - 1;
      }
      PartOfZeros(pn[..], pn.Length);
      return 0;
    }

    /** /= : the quotient, by shifting and subtracting; division by zero throws. */
    method Divide(b: BaseUint) returns (r: Result<()>)
      requires Valid() && b.Valid() && b.pn.Length == pn.Length
      modifies pn
      ensures Valid() && (r.Thrown? <==> old(b.Val()) == 0)
      ensures r.Ok? ==> Val() == old(Val()) / old(b.Val())
    {
      hide Part, Weight, Pow2;
      ghost var n, d := Val(), b.Val();
      var div := new BaseUint.Copy(b);
      var num := new BaseUint.Copy(this);
      Clear();
      var numBits := num.Bits();
      var divBits := div.Bits();
      if divBits == 0 {
        return Thrown;
      }
      if divBits > numBits {
        SmallOverLarge(n, d, numBits, divBits);
        return Ok(());
      }
      var shift := numBits - divBits;
      AlignedFits(n, d, numBits, divBits, pn.Length);
      div.ShiftLeft(shift);
      DivideLoop(num, div, shift, n, d);
      return Ok(());
    }

    /** The quotient's bits from the highest: what is left over is always less than twice the shifted divisor. */
    method DivideLoop(num: BaseUint, div: BaseUint, shift0: nat, ghost n: nat, ghost d: nat)
      requires Valid() && num.Valid() && div.Valid() && num.pn.Length == div.pn.Length == pn.Length
      requires pn != num.pn && pn != div.pn && num.pn != div.pn
      requires d > 0 && (forall i | 0 <= i < pn.Length :: pn[i] == 0) && shift0 < 32 * pn.Length
      requires num.Val() == n && div.Val() == d * Pow2(shift0) && n < d * Pow2(shift0 + 1)
      modifies pn, num.pn, div.pn
      ensures Valid() && Val() == n / d
    {
      hide Part, Weight, Pow2;
      var shift := shift0 as int;
      PartOfZeros(pn[..], pn.Length);
      ZeroClear(pn[..], shift0 + 1);
      while shift >= 0
        invariant -1 <= shift <= shift0 && Valid() && num.Valid() && div.Valid()
        invariant num.Val() < d * Pow2(shift + 1) && (shift >= 0 ==> div.Val() == d * Pow2(shift))
        invariant Val() * d + num.Val() == n
        invariant LowClear(pn[..], shift + 1)
      {
        var c := num.CompareTo(div);
        Pow2Twice(shift);
        DoubleProduct(d, Pow2(shift));
        if c >= 0 {
          num.SubtractExactly(div);
          SetBitAt(shift);
          QuotientBit(Val(), Pow2(shift), d);
        } else {
          LowClearLess(pn[..], shift);
        }
        HalfOf(d, shift);
        div.ShiftRight(1);
        shift := shift - 1;
      }
      PowZero();
      DivMod(n, Val(), num.Val(), d);
    }

    method SubtractExactly(b: BaseUint)
      requires Valid() && b.Valid() && b.pn.Length == pn.Length && b.pn != pn && b.Val() <= Val()
      modifies pn
      ensures Valid() && Val() == old(Val()) - b.Val()
    {
      hide Part, Weight;
      PartBound(pn[..], pn.Length);
      DivMod(Val() + Modulus() - b.Val(), 1, Val() - b.Val(), Modulus());
      Subtract(b);
    }

    /** Sets a bit of a number that has no bits up to it. */
    method SetBitAt(shift: nat)
      requires Valid() && shift < 32 * pn.Length && LowClear(pn[..], shift + 1)
      modifies pn
      ensures Valid() && Val() == old(Val()) + Pow2(shift) && LowClear(pn[..], shift)
    {
      hide Part, Weight, Pow2, Or;
      var j, t := shift / 32, shift % 32;
      ghost var before := pn[..];
      BitOfLimb(before, shift);
      var limb := Or(pn[j], Pow2(t));
      PartUpdate(before, j, limb, pn.Length);
      pn[j] := limb;
      assert pn[..] == before[j := limb];
    }
  }

  lemma AddStart(x: seq<nat>, y: seq<nat>)
    ensures Part(x, 0) == 0 && Part(y, 0) == 0 && Weight(0) == 1
  {
  }

  lemma ProductFits(a: nat, b: nat, c: nat, d: nat)
    requires a < BASE && b < BASE && c < BASE && d < BASE
    ensures c + d + a * b < BASE * BASE
  {
    Scale(a, BASE - 1, b);
    Scale(b, BASE - 1, BASE - 1);
  }

  // ---- multiplication ----

  function Times(a: nat, b: nat): nat { a * b }

  lemma LimbUpdate(s: seq<nat>, i: nat, x: nat)
    requires i < |s|
    ensures Value(s[i := x]) == Value(s) - Times(s[i], Weight(i)) + Times(x, Weight(i))
            && Weight(i + 1) == Times(BASE, Weight(i))
  {
    PartUpdate(s, i, x, |s|);
  }

  lemma RowPart(y: seq<nat>, i: nat, j: nat)
    requires i < |y|
    ensures Part(y, i + 1) == Part(y, i) + Times(y[i], Weight(i)) && Weight(i + j) == Times(Weight(i), Weight(j))
  {
    WeightAdd(i, j);
  }

  lemma RowStart(y: seq<nat>, limb: nat, w: nat)
    ensures Times(0, w) == 0 && Times(Times(limb, Part(y, 0)), w) == 0
  {
  }

  lemma RowFits(a: nat, b: nat, c: nat, d: nat)
    requires a < BASE && b < BASE && c < BASE && d < BASE
    ensures c + d + Times(a, b) < BASE * BASE
  {
    ProductFits(a, b, c, d);
  }

  lemma RowRest(x: seq<nat>, y: seq<nat>, j: nat)
    requires j < |x| == |y|
    ensures Value(y) == Part(y, |y| - j) + Times(Weight(|y| - j), Part(y[|y| - j..], j))
    ensures Times(Weight(|y| - j), Weight(j)) == Weight(|y|) && Part(x, j + 1) == Part(x, j) + Times(x[j], Weight(j))
  {
    PartSplit(y, |y| - j, |y|);
    WeightAdd(|y| - j, j);
  }

  lemma RowStep(val: nat, old_: nat, carry: nat, n: nat, w: nat, start: nat, limb: nat, part: nat, y: nat, wi: nat,
                wj: nat)
    requires n == carry + old_ + Times(limb, y) && val + Times(carry, w) == start + Times(Times(limb, part), wj)
             && w == Times(wi, wj)
    ensures val - Times(old_, w) + Times(n % BASE, w) + Times(n / BASE, Times(BASE, w)) ==
            start + Times(Times(limb, part + Times(y, wi)), wj)
  {
    Split(n);
    assert n * w == n % BASE * w + n / BASE * (BASE * w);
    assert n * w == carry * w + old_ * w + limb * y * w;
    assert limb * (part + y * wi) * wj == limb * part * wj + limb * y * (wi * wj);
  }

  lemma RowEnd(val: nat, carry: nat, start: nat, limb: nat, low: nat, rest: nat, wr: nat, wj: nat, m: nat, over: nat,
               part: nat, y: nat)
    requires val + Times(carry, m) == start + Times(Times(limb, low), wj) && start + Times(over, m) == Times(part, y)
    requires y == low + Times(wr, rest) && Times(wr, wj) == m
    ensures val + Times(over + carry + Times(limb, rest), m) == Times(part + Times(limb, wj), y)
  {
    assert (over + carry + limb * rest) * m == over * m + carry * m + limb * rest * m;
    assert (part + limb * wj) * y == part * y + limb * wj * y;
    assert limb * wj * (low + wr * rest) == limb * low * wj + limb * rest * (wr * wj);
  }

  // ---- shifting ----

  /** The limbs of a left shift after the first i limbs have been moved. */
  ghost predicate LeftSoFar(a: seq<nat>, r: seq<nat>, k: nat, s: nat, i: nat) {
    |r| == |a| && i <= |a| && forall m | 0 <= m < |r| ::
      r[m] == (if k <= m < i + k then Stays(a[m - k], s) else 0) + if k + 1 <= m <= i + k then Moves(a[m - k - 1], s)
      else 0
  }

  lemma LeftDone(a: seq<nat>, r: seq<nat>, k: nat, s: nat)
    requires LeftSoFar(a, r, k, s, |a|)
    ensures ShiftedLeft(a, r, k, s)
  {
  }

  lemma OrZeroLeft(x: nat)
    ensures Or(0, x) == x
  {
    OrComm(0, x);
    OrZero(x);
  }

  lemma NoMoves(x: nat)
    ensures x < BASE ==> Moves(x, 0) == 0
  {
  }

  /** What moved into a limb and what stays in it have no bit in common. */
  lemma LeftOr(a: seq<nat>, r: seq<nat>, k: nat, s: nat, i: nat)
    requires Limbs(a) && s < 32 && i < |a| == |r| && i + k < |r|
    requires r[i + k] == if i > 0 then Moves(a[i - 1], s) else 0
    ensures Or(r[i + k], Stays(a[i], s)) == Stays(a[i], s) + r[i + k]
  {
    hide Stays, Moves, Or;
    Pieces(a[i], s);
    if i > 0 {
      Pieces(a[i - 1], s);
    }
    OrDisjoint(a[i] % Pow2(32 - s), r[i + k], s);
    OrComm(r[i + k], Stays(a[i], s));
  }

  lemma LeftNext(a: seq<nat>, r: seq<nat>, r': seq<nat>, k: nat, s: nat, i: nat)
    requires LeftSoFar(a, r, k, s, i) && i < |a| && |r'| == |r| && (s == 0 ==> Moves(a[i], s) == 0)
    requires i + k < |r| ==> r'[i + k] == r[i + k] + Stays(a[i], s)
    requires i + k + 1 < |r| ==> r'[i + k + 1] == r[i + k + 1] + Moves(a[i], s)
    requires forall m | 0 <= m < |r| && m != i + k && m != i + k + 1 :: r'[m] == r[m]
    ensures LeftSoFar(a, r', k, s, i + 1)
  {
  }

  ghost predicate RightSoFar(a: seq<nat>, r: seq<nat>, k: nat, s: nat, i: nat)
    requires s < 32
  {
    |r| == |a| && i <= |a| && forall m | 0 <= m < |r| ::
      r[m] == (if m + k < i then Kept(a[m + k], s) else 0) + if m + k + 1 < i then Falls(a[m + k + 1], s) else 0
  }

  lemma RightDone(a: seq<nat>, r: seq<nat>, k: nat, s: nat)
    requires s < 32 && RightSoFar(a, r, k, s, |a|)
    ensures ShiftedRight(a, r, k, s)
  {
  }

  lemma NoFalls(x: nat)
    ensures Falls(x, 0) == 0
  {
    assert Pow2(0) == 1;
  }

  lemma RightOr(a: seq<nat>, r: seq<nat>, k: nat, s: nat, i: nat)
    requires Limbs(a) && 0 < s < 32 && RightSoFar(a, r, k, s, i) && k + 1 <= i < |a|
    ensures Or(r[i - k - 1], Stays(a[i], 32 - s)) == r[i - k - 1] + Falls(a[i], s)
  {
    hide Stays, Moves, Or, Pow2;
    Pieces(a[i], 32 - s);
    Pow2Base();
    Pow2Add(s, 32 - s);
    LessQuotient(a[i - 1], Pow2(s), Pow2(32 - s));
    OrDisjoint(a[i] % Pow2(s), r[i - k - 1], 32 - s);
    OrComm(r[i - k - 1], Stays(a[i], 32 - s));
  }

  lemma RightNext(a: seq<nat>, r: seq<nat>, r': seq<nat>, k: nat, s: nat, i: nat)
    requires s < 32 && RightSoFar(a, r, k, s, i) && i < |a| && |r'| == |r| && (s == 0 ==> Falls(a[i], s) == 0)
    requires i >= k ==> r'[i - k] == Kept(a[i], s)
    requires i >= k + 1 ==> r'[i - k - 1] == r[i - k - 1] + Falls(a[i], s)
    requires forall m | 0 <= m < |r| && m != i - k && m != i - k - 1 :: r'[m] == r[m]
    ensures RightSoFar(a, r', k, s, i + 1)
  {
  }

  // ---- words and bits ----

  /** The limbs of a 64-bit number. */
  lemma WordLimbs(s: seq<nat>, b: nat)
    requires Limbs(s) && |s| >= 2 && Value(s) == b < BASE * BASE
    ensures s[0] == b % BASE && s[1] == b / BASE && forall i | 2 <= i < |s| :: s[i] == 0
  {
    var word := seq(|s|, i => if i == 0 then b % BASE else if i == 1 then b / BASE else 0);
    Split(b);
    LessQuotient(b, BASE, BASE);
    assert Limbs(word);
    LowLimbs(word);
    ZeroAbove(word, 2, |s|);
    TwoLimbs(word);
    ValueInjective(s, word);
  }

  lemma TwoLimbs(s: seq<nat>)
    requires |s| >= 2
    ensures Part(s, 2) == s[0] + s[1] * BASE
  {
    assert Weight(0) == 1 && Weight(1) == BASE;
    assert Part(s, 1) == s[0];
  }

  lemma LowLimbs(s: seq<nat>)
    requires Limbs(s) && |s| >= 2
    ensures Value(s) % (BASE * BASE) == s[0] + s[1] * BASE
  {
    PartSplit(s, 2, |s|);
    TwoLimbs(s);
    assert Weight(2) == BASE * BASE by {
      assert Weight(1) == BASE;
    }
    PartBound(s, 2);
    DivMod(Value(s), Part(s[2..], |s| - 2), Part(s, 2), BASE * BASE);
  }

  /** The highest bit of a limb that is not zero. */
  method TopBit(x: nat) returns (top: nat)
    requires 0 < x < BASE
    ensures top < 32 && Pow2(top) <= x < Pow2(top + 1)
  {
    hide Pow2;
    Pow2Base();
    top := 31;
    while top > 0
      invariant top < 32 && x < Pow2(top + 1)
    {
      Pow2Twice(top);
      if x / Pow2(top) % 2 == 1 {
        BitSet(x, Pow2(top));
        return;
      }
      BitNotSet(x, Pow2(top));
      top := top - 1;
    }
    PowZero();
  }

  lemma BitSet(x: nat, p: nat)
    requires p > 0 && x / p % 2 == 1
    ensures x >= p
  {
  }

  lemma BitNotSet(x: nat, p: nat)
    requires p > 0 && x < 2 * p && x / p % 2 != 1
    ensures x < p
  {
    LessQuotient(x, p, 2);
  }

  lemma Pow2Twice(n: int)
    requires n >= 0
    ensures Pow2(n + 1) == 2 * Pow2(n)
  {
  }

  lemma PowZero()
    ensures Pow2(0) == 1
  {
  }

  lemma TopLimb(s: seq<nat>, pos: nat, top: nat)
    requires Limbs(s) && pos < |s| && (forall j | pos < j < |s| :: s[j] == 0) && top < 32
             && Pow2(top) <= s[pos] < Pow2(top + 1)
    ensures Pow2(32 * pos + top) <= Value(s) < Pow2(32 * pos + top + 1)
  {
    hide Part, Weight, Pow2;
    ZeroAbove(s, pos + 1, |s|);
    PartNext(s, pos);
    PartBound(s, pos);
    WeightPow2(pos);
    Pow2Add(32 * pos, top);
    Pow2Add(32 * pos, top + 1);
    Between(Part(s, pos), s[pos], Pow2(top), Pow2(top + 1), Weight(pos));
  }

  lemma Between(part: nat, x: nat, p: nat, q: nat, w: nat)
    requires p <= x < q && part < w
    ensures w * p <= part + x * w < w * q
  {
    Scale(p, x, w);
    Scale(x + 1, q, w);
    assert (x + 1) * w == x * w + w;
  }

  // ---- division ----

  lemma SmallOverLarge(n: nat, d: nat, nb: nat, db: nat)
    requires db > nb && Pow2(db - 1) <= d && (if n == 0 then true else n < Pow2(nb))
    ensures d > 0 && n / d == 0
  {
    Pow2Mono(nb, db - 1);
    DivMod(n, 0, n, d);
  }

  lemma AlignedFits(n: nat, d: nat, nb: nat, db: nat, w: nat)
    requires 0 < db <= nb <= 32 * w && Pow2(db - 1) <= d < Pow2(db) && n < Pow2(nb)
    ensures d * Pow2(nb - db) < Weight(w) && d * Pow2(nb - db) % Weight(w) == d * Pow2(nb - db)
            && n < d * Pow2(nb - db + 1)
  {
    hide Pow2, Weight;
    WeightPow2(w);
    Pow2Mono(nb, 32 * w);
    Pow2Add(db, nb - db);
    Pow2Add(db - 1, nb - db + 1);
    LessProduct(d, Pow2(db), Pow2(nb - db));
    assert Pow2(db) * Pow2(nb - db) == Pow2(nb - db) * Pow2(db);
    Scale(Pow2(db - 1), d, Pow2(nb - db + 1));
    DivMod(d * Pow2(nb - db), 0, d * Pow2(nb - db), Weight(w));
  }

  lemma DoubleProduct(d: nat, p: nat)
    ensures d * (2 * p) == 2 * (d * p)
  {
  }

  lemma QuotientBit(q: nat, p: nat, d: nat)
    ensures (q - p) * d + d * p == q * d
  {
    assert (q - p) * d == q * d - p * d;
  }

  lemma HalfOf(d: nat, shift: int)
    requires shift >= 0
    ensures Pow2(1) == 2 && (shift >= 1 ==> d * Pow2(shift) / 2 == d * Pow2(shift - 1))
  {
    assert Pow2(1) == 2;
    if shift >= 1 {
      DoubleProduct(d, Pow2(shift - 1));
    }
  }

  /** The number has no bits below a position. */
  ghost predicate LowClear(s: seq<nat>, bit: nat) {
    && (forall i | 0 <= i < |s| && 32 * i + 32 <= bit :: s[i] == 0)
    && (bit / 32 < |s| ==> exists q: nat :: s[bit / 32] == q * Pow2(bit % 32))
  }

  lemma ZeroClear(s: seq<nat>, bit: nat)
    requires forall i | 0 <= i < |s| :: s[i] == 0
    ensures LowClear(s, bit)
  {
    assert 0 == 0 * Pow2(bit % 32);
  }

  lemma LowClearLess(s: seq<nat>, bit: nat)
    requires LowClear(s, bit + 1) && bit < 32 * |s|
    ensures LowClear(s, bit)
  {
    hide Pow2;
    var q := ClearLimb(s, bit);
    assert s[bit / 32] == (2 * q) * Pow2(bit % 32);
  }

  /** The limb of a bit, when the number has no bits up to that one, is a multiple of the next power. */
  lemma ClearLimb(s: seq<nat>, bit: nat) returns (q: nat)
    requires LowClear(s, bit + 1) && bit < 32 * |s|
    ensures s[bit / 32] == q * Pow2(bit % 32 + 1) == 2 * q * Pow2(bit % 32)
  {
    hide Pow2;
    Pow2Twice(bit % 32);
    var j, t := bit / 32, bit % 32;
    if t == 31 {
      q := 0;
    } else {
      assert (bit + 1) / 32 == j && (bit + 1) % 32 == t + 1;
      q :| s[j] == q * Pow2(t + 1);
      assert q * (2 * Pow2(t)) == 2 * q * Pow2(t);
    }
  }

  lemma BitOfLimb(s: seq<nat>, bit: nat)
    requires Limbs(s) && LowClear(s, bit + 1) && bit < 32 * |s|
    ensures var limb := Or(s[bit / 32], Pow2(bit % 32));
            && limb == s[bit / 32] + Pow2(bit % 32) < BASE && LowClear(s[bit / 32 := limb], bit)
            && limb * Weight(bit / 32) == s[bit / 32] * Weight(bit / 32) + Pow2(bit)
  {
    hide Pow2, Or, Weight;
    var j, t := bit / 32, bit % 32;
    var p := Pow2(t);
    var q := ClearLimb(s, bit);
    Pow2Twice(t);
    OrDisjoint(q, p, t + 1);
    Pow2Base();
    Pow2Add(t + 1, 31 - t);
    BelowMultiple(q, Pow2(t + 1), Pow2(31 - t));
    WeightPow2(j);
    Pow2Add(32 * j, t);
    OddMultiple(q, p, s[j], Weight(j));
    var limb := Or(s[j], p);
    assert s[j := limb][j] == (2 * q + 1) * p;
  }

  lemma OddMultiple(q: nat, p: nat, x: nat, w: nat)
    requires x == 2 * q * p
    ensures x + p == (2 * q + 1) * p && (x + p) * w == x * w + w * p
  {
  }

  lemma BelowMultiple(q: nat, p: nat, m: nat)
    requires p > 0 && q * p < p * m
    ensures q * p + p <= p * m
  {
    if q >= m {
      Scale(m, q, p);
    } else {
      LessProduct(q, m, p);
    }
  }

  lemma TimesNext(part: nat, limb: nat, w: nat, b: nat)
    ensures (part + limb * w) * b == part * b + b * limb * w
  {
    assert (part + limb * w) * b == part * b + limb * w * b;
    assert limb * w * b == b * limb * w;
  }

  lemma ModPlusMod(a: nat, b: nat, m: nat)
    requires m > 0
    ensures (a + b % m) % m == (a + b) % m
  {
    var q := b / m;
    assert b == q * m + b % m;
    var c := a + b % m;
    assert a + b == (q + c / m) * m + c % m by {
      assert c == c / m * m + c % m;
      assert (q + c / m) * m == q * m + c / m * m;
    }
    DivMod(a + b, q + c / m, c % m, m);
  }
}
