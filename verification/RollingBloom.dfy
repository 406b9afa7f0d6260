/**
 CRollingBloomFilter (src/bloom.cpp:216-321): a Bloom filter whose bits carry a generation of 1 to 3 in two packed bits,
 so that old keys can be wiped a generation at a time.  The hash of a key, with the filter's tweak, is a parameter.
 */
module RollingBloom {
  import opened Powers

  type Key = nat

  // ---- words ----

  /** A word by its bits; only bits 0 to 63 are ever looked at. */
  type Word = nat -> bool

  function And(x: Word, y: Word): Word { (i: nat) => x(i) && y(i) }
  function Or(x: Word, y: Word): Word { (i: nat) => x(i) || y(i) }
  function Xor(x: Word, y: Word): Word { (i: nat) => x(i) != y(i) }
  function Not(x: Word): Word { (i: nat) => !x(i) }

  /** v << b for a single bit v. */
  function Shifted(v: bool, b: nat): Word { (i: nat) => v && i == b }

  /** 0 - v for a single bit v. */
  function Filled(v: bool): Word { (i: nat) => v }

  // ---- generations ----

  /** The generation a bit position of a pair of words carries: 0 for unset. */
  function Gen(lo: Word, hi: Word, b: nat): nat { (if lo(b) then 1 else 0) + if hi(b) then 2 else 0 }

  predicate One(g: nat) { g % 2 == 1 }
  predicate Two(g: nat) { g / 2 == 1 }

  /** The generation before, of three in a circle. */
  function Before(g: nat): nat { if g <= 1 then 3 else g - 1 }

  /** The generation at a position of the p-th pair of words. */
  ghost function GenAt(data: seq<Word>, p: nat, b: nat): nat
    requires 2 * p + 1 < |data|
  {
    Gen(data[2 * p], data[2 * p + 1], b)
  }

  /** FastMod. */
  function FastMod(x: nat, n: nat): (r: nat)
    ensures r * 0x1_0000_0000 <= x * n < (r + 1) * 0x1_0000_0000
  {
    Quotient(x * n, TWO_32)
  }

  lemma FastModInRange(x: nat, n: nat)
    requires x < TWO_32 && n > 0
    ensures FastMod(x, n) < n
  {
    LessProduct(x, TWO_32, n);
    LessQuotient(x * n, TWO_32, n);
  }

  /** Every place of the key holds one of the generations. */
  ghost predicate KeyIn(data: seq<Word>, hash: (Key, nat) -> nat, funcs: nat, key: Key, gens: set<nat>) {
    |data| % 2 == 0 && forall n: nat | n < funcs :: PlaceIn(data, hash(key, n), gens)
  }

  /** The place a hash stands for holds one of the generations; the lowest bit of the word's index is ignored. */
  ghost predicate PlaceIn(data: seq<Word>, h: nat, gens: set<nat>) {
    var pos := FastMod(h, |data|);
    2 * (pos / 2) + 1 < |data| && GenAt(data, pos / 2, h % 64) in gens
  }

  /** How old the key at an index of the history is: 0 for the current generation, 1 and 2 for those before. */
  ghost function Age(size: nat, i: nat, perGeneration: nat, thisGeneration: nat): int
    requires i < size && perGeneration > 0
  {
    var d := size - 1 - i;
    if d < thisGeneration then 0 else if d < thisGeneration + perGeneration then 1
    else if d < thisGeneration + 2 * perGeneration then 2 else 3
  }

  /** The generations a key of an age may be found under: its own and later ones. */
  function Since(g: nat, age: int): set<nat> {
    if age == 0 then {g} else if age == 1 then {g, Before(g)} else {g, Before(g), Before(Before(g))}
  }

  ghost predicate Remembers(data: seq<Word>, hash: (Key, nat) -> nat, funcs: nat, history: seq<Key>, per: nat,
                            this_: nat, g: nat)
    requires per > 0
  {
    forall i: nat | i < |history| && Age(|history|, i, per, this_) < 3 ::
      KeyIn(data, hash, funcs, history[i], Since(g, Age(|history|, i, per, this_)))
  }

  /** A place of the key. */
  ghost predicate Marks(hash: (Key, nat) -> nat, funcs: nat, size: nat, key: Key, p: nat, b: nat) {
    exists n: nat :: n < funcs && FastMod(hash(key, n), size) / 2 == p && hash(key, n) % 64 == b
  }

  function AgeOf(gen: nat, g: nat): int { if gen == g then 0 else if gen == Before(g) then 1 else 2 }

  /** A key of an age has the position among its places. */
  ghost predicate Explained(hash: (Key, nat) -> nat, funcs: nat, size: nat, history: seq<Key>, per: nat, this_: nat,
                            p: nat, b: nat, age: int)
    requires per > 0
  {
    exists i: nat :: i < |history| && Age(|history|, i, per, this_) == age && Marks(hash, funcs, size, history[i], p, b)
  }

  /** No position is set without a key of the last three generations, of the age its generation says. */
  ghost predicate NothingStale(data: seq<Word>, hash: (Key, nat) -> nat, funcs: nat, history: seq<Key>, per: nat,
                               this_: nat, g: nat)
    requires per > 0
  {
    forall p: nat, b: nat | 2 * p + 1 < |data| && GenAt(data, p, b) != 0 ::
      Explained(hash, funcs, |data|, history, per, this_, p, b, AgeOf(GenAt(data, p, b), g))
  }

  class RollingBloomFilter {
    const nHashFuncs: nat
    const data: array<Word>
    var nEntriesPerGeneration: nat
    var nEntriesThisGeneration: nat
    var nGeneration: nat
    var hash: (Key, nat) -> nat
    /** The keys inserted since the last reset. */
    ghost var history: seq<Key>

    ghost predicate Valid()
      reads this, data
    {
      && data.Length % 2 == 0 && data.Length > 0 && nEntriesPerGeneration > 0
      && nEntriesThisGeneration <= nEntriesPerGeneration
      && 1 <= nGeneration <= 3 && (forall k, n: nat :: hash(k, n) < TWO_32)
      && Remembers(data[..], hash, nHashFuncs, history, nEntriesPerGeneration, nEntriesThisGeneration, nGeneration)
      && NothingStale(data[..], hash, nHashFuncs, history, nEntriesPerGeneration, nEntriesThisGeneration, nGeneration)
    }

    /** The number of hash functions and of words, which come from logarithms, are given. */
    constructor (nElements: nat, hashFuncs: nat, words: nat, hash: (Key, nat) -> nat)
      requires nElements > 0 && words > 0 && forall k, n: nat :: hash(k, n) < TWO_32
      ensures Valid() && fresh(data) && history == [] && nEntriesPerGeneration == (nElements + 1) / 2
      ensures nHashFuncs == hashFuncs && this.hash == hash && data.Length == 2 * words
      ensures nEntriesThisGeneration == 0 && nGeneration == 1
      ensures forall i, b: nat | 0 <= i < data.Length :: !data[i](b)
    {
      nHashFuncs, nEntriesPerGeneration := hashFuncs, (nElements + 1) / 2;
      data := new Word[2 * words](_ => Filled(false));
      nEntriesThisGeneration, nGeneration := 0, 1;
      this.hash := hash;
      history := [];
    }

    /** Everything is forgotten and a new tweak, that is a new hash, chosen. */
    method Reset(newHash: (Key, nat) -> nat)
      requires Valid() && forall k, n: nat :: newHash(k, n) < TWO_32
      modifies this, data
      ensures Valid() && history == [] && hash == newHash && nEntriesPerGeneration == old(nEntriesPerGeneration)
      ensures nEntriesThisGeneration == 0 && nGeneration == 1
      ensures forall i, b: nat | 0 <= i < data.Length :: !data[i](b)
    {
      hash, nEntriesThisGeneration, nGeneration := newHash, 0, 1;
      history := [];
      for i := 0 to data.Length
        invariant forall j, b: nat | 0 <= j < i :: !data[j](b)
        modifies data
      {
        data[i] := Filled(false);
      }
    }

    /** Whether every place of the key is set. */
    method Contains(key: Key) returns (found: bool)
      requires Valid()
      ensures found <==> KeyIn(data[..], hash, nHashFuncs, key, {1, 2, 3})
    {
      for n := 0 to nHashFuncs
        invariant forall k: nat | k < n :: PlaceIn(data[..], hash(key, k), {1, 2, 3})
      {
        var h := hash(key, n);
        FastModInRange(h, data.Length);
        var pos := FastMod(h, data.Length);
        var bit := h % 64;
        if !Or(data[2 * (pos / 2)], data[2 * (pos / 2) + 1])(bit) {
          assert !PlaceIn(data[..], hash(key, n), {1, 2, 3});
          return false;
        }
        assert PlaceIn(data[..], hash(key, n), {1, 2, 3});
      }
      return true;
    }

    /** Wipes the entries that used a generation number. */
    method Wipe(g: nat)
      requires 1 <= g <= 3 && data.Length % 2 == 0
      modifies data
      ensures IsWiped(old(data[..]), data[..], g, data.Length / 2)
    {
      ghost var before := data[..];
      var mask1, mask2 := Filled(One(g)), Filled(Two(g));
      var q := 0;
      while 2 * q < data.Length
        invariant 2 * q <= data.Length && forall i | 2 * q <= i < data.Length :: data[i] == before[i]
        invariant IsWiped(before, data[..], g, q)
      {
        ghost var now := data[..];
        var p1, p2 := data[2 * q], data[2 * q + 1];
        var mask := Or(Xor(p1, mask1), Xor(p2, mask2));
        data[2 * q] := And(p1, mask);
        data[2 * q + 1] := And(p2, mask);
        WipedNext(before, now, data[..], g, q);
        q := q + 1;
      }
    }

    /** Writes the current generation into every place of the key. */
    method WriteKey(key: Key)
      requires data.Length % 2 == 0 && data.Length > 0 && 1 <= nGeneration <= 3
               && forall k, n: nat :: hash(k, n) < TWO_32
      modifies data
      ensures KeyIn(data[..], hash, nHashFuncs, key, {nGeneration})
      ensures OnlyNewer(old(data[..]), data[..], nGeneration)
              && OnlyMarked(old(data[..]), data[..], hash, nHashFuncs, key)
    {
      hide FastMod, GenAt;
      for n := 0 to nHashFuncs
        invariant forall k: nat | k < n :: PlaceIn(data[..], hash(key, k), {nGeneration})
        invariant OnlyNewer(old(data[..]), data[..], nGeneration)
                  && OnlyMarked(old(data[..]), data[..], hash, nHashFuncs, key)
      {
        ghost var before := data[..];
        var h := hash(key, n);
        var bit := h % 64;
        FastModInRange(h, data.Length);
        var pos := FastMod(h, data.Length);
        var even := 2 * (pos / 2);
        data[even] := Or(And(data[even], Not(Shifted(true, bit))), Shifted(One(nGeneration), bit));
        data[even + 1] := Or(And(data[even + 1], Not(Shifted(true, bit))), Shifted(Two(nGeneration), bit));
        WrittenPlace(before, data[..], pos / 2, bit, nGeneration);
        StillIn(before, data[..], nGeneration, {nGeneration});
        MarkedMore(old(data[..]), before, data[..], hash, nHashFuncs, key, n);
      }
    }

    /** An insertion; the oldest generation is wiped first when the current one is full. */
    method Insert(key: Key)
      requires Valid()
      modifies this`nEntriesThisGeneration, this`nGeneration, this`history, data
      ensures Valid() && history == old(history) + [key]
    {
      hide Remembers, KeyIn, OnlyNewer, OnlyMarked, IsWiped, NothingStale;
      if nEntriesThisGeneration == nEntriesPerGeneration {
        nEntriesThisGeneration := 0;
        nGeneration := nGeneration + 1;
        if nGeneration == 4 {
          nGeneration := 1;
        }
        ghost var before := data[..];
        Wipe(nGeneration);
        RollOver(before, data[..], hash, nHashFuncs, history, nEntriesPerGeneration, old(nGeneration), nGeneration);
        StaleWiped(before, data[..], hash, nHashFuncs, history, nEntriesPerGeneration, old(nGeneration), nGeneration);
      }
      nEntriesThisGeneration := nEntriesThisGeneration + 1;
      ghost var before := data[..];
      WriteKey(key);
      OneMore(before, data[..], hash, nHashFuncs, history, key, nEntriesPerGeneration, nEntriesThisGeneration - 1,
              nGeneration);
      NoneStaleMore(before, data[..], hash, nHashFuncs, history, key, nEntriesPerGeneration, nEntriesThisGeneration - 1,
                    nGeneration);
      history := history + [key];
    }
  }

  // ---- wiping ----

  ghost predicate IsWiped(before: seq<Word>, after: seq<Word>, g: nat, q: nat) {
    |after| == |before| && 2 * q <= |after| && forall p: nat, b: nat | p < q ::
      GenAt(after, p, b) == if GenAt(before, p, b) == g then 0 else GenAt(before, p, b)
  }

  lemma WipedNext(before: seq<Word>, now: seq<Word>, after: seq<Word>, g: nat, q: nat)
    requires IsWiped(before, now, g, q) && |after| == |now| && 2 * q + 1 < |now| && 1 <= g <= 3
    requires now[2 * q] == before[2 * q] && now[2 * q + 1] == before[2 * q + 1]
    requires forall i | 0 <= i < 2 * q :: after[i] == now[i]
    requires var mask := Or(Xor(now[2 * q], Filled(One(g))), Xor(now[2 * q + 1], Filled(Two(g))));
             after[2 * q] == And(now[2 * q], mask) && after[2 * q + 1] == And(now[2 * q + 1], mask)
    ensures IsWiped(before, after, g, q + 1)
  {
    forall p: nat, b: nat | p < q + 1
      ensures GenAt(after, p, b) == if GenAt(before, p, b) == g then 0 else GenAt(before, p, b)
    {
      if p < q {
        assert GenAt(after, p, b) == GenAt(now, p, b);
      }
    }
  }

  // ---- writing ----

  /** Every position keeps its generation or has the newest. */
  ghost predicate OnlyNewer(before: seq<Word>, after: seq<Word>, g: nat) {
    |after| == |before| && forall p: nat, b: nat | 2 * p + 1 < |after| ::
      GenAt(after, p, b) == GenAt(before, p, b) || GenAt(after, p, b) == g
  }

  lemma WrittenPlace(before: seq<Word>, after: seq<Word>, p: nat, bit: nat, g: nat)
    requires 1 <= g <= 3 && |after| == |before| && 2 * p + 1 < |after|
    requires forall i | 0 <= i < |after| && i != 2 * p && i != 2 * p + 1 :: after[i] == before[i]
    requires after[2 * p] == Or(And(before[2 * p], Not(Shifted(true, bit))), Shifted(One(g), bit))
    requires after[2 * p + 1] == Or(And(before[2 * p + 1], Not(Shifted(true, bit))), Shifted(Two(g), bit))
    ensures GenAt(after, p, bit) == g && OnlyNewer(before, after, g)
    ensures forall q: nat, c: nat | 2 * q + 1 < |after| && !(q == p && c == bit) ::
              GenAt(after, q, c) == GenAt(before, q, c)
  {
  }

  lemma StillIn(before: seq<Word>, after: seq<Word>, g: nat, gens: set<nat>)
    requires OnlyNewer(before, after, g) && g in gens
    ensures forall h: nat | PlaceIn(before, h, gens) :: PlaceIn(after, h, gens)
  {
    hide FastMod, GenAt;
  }

  // ---- remembering ----

  lemma KeyStillIn(before: seq<Word>, after: seq<Word>, hash: (Key, nat) -> nat, funcs: nat, key: Key, g: nat,
                   gens: set<nat>)
    requires OnlyNewer(before, after, g) && g in gens && KeyIn(before, hash, funcs, key, gens)
    ensures KeyIn(after, hash, funcs, key, gens)
  {
    hide FastMod, GenAt, OnlyNewer;
    SameLength(before, after, g);
    StillIn(before, after, g, gens);
  }

  lemma SameLength(before: seq<Word>, after: seq<Word>, g: nat)
    requires OnlyNewer(before, after, g)
    ensures |after| == |before|
  {
  }

  /** One more key in the current generation. */
  lemma OneMore(before: seq<Word>, after: seq<Word>, hash: (Key, nat) -> nat, funcs: nat, history: seq<Key>, key: Key,
                per: nat, this_: nat, g: nat)
    requires per > 0 && Remembers(before, hash, funcs, history, per, this_, g) && OnlyNewer(before, after, g)
    requires KeyIn(after, hash, funcs, key, {g})
    ensures Remembers(after, hash, funcs, history + [key], per, this_ + 1, g)
  {
    hide KeyIn, OnlyNewer;
    var more := history + [key];
    forall i: nat | i < |more| && Age(|more|, i, per, this_ + 1) < 3
      ensures KeyIn(after, hash, funcs, more[i], Since(g, Age(|more|, i, per, this_ + 1)))
    {
      if i < |history| {
        assert Age(|more|, i, per, this_ + 1) == Age(|history|, i, per, this_);
        KeyStillIn(before, after, hash, funcs, history[i], g, Since(g, Age(|history|, i, per, this_)));
      }
    }
  }

  lemma KeyAged(before: seq<Word>, after: seq<Word>, hash: (Key, nat) -> nat, funcs: nat, key: Key, g: nat, g': nat,
                age: int)
    requires IsWiped(before, after, g', |after| / 2) && 1 <= g <= 3 && g' == (if g == 3 then 1 else g + 1)
             && 0 <= age <= 1
    requires KeyIn(before, hash, funcs, key, Since(g, age))
    ensures KeyIn(after, hash, funcs, key, Since(g', age + 1))
  {
    hide FastMod, GenAt;
    forall n: nat | n < funcs ensures PlaceIn(after, hash(key, n), Since(g', age + 1)) {
      assert PlaceIn(before, hash(key, n), Since(g, age));
    }
  }

  /** A new generation: what was current becomes the one before, and what was two before is wiped. */
  lemma RollOver(before: seq<Word>, after: seq<Word>, hash: (Key, nat) -> nat, funcs: nat, history: seq<Key>, per: nat,
                 g: nat, g': nat)
    requires per > 0 && Remembers(before, hash, funcs, history, per, per, g)
    requires 1 <= g <= 3 && g' == if g == 3 then 1 else g + 1
    requires IsWiped(before, after, g', |after| / 2)
    ensures Remembers(after, hash, funcs, history, per, 0, g')
  {
    hide KeyIn, IsWiped;
    forall i: nat | i < |history| && Age(|history|, i, per, 0) < 3
      ensures KeyIn(after, hash, funcs, history[i], Since(g', Age(|history|, i, per, 0)))
    {
      var age := Age(|history|, i, per, per);
      assert Age(|history|, i, per, 0) == age + 1;
      KeyAged(before, after, hash, funcs, history[i], g, g', age);
    }
  }

  /** The last 2 * nEntriesPerGeneration keys are always reported present. */
  lemma RecentAreFound(f: RollingBloomFilter, i: nat)
    requires f.Valid() && i < |f.history| && |f.history| - i <= f.nEntriesThisGeneration + 2 * f.nEntriesPerGeneration
    ensures KeyIn(f.data[..], f.hash, f.nHashFuncs, f.history[i], {1, 2, 3})
  {
    hide FastMod, GenAt;
    var age := Age(|f.history|, i, f.nEntriesPerGeneration, f.nEntriesThisGeneration);
    assert KeyIn(f.data[..], f.hash, f.nHashFuncs, f.history[i], Since(f.nGeneration, age));
    assert Since(f.nGeneration, age) <= {1, 2, 3};
    forall n: nat | n < f.nHashFuncs ensures PlaceIn(f.data[..], f.hash(f.history[i], n), {1, 2, 3}) {
      assert PlaceIn(f.data[..], f.hash(f.history[i], n), Since(f.nGeneration, age));
    }
  }

  // ---- nothing stale ----

  /** Only places of the key have changed. */
  ghost predicate OnlyMarked(before: seq<Word>, after: seq<Word>, hash: (Key, nat) -> nat, funcs: nat, key: Key) {
    |after| == |before| && forall p: nat, b: nat | 2 * p + 1 < |after| && GenAt(after, p, b) != GenAt(before, p, b) ::
      Marks(hash, funcs, |after|, key, p, b)
  }

  lemma MarkedMore(start: seq<Word>, before: seq<Word>, after: seq<Word>, hash: (Key, nat) -> nat, funcs: nat,
                   key: Key, n: nat)
    requires OnlyMarked(start, before, hash, funcs, key) && n < funcs && |after| == |before|
    requires var h := hash(key, n);
             forall q: nat, c: nat | 2 * q + 1 < |after| && !(q == FastMod(h, |after|) / 2 && c == h % 64) ::
               GenAt(after, q, c) == GenAt(before, q, c)
    ensures OnlyMarked(start, after, hash, funcs, key)
  {
    hide FastMod, GenAt;
  }

  /** A new generation leaves the other two, a generation older. */
  lemma StaleWiped(before: seq<Word>, after: seq<Word>, hash: (Key, nat) -> nat, funcs: nat, history: seq<Key>,
                   per: nat, g: nat, g': nat)
    requires per > 0 && NothingStale(before, hash, funcs, history, per, per, g)
    requires 1 <= g <= 3 && g' == if g == 3 then 1 else g + 1
    requires IsWiped(before, after, g', |after| / 2)
    ensures NothingStale(after, hash, funcs, history, per, 0, g')
  {
    hide FastMod, Marks;
    forall p: nat, b: nat | 2 * p + 1 < |after| && GenAt(after, p, b) != 0
      ensures Explained(hash, funcs, |after|, history, per, 0, p, b, AgeOf(GenAt(after, p, b), g'))
    {
      var gen := GenAt(before, p, b);
      assert GenAt(after, p, b) == gen && gen != g';
      GenSmall(before, p, b);
      assert AgeOf(gen, g') == AgeOf(gen, g) + 1;
      var i: nat :| i < |history| && Age(|history|, i, per, per) == AgeOf(gen, g)
                    && Marks(hash, funcs, |before|, history[i], p, b);
      assert Age(|history|, i, per, 0) == AgeOf(gen, g');
    }
  }

  lemma GenSmall(data: seq<Word>, p: nat, b: nat)
    requires 2 * p + 1 < |data|
    ensures GenAt(data, p, b) <= 3
  {
  }

  lemma NoneStaleMore(before: seq<Word>, after: seq<Word>, hash: (Key, nat) -> nat, funcs: nat, history: seq<Key>,
                      key: Key, per: nat, this_: nat, g: nat)
    requires per > 0 && NothingStale(before, hash, funcs, history, per, this_, g) && OnlyNewer(before, after, g)
    requires OnlyMarked(before, after, hash, funcs, key)
    ensures NothingStale(after, hash, funcs, history + [key], per, this_ + 1, g)
  {
    hide FastMod, Marks, GenAt;
    var more := history + [key];
    forall p: nat, b: nat | 2 * p + 1 < |after| && GenAt(after, p, b) != 0
      ensures Explained(hash, funcs, |after|, more, per, this_ + 1, p, b, AgeOf(GenAt(after, p, b), g))
    {
      if GenAt(after, p, b) == GenAt(before, p, b) {
        var age := AgeOf(GenAt(after, p, b), g);
        var i: nat :| i < |history| && Age(|history|, i, per, this_) == age
                      && Marks(hash, funcs, |before|, history[i], p, b);
        assert more[i] == history[i] && Age(|more|, i, per, this_ + 1) == age;
      } else {
        assert more[|history|] == key && Age(|more|, |history|, per, this_ + 1) == 0;
      }
    }
  }
}
