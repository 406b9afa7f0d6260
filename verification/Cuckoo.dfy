/** CuckooCache::cache and its packed collection flags (src/cuckoocache.h). */
module Cuckoo {
  import opened Powers
  import opened ByteBits
  import opened CuckooModel

  /** Collection flags, eight to a byte. */
  class BitPackedFlags {
    var mem: seq<bv8>

    constructor (size: nat)
      ensures |mem| == (size + 7) / 8 && forall s: nat | s / 8 < |mem| :: IsSet(s)
    {
      var bytes := (size + 7) / 8;
      mem := seq(bytes, _ => 0xFF);
      new;
      forall s: nat | s / 8 < |mem| ensures IsSet(s) {
        EveryBit(s % 8);
      }
    }

    predicate IsSet(s: nat)
      requires s / 8 < |mem|
      reads this
    {
      Bit(mem[s / 8], s % 8)
    }

    method Set(s: nat)
      requires s / 8 < |mem|
      modifies this
      ensures |mem| == old(|mem|) && forall t: nat | t / 8 < |mem| :: IsSet(t) == (t == s || old(IsSet(t)))
    {
      mem := mem[s / 8 := mem[s / 8] | ((1 as bv8) << (s % 8))];
      forall t: nat | t / 8 == s / 8 ensures IsSet(t) == (t == s || old(IsSet(t))) {
        SetBit(old(mem)[s / 8], s % 8, t % 8);
      }
    }

    method Unset(s: nat)
      requires s / 8 < |mem|
      modifies this
      ensures |mem| == old(|mem|) && forall t: nat | t / 8 < |mem| :: IsSet(t) == (t != s && old(IsSet(t)))
    {
      mem := mem[s / 8 := mem[s / 8] & !((1 as bv8) << (s % 8))];
      forall t: nat | t / 8 == s / 8 ensures IsSet(t) == (t != s && old(IsSet(t))) {
        ClearBit(old(mem)[s / 8], s % 8, t % 8);
      }
    }
  }

  /** compute_hashes: eight 32-bit hashes scaled down to the table. */
  function ComputeHashes(hash: (Element, nat) -> nat, size: nat, e: Element): (locs: seq<nat>)
    ensures |locs| == 8
  {
    [Loc(hash(e, 0), size), Loc(hash(e, 1), size), Loc(hash(e, 2), size), Loc(hash(e, 3), size),
     Loc(hash(e, 4), size), Loc(hash(e, 5), size), Loc(hash(e, 6), size), Loc(hash(e, 7), size)]
  }

  /** A 32-bit hash as a fraction of 2^32, scaled to the table. */
  function Loc(h: nat, size: nat): (r: nat)
    ensures r * 0x1_0000_0000 <= h * size < (r + 1) * 0x1_0000_0000
  {
    Quotient(h * size, TWO_32)
  }

  lemma EpochShare(n: nat, share: nat)
    requires share == 45 * n % TWO_32 / 100
    ensures 45 * n < 0x1_0000_0000 ==> 100 * share <= 45 * n < 100 * (share + 1)
  {
  }

  lemma HashesInRange(hash: (Element, nat) -> nat, size: nat)
    requires size > 0 && forall e, k: nat :: hash(e, k) < TWO_32
    ensures Places(e => ComputeHashes(hash, size, e), size)
  {
    forall e, k | 0 <= k < |ComputeHashes(hash, size, e)| ensures ComputeHashes(hash, size, e)[k] < size {
      Scaled(hash(e, k), size);
    }
  }

  lemma Scaled(h: nat, size: nat)
    requires h < TWO_32 && size > 0
    ensures Loc(h, size) < size
  {
    LessProduct(h, TWO_32, size);
    LessQuotient(h * size, TWO_32, size);
  }

  class Cache {
    const hash: (Element, nat) -> nat
    var table: seq<Element>
    var size: nat
    const flags: BitPackedFlags
    var epoch: seq<bool>
    var counter: nat
    var epochSize: nat
    var depthLimit: nat
    ghost var live: Flags

    ghost function Place(): Element -> seq<nat>
      reads this`size
    {
      var hash, size := hash, size;
      e => ComputeHashes(hash, size, e)
    }

    /** The live flags are the collection flags not set. */
    ghost predicate Mirrors()
      reads this, flags
    {
      && size > 0 && |table| == |live| == |epoch| == size && |flags.mem| == (size + 7) / 8
      && forall i: nat | i < size :: live[i] == !flags.IsSet(i)
    }

    ghost predicate Valid()
      reads this, flags
    {
      Mirrors() && Inv(Place(), table, live) && 1 <= epochSize && counter <= epochSize && depthLimit >= 1
    }

    ghost function Elements(): set<Element>
      requires |table| == |live|
      reads this
    {
      Live(table, live)
    }

    ghost function Recent(): set<Element>
      requires |table| == |live| == |epoch|
      reads this
    {
      Live(table, Young(live, epoch))
    }

    /** Construction and setup; the depth limit, a logarithm of the size, is given. */
    constructor (hash: (Element, nat) -> nat, newSize: nat, depthLimit: nat, default: Element)
      requires (forall e, k: nat :: hash(e, k) < TWO_32) && newSize < TWO_32 && depthLimit >= 1
      ensures Valid() && fresh(flags) && Elements() == {} && size == if newSize < 2 then 2 else newSize
      ensures (forall i | 0 <= i < size :: table[i] == default && !epoch[i])
      ensures this.hash == hash && this.depthLimit == depthLimit && counter == epochSize
      ensures 45 * size < 0x1_0000_0000 ==>
                (100 * epochSize <= 45 * size || epochSize == 1) && 45 * size < 100 * (epochSize + 1)
    {
      hide ComputeHashes, First, Inv, Live;
      this.hash, this.depthLimit := hash, depthLimit;
      var n := if newSize < 2 then 2 else newSize;
      size, table, epoch := n, seq(n, _ => default), seq(n, _ => false);
      flags := new BitPackedFlags(n);
      var share := (45 * n) % TWO_32 / 100;
      epochSize := if share < 1 then 1 else share;
      counter := if share < 1 then 1 else share;
      live := seq(n, _ => false);
      EpochShare(n, share);
      new;
      HashesInRange(hash, n);
      NoneLive(Place(), table, live);
    }

    /** Marks a slot for collection. */
    method AllowErase(n: nat)
      requires Mirrors() && n < size
      modifies flags, this`live
      ensures Mirrors() && live == old(live)[n := false]
    {
      flags.Set(n);
      live := live[n := false];
    }

    method PleaseKeep(n: nat)
      requires Mirrors() && n < size
      modifies flags, this`live
      ensures Mirrors() && live == old(live)[n := true]
    {
      flags.Unset(n);
      live := live[n := true];
    }

    /** The next insertion starts a new epoch. */
    ghost predicate EpochDue()
      requires |live| == |epoch|
      reads this
    {
      counter == 0 && Count(Young(live, epoch), |live|) >= epochSize
    }

    /** With a new epoch the elements of the current one are all that stays live, and none is recent. */
    method EpochCheck()
      requires Valid()
      modifies flags, this`live, this`epoch, this`counter
      ensures Valid() && live == (if old(EpochDue()) then old(Young(live, epoch)) else old(live))
      ensures if old(EpochDue()) then counter == epochSize && (forall i | 0 <= i < size :: !epoch[i])
              else epoch == old(epoch)
      ensures old(counter) != 0 ==> counter == old(counter) - 1
      ensures old(counter == 0 && !EpochDue()) ==>
                var wait := epochSize - Count(Young(live, epoch), size);
                counter == if epochSize < 16 * (wait + 1) then wait else epochSize / 16
    {
      hide Inv;
      AgedKeeps(Place(), table, live, epoch);
      if counter != 0 {
        counter := counter - 1;
        return;
      }
      var unused := CountRecent();
      if unused >= epochSize {
        NewEpoch();
        counter := epochSize;
      } else {
        // the lower bound of one is always met
        counter := if epochSize / 16 > epochSize - unused then epochSize / 16 else epochSize - unused;
      }
    }

    method CountRecent() returns (n: nat)
      requires Mirrors()
      ensures n == Count(Young(live, epoch), size)
    {
      n := 0;
      for i := 0 to size
        invariant n == Count(Young(live, epoch), i)
      {
        n := n + if epoch[i] && !flags.IsSet(i) then 1 else 0;
      }
    }

    /** The current epoch becomes the old one and the old one is given up. */
    method NewEpoch()
      requires Mirrors()
      modifies flags, this`live, this`epoch
      ensures Mirrors() && live == old(Young(live, epoch)) && forall i | 0 <= i < size :: !epoch[i]
    {
      for i := 0 to size
        invariant Mirrors()
        invariant forall j | 0 <= j < i :: !epoch[j] && live[j] == (old(live)[j] && old(epoch)[j])
        invariant forall j | i <= j < size :: epoch[j] == old(epoch)[j] && live[j] == old(live)[j]
      {
        if epoch[i] {
          epoch := epoch[i := false];
        } else {
          AllowErase(i);
        }
      }
    }

    /** The first of the element's places that holds it, or -1. */
    method Find(locs: seq<nat>, e: Element) returns (loc: int)
      requires forall k | 0 <= k < |locs| :: locs[k] < |table|
      ensures loc == First(locs, table, e) && loc >= -1
    {
      var k := 0;
      assert locs[0..] == locs;
      while k < |locs|
        invariant k <= |locs| && First(locs, table, e) == First(locs[k..], table, e)
      {
        if table[locs[k]] == e {
          return locs[k];
        }
        assert locs[k..][1..] == locs[k + 1..];
        k := k + 1;
      }
      return -1;
    }

    /**
     Whether the table holds the element at one of its places, collected or not; with `erase`, its slot may be reused.
     */
    method Contains(e: Element, erase: bool) returns (found: bool)
      requires Valid()
      modifies flags, this`live
      ensures Valid() && found == (First(Place()(e), table, e) != -1)
      ensures e in old(Elements()) ==> found
      ensures Elements() == if erase then old(Elements()) - {e} else old(Elements())
    {
      var locs := ComputeHashes(hash, size, e);
      assert locs == Place()(e);
      var loc := Find(locs, e);
      FirstFound(locs, table, e);
      if e in Elements() {
        LiveOnce(Place(), table, live, e);
      }
      found := loc != -1;
      if found && erase {
        Erase(Place(), table, live, loc);
        AllowErase(loc);
      }
    }

    /** The index of the first place marked for collection, or the number of places. */
    method FindCollected(locs: seq<nat>) returns (k: nat)
      requires Mirrors() && forall j | 0 <= j < |locs| :: locs[j] < size
      ensures k <= |locs| && (k < |locs| ==> !live[locs[k]]) && forall j | 0 <= j < k :: live[locs[j]]
    {
      k := 0;
      while k < |locs|
        invariant k <= |locs| && forall j | 0 <= j < k :: live[locs[j]]
      {
        if flags.IsSet(locs[k]) {
          return;
        }
        k := k + 1;
      }
    }

    /** The place to swap with: the one after the last, or places[1] if the last is none of them. */
    method NextPlace(locs: seq<nat>, last: nat) returns (k: nat)
      requires |locs| == 8
      ensures k < 8 && ((forall j | 0 <= j < 8 :: locs[j] != last) ==> k == 1)
      ensures (exists j :: 0 <= j < 8 && locs[j] == last) ==>
                locs[(k + 7) % 8] == last && forall j | 0 <= j < (k + 7) % 8 :: locs[j] != last
    {
      var i := 0;
      while i < 8 && locs[i] != last
        invariant i <= 8 && forall j | 0 <= j < i :: locs[j] != last
      {
        i := i + 1;
      }
      k := (1 + i) % 8;
    }

    /**
     An insertion, after its epoch check: the live elements gain e and lose at most one element, possibly e itself, and
     every element keeps its epoch, e belonging to the current one.  If one of e's places is free nothing is lost; what
     is lost is lost after as many elements as the limit allows found no free place, e first.  Old elements are given up
     only when at least an epoch's size of recent ones is live, and then not again during the next epoch's size of
     insertions.
     */
    method Insert(e: Element) returns (ghost lost: set<Element>, ghost sought: seq<Element>)
      requires Valid()
      modifies flags, this`table, this`live, this`epoch, this`counter
      ensures Valid() && |lost| <= 1
      ensures Elements() == (if old(EpochDue()) then old(Recent()) else old(Elements())) + {e} - lost
      ensures Recent() == (if old(EpochDue()) then {} else old(Recent())) + {e} - lost
      ensures var now := if old(EpochDue()) then old(Young(live, epoch)) else old(live);
              (Open(now, Place()(e)) ==> lost == {}) && (lost != {} ==> Crowded(now, e, sought))
      ensures old(EpochDue()) <==> old(counter) == 0 && |old(Recent())| >= epochSize
      ensures old(counter) > 0 ==> counter == old(counter) - 1
      ensures old(counter) == 0 ==>
                var wait := epochSize - if old(EpochDue()) then 0 else |old(Recent())|;
                counter == if epochSize < 16 * (wait + 1) then wait else epochSize / 16
    {
      hide Inv, First, Live, Count, Young, ComputeHashes, Open;
      RecentCounted();
      EpochCheck();
      RecentCounted();
      NoneRecent(table, live, epoch);
      lost, sought := InsertChecked(e);
    }

    lemma RecentCounted()
      requires Valid()
      ensures |Recent()| == Count(Young(live, epoch), size)
    {
      AgedKeeps(Place(), table, live, epoch);
      CountIsSize(Place(), table, Young(live, epoch));
    }

    /** As many elements as the limit allows looked for a place in turn, `e` first, and found none free. */
    ghost predicate Crowded(now: Flags, e: Element, sought: seq<Element>)
      requires size == |now|
      reads this
    {
      |sought| == depthLimit >= 1 && sought[0] == e && forall i | 0 <= i < |sought| :: !Open(now, Place()(sought[i]))
    }

    /** The insertion itself. */
    method InsertChecked(e: Element) returns (ghost lost: set<Element>, ghost sought: seq<Element>)
      requires Valid()
      modifies flags, this`table, this`live, this`epoch
      ensures Valid() && |lost| <= 1 && Elements() == old(Elements()) + {e} - lost
              && Recent() == old(Recent()) + {e} - lost
      ensures (Open(old(live), Place()(e)) ==> lost == {}) && (lost != {} ==> Crowded(old(live), e, sought))
    {
      hide Inv, First, Live, Count, Young, ComputeHashes, Open;
      var locs := ComputeHashes(hash, size, e);
      PlacesInRange(Place(), table, live, e);
      assert locs == Place()(e);
      var loc := Find(locs, e);
      if loc != -1 {
        KeepAt(loc, e);
        lost, sought := {}, [];
      } else {
        NotLive(Place(), table, live, e);
        lost, sought := PlaceElement(e);
      }
    }

    /** An element found in the table is kept and becomes recent. */
    method KeepAt(loc: nat, e: Element)
      requires Valid() && loc == First(Place()(e), table, e)
      modifies flags, this`live, this`epoch
      ensures Valid() && Elements() == old(Elements()) + {e} && Recent() == old(Recent()) + {e}
    {
      Keep(Place(), table, live, e, loc);
      YoungChange(Place(), table, live, epoch, loc, e, true);
      assert table[loc := e] == table;
      PleaseKeep(loc);
      epoch := epoch[loc := true];
    }

    /**
     The element goes to a free place, or takes one from another element that then looks for a place, up to the limit.
     */
    method PlaceElement(e: Element) returns (ghost lost: set<Element>, ghost sought: seq<Element>)
      requires Valid() && e !in Elements()
      modifies flags, this`table, this`live, this`epoch
      ensures Valid() && |lost| <= 1 && Elements() == old(Elements()) + {e} - lost
              && Recent() == old(Recent()) + {e} - lost
      ensures (Open(old(live), Place()(e)) ==> lost == {}) && (lost != {} ==> Crowded(old(live), e, sought))
    {
      hide Inv, First, Live, Held, ComputeHashes, Young;
      sought := [];
      var hand, handEpoch, last: nat := e, true, TWO_32 - 1;
      RecentLive(table, live, epoch);
      HeldStart(Elements(), Recent(), e);
      for depth := 0 to depthLimit
        invariant live == old(live) && |sought| == depth && (if depth == 0 then hand == e else sought[0] == e)
        invariant forall i | 0 <= i < depth :: !Open(old(live), Place()(sought[i]))
        invariant Valid() && hand !in Elements()
                  && Held(old(Elements()), old(Recent()), e, Elements(), Recent(), hand, handEpoch)
      {
        ghost var now, nowRecent, was, wasEpoch := Elements(), Recent(), hand, handEpoch;
        var locs := ComputeHashes(hash, size, hand);
        assert locs == Place()(hand);
        PlacesInRange(Place(), table, live, hand);
        var k := FindCollected(locs);
        if k < 8 {
          PutAt(hand, handEpoch, locs, k);
          HeldPut(old(Elements()), old(Recent()), e, now, nowRecent, hand, handEpoch);
          lost := {};
          return;
        }
        sought := sought + [hand];
        k := NextPlace(locs, last);
        last := locs[k];
        hand, handEpoch := SwapAt(hand, handEpoch, locs, k);
        HeldSwap(old(Elements()), old(Recent()), e, now, nowRecent, was, wasEpoch, Elements(), Recent(), hand,
                 handEpoch);
      }
      lost := {hand};
      HeldLose(old(Elements()), old(Recent()), e, Elements(), Recent(), hand, handEpoch);
    }

    method PutAt(e: Element, young: bool, locs: seq<nat>, k: nat)
      requires Valid() && e !in Elements() && locs == Place()(e) && k < |locs| && locs[k] < size && !live[locs[k]]
      requires forall j | 0 <= j < k :: locs[j] < size && live[locs[j]]
      modifies flags, this`table, this`live, this`epoch
      ensures Valid() && Elements() == old(Elements()) + {e} && Recent() == old(Recent()) + if young then {e} else {}
    {
      Put(Place(), table, live, e, k);
      YoungChange(Place(), table, live, epoch, locs[k], e, young);
      table := table[locs[k] := e];
      PleaseKeep(locs[k]);
      epoch := epoch[locs[k] := young];
    }

    method SwapAt(e: Element, young: bool, locs: seq<nat>, k: nat) returns (out: Element, outYoung: bool)
      requires Valid() && e !in Elements() && locs == Place()(e) && k < |locs|
      requires forall j | 0 <= j < |locs| :: locs[j] < size && live[locs[j]]
      modifies this`table, this`epoch
      ensures Valid() && out !in Elements() && Elements() + {out} == old(Elements()) + {e}
      ensures Recent() <= Elements()
      ensures Recent() + (if outYoung then {out} else {}) == old(Recent()) + if young then {e} else {}
    {
      var p := locs[k];
      Swap(Place(), table, live, e, k);
      YoungChange(Place(), table, live, epoch, p, e, young);
      assert live[p := true] == live;
      RecentHas(table, live, epoch, p);
      out, outYoung := table[p], epoch[p];
      table := table[p := e];
      epoch := epoch[p := young];
      RecentLive(table, live, epoch);
    }
  }

  /** One of the places is free. */
  ghost predicate Open(live: Flags, places: seq<nat>) {
    exists j :: 0 <= j < |places| && places[j] < |live| && !live[places[j]]
  }

  /** The live elements and the one in hand are those there were and e, each with its epoch. */
  ghost predicate Held(elements: set<Element>, recent: set<Element>, e: Element, now: set<Element>,
                       nowRecent: set<Element>,
                       hand: Element, handEpoch: bool)
  {
    && hand !in now && now + {hand} == elements + {e}
    && nowRecent <= now && nowRecent + (if handEpoch then {hand} else {}) == recent + {e}
  }

  lemma HeldStart(elements: set<Element>, recent: set<Element>, e: Element)
    requires e !in elements && recent <= elements
    ensures Held(elements, recent, e, elements, recent, e, true)
  {
  }

  lemma HeldSwap(elements: set<Element>, recent: set<Element>, e: Element, now: set<Element>, nowRecent: set<Element>,
                 hand: Element,
                 handEpoch: bool, now': set<Element>, nowRecent': set<Element>, hand': Element, handEpoch': bool)
    requires Held(elements, recent, e, now, nowRecent, hand, handEpoch)
    requires hand' !in now' && now' + {hand'} == now + {hand} && nowRecent' <= now'
    requires nowRecent' + (if handEpoch' then {hand'} else {}) == nowRecent + (if handEpoch then {hand} else {})
    ensures Held(elements, recent, e, now', nowRecent', hand', handEpoch')
  {
  }

  lemma HeldPut(elements: set<Element>, recent: set<Element>, e: Element, now: set<Element>, nowRecent: set<Element>,
                hand: Element, handEpoch: bool)
    requires Held(elements, recent, e, now, nowRecent, hand, handEpoch)
    ensures now + {hand} == elements + {e} - {} && nowRecent + (if handEpoch then {hand} else {}) == recent + {e} - {}
  {
  }

  lemma HeldLose(elements: set<Element>, recent: set<Element>, e: Element, now: set<Element>, nowRecent: set<Element>,
                 hand: Element, handEpoch: bool)
    requires Held(elements, recent, e, now, nowRecent, hand, handEpoch)
    ensures now == elements + {e} - {hand} && nowRecent == recent + {e} - {hand}
  {
    assert now == now + {hand} - {hand};
    assert nowRecent == nowRecent + (if handEpoch then {hand} else {}) - {hand};
  }

  lemma RecentLive(table: Table, live: Flags, epoch: Flags)
    requires |table| == |live| == |epoch|
    ensures Live(table, Young(live, epoch)) <= Live(table, live)
  {
  }

  lemma RecentHas(table: Table, live: Flags, epoch: Flags, p: nat)
    requires |table| == |live| == |epoch| && p < |table| && live[p]
    ensures epoch[p] ==> table[p] in Live(table, Young(live, epoch))
  {
    assert epoch[p] ==> Young(live, epoch)[p];
  }

  lemma NoneRecent(table: Table, live: Flags, epoch: Flags)
    requires |table| == |live| == |epoch|
    ensures (forall i | 0 <= i < |epoch| :: !epoch[i]) ==> Live(table, Young(live, epoch)) == {}
  {
  }

  /** An element that is at none of its places is not live. */
  lemma NotLive(place: Element -> seq<nat>, table: Table, live: Flags, e: Element)
    requires Inv(place, table, live) && First(place(e), table, e) == -1
    ensures e !in Live(table, live)
  {
    FirstFound(place(e), table, e);
  }

  lemma PlacesInRange(place: Element -> seq<nat>, table: Table, live: Flags, e: Element)
    requires Inv(place, table, live)
    ensures forall k | 0 <= k < |place(e)| :: place(e)[k] < |table|
  {
  }

  /** Giving up slots keeps the invariant. */
  lemma AgedKeeps(place: Element -> seq<nat>, table: Table, live: Flags, epoch: Flags)
    requires Inv(place, table, live) && |epoch| == |live|
    ensures Inv(place, table, Young(live, epoch))
  {
  }
}
