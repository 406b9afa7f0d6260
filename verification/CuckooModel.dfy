/** The cuckoo cache as values: slots, live elements and where they may be (src/cuckoocache.h). */
module CuckooModel {
  type Element = int

  /** The slots of the table, which of them are live (not marked for collection). */
  type Table = seq<Element>
  type Flags = seq<bool>

  /** The first of the locations that holds the element, or -1. */
  function First(locs: seq<nat>, table: Table, e: Element): int
    requires forall k | 0 <= k < |locs| :: locs[k] < |table|
  {
    if locs == [] then -1 else if table[locs[0]] == e then locs[0] else First(locs[1..], table, e)
  }

  lemma {:induction false} FirstFound(locs: seq<nat>, table: Table, e: Element)
    requires forall k | 0 <= k < |locs| :: locs[k] < |table|
    ensures First(locs, table, e) == -1 <==> forall k | 0 <= k < |locs| :: table[locs[k]] != e
    ensures First(locs, table, e) != -1 ==> First(locs, table, e) in locs && table[First(locs, table, e)] == e
  {
    if locs != [] {
      FirstFound(locs[1..], table, e);
      assert forall k | 0 < k < |locs| :: locs[k] == locs[1..][k - 1];
    }
  }

  /** The location found is the first one: those before it hold something else. */
  lemma {:induction false} FirstIs(locs: seq<nat>, table: Table, e: Element, k: nat)
    requires (forall j | 0 <= j < |locs| :: locs[j] < |table|) && k < |locs| && table[locs[k]] == e
    requires forall j | 0 <= j < k :: table[locs[j]] != e || locs[j] == locs[k]
    ensures First(locs, table, e) == locs[k]
  {
    if table[locs[0]] != e {
      FirstIs(locs[1..], table, e, k - 1);
    }
  }

  /** Overwriting a slot that is not the first one with another element changes nothing for an element. */
  lemma {:induction false} FirstKeeps(locs: seq<nat>, table: Table, e: Element, p: nat, x: Element)
    requires (forall k | 0 <= k < |locs| :: locs[k] < |table|) && p < |table|
    requires x != e && First(locs, table, e) != p
    ensures First(locs, table[p := x], e) == First(locs, table, e)
  {
    if locs != [] && table[locs[0]] != e {
      FirstKeeps(locs[1..], table, e, p, x);
    }
  }

  /** Where an element may be. */
  ghost predicate Places(place: Element -> seq<nat>, size: nat) {
    forall e, k | 0 <= k < |place(e)| :: place(e)[k] < size
  }

  /** Every live slot is the first of its element's places that holds the element. */
  ghost predicate Inv(place: Element -> seq<nat>, table: Table, live: Flags) {
    && |table| == |live| && Places(place, |table|)
    && forall i | 0 <= i < |table| && live[i] :: First(place(table[i]), table, table[i]) == i
  }

  /** The elements of the live slots. */
  ghost function Live(table: Table, live: Flags): set<Element>
    requires |table| == |live|
  {
    set i | 0 <= i < |table| && live[i] :: table[i]
  }

  lemma NoneLive(place: Element -> seq<nat>, table: Table, live: Flags)
    requires |table| == |live| && Places(place, |table|) && forall i | 0 <= i < |live| :: !live[i]
    ensures Inv(place, table, live) && Live(table, live) == {}
  {
  }

  /** A live element is at one of its places, in one live slot only. */
  lemma LiveOnce(place: Element -> seq<nat>, table: Table, live: Flags, e: Element)
    requires Inv(place, table, live) && e in Live(table, live)
    ensures First(place(e), table, e) in place(e) && live[First(place(e), table, e)]
    ensures forall i | 0 <= i < |table| && live[i] && table[i] == e :: i == First(place(e), table, e)
  {
    FirstFound(place(e), table, e);
    var i :| 0 <= i < |table| && live[i] && table[i] == e;
    assert First(place(e), table, e) == i;
  }

  /** Marking a slot for collection keeps the invariant and loses its element. */
  lemma Erase(place: Element -> seq<nat>, table: Table, live: Flags, p: nat)
    requires Inv(place, table, live) && p < |table|
    ensures Inv(place, table, live[p := false])
    ensures Live(table, live[p := false]) == if live[p] then Live(table, live) - {table[p]} else Live(table, live)
  {
    var live' := live[p := false];
    var lost := if live[p] then {table[p]} else {};
    forall e ensures e in Live(table, live') <==> e in Live(table, live) - lost {
      if e in Live(table, live) - lost {
        var i :| 0 <= i < |table| && live[i] && table[i] == e;
        assert live'[i];
      }
      if e in Live(table, live') {
        var i :| 0 <= i < |table| && live'[i] && table[i] == e;
        assert live[i];
        if e in lost {
          LiveOnce(place, table, live, e);
        }
      }
    }
  }

  /** Keeping an element where it was first found. */
  lemma Keep(place: Element -> seq<nat>, table: Table, live: Flags, e: Element, p: nat)
    requires Inv(place, table, live) && p == First(place(e), table, e)
    ensures p < |table| && table[p] == e && Inv(place, table, live[p := true])
    ensures Live(table, live[p := true]) == Live(table, live) + {e}
  {
    FirstFound(place(e), table, e);
    var live' := live[p := true];
    LiveChange(table, live, table, live', p);
  }

  /** How the elements of the marked slots change when one slot changes. */
  lemma LiveChange(table: Table, live: Flags, table': Table, live': Flags, p: nat)
    requires |table| == |live| == |table'| == |live'| && p < |table|
    requires forall i | 0 <= i < |table| && i != p :: table'[i] == table[i] && live'[i] == live[i]
    requires live[p] ==> (table[p] == table'[p] && live'[p])
                         || forall i | 0 <= i < |table| && live[i] && i != p :: table[i] != table[p]
    ensures Live(table', live') == (if live[p] then Live(table, live) - {table[p]} else Live(table, live))
                                   + (if live'[p] then {table'[p]} else {})
  {
    var gone, come := if live[p] then {table[p]} else {}, if live'[p] then {table'[p]} else {};
    forall e ensures e in Live(table', live') <==> e in Live(table, live) - gone + come {
      if e in Live(table', live') {
        var i :| 0 <= i < |table'| && live'[i] && table'[i] == e;
        assert i != p ==> live[i] && table[i] == e;
      }
      if e in Live(table, live) - gone {
        var i :| 0 <= i < |table| && live[i] && table[i] == e;
        assert i != p && live'[i] && table'[i] == e;
      }
      if e in come {
        assert live'[p];
      }
    }
  }

  /** The element in hand is not live. */
  ghost predicate InHand(table: Table, live: Flags, e: Element)
    requires |table| == |live|
  {
    e !in Live(table, live)
  }

  /** Putting the element in hand into the first of its places that is marked for collection. */
  lemma Put(place: Element -> seq<nat>, table: Table, live: Flags, e: Element, k: nat)
    requires Inv(place, table, live) && InHand(table, live, e) && k < |place(e)| && !live[place(e)[k]]
    requires forall j | 0 <= j < k :: live[place(e)[j]]
    ensures var p := place(e)[k];
            && Inv(place, table[p := e], live[p := true])
            && Live(table[p := e], live[p := true]) == Live(table, live) + {e}
  {
    var p := place(e)[k];
    var table', live' := table[p := e], live[p := true];
    forall j | 0 <= j < k ensures table'[place(e)[j]] != e || place(e)[j] == p {
      assert table[place(e)[j]] in Live(table, live);
    }
    FirstIs(place(e), table', e, k);
    forall i | 0 <= i < |table'| && live'[i] && i != p ensures First(place(table'[i]), table', table'[i]) == i {
      assert table[i] in Live(table, live);
      FirstKeeps(place(table[i]), table, table[i], p, e);
    }
    LiveChange(table, live, table', live', p);
  }

  /** Swapping the element in hand with that of a live slot of it, when all its places are live. */
  lemma Swap(place: Element -> seq<nat>, table: Table, live: Flags, e: Element, k: nat)
    requires Inv(place, table, live) && InHand(table, live, e) && k < |place(e)|
    requires forall j | 0 <= j < |place(e)| :: live[place(e)[j]]
    ensures var p := place(e)[k];
            && Inv(place, table[p := e], live) && InHand(table[p := e], live, table[p]) && table[p] != e
            && Live(table[p := e], live) + {table[p]} == Live(table, live) + {e}
  {
    var p := place(e)[k];
    var x := table[p];
    var table' := table[p := e];
    assert x in Live(table, live);
    forall j | 0 <= j < k ensures table'[place(e)[j]] != e || place(e)[j] == p {
      assert table[place(e)[j]] in Live(table, live);
    }
    FirstIs(place(e), table', e, k);
    forall i | 0 <= i < |table| && live[i] && i != p
      ensures table[i] != x && First(place(table[i]), table', table[i]) == i
    {
      assert table[i] in Live(table, live);
      LiveOnce(place, table, live, x);
      FirstKeeps(place(table[i]), table, table[i], p, e);
    }
    LiveChange(table, live, table', live, p);
  }

  // ---- epochs ----

  /** The live slots of the current epoch. */
  function Young(live: Flags, epoch: Flags): Flags
    requires |live| == |epoch|
  {
    seq(|live|, i requires 0 <= i < |live| => live[i] && epoch[i])
  }

  function Count(flags: Flags, i: nat): nat
    requires i <= |flags|
  {
    if i == 0 then 0 else Count(flags, i - 1) + if flags[i - 1] then 1 else 0
  }

  /** The elements of the live ones among the first n slots. */
  ghost function LivePart(table: Table, live: Flags, n: nat): set<Element>
    requires n <= |table| == |live|
  {
    set i | 0 <= i < n && live[i] :: table[i]
  }

  /** There are as many live elements as live slots. */
  lemma CountIsSize(place: Element -> seq<nat>, table: Table, live: Flags)
    requires Inv(place, table, live)
    ensures |Live(table, live)| == Count(live, |live|)
  {
    CountPart(place, table, live, |table|);
    assert Live(table, live) == LivePart(table, live, |table|);
  }

  lemma {:induction false} CountPart(place: Element -> seq<nat>, table: Table, live: Flags, n: nat)
    requires Inv(place, table, live) && n <= |table|
    ensures |LivePart(table, live, n)| == Count(live, n)
  {
    if n == 0 {
      assert LivePart(table, live, 0) == {};
    } else {
      CountPart(place, table, live, n - 1);
      var rest := LivePart(table, live, n - 1);
      forall i | 0 <= i < n - 1 && live[i] ensures live[n - 1] ==> table[i] != table[n - 1] {
        if live[n - 1] {
          SlotsDiffer(place, table, live, i, n - 1);
        }
      }
      assert LivePart(table, live, n) == if live[n - 1] then rest + {table[n - 1]} else rest;
    }
  }

  lemma SlotsDiffer(place: Element -> seq<nat>, table: Table, live: Flags, i: nat, j: nat)
    requires Inv(place, table, live) && i < j < |table| && live[i] && live[j]
    ensures table[i] != table[j]
  {
  }

  /** A slot takes a new element with its epoch; what it held before, if live, goes. */
  lemma YoungChange(place: Element -> seq<nat>, table: Table, live: Flags, epoch: Flags, p: nat, e: Element,
                    young: bool)
    requires Inv(place, table, live) && |epoch| == |live| && p < |table| && (live[p] && table[p] == e ==> young)
    requires !live[p] ==> InHand(table, live, e) || table[p] == e
    ensures Live(table[p := e], Young(live[p := true], epoch[p := young])) ==
            (if live[p] && epoch[p] then Live(table, Young(live, epoch)) - {table[p]}
             else Live(table, Young(live, epoch)))
            + if young then {e} else {}
  {
    var before := Young(live, epoch);
    var after := Young(live[p := true], epoch[p := young]);
    if live[p] {
      forall i | 0 <= i < |table| && live[i] && i != p ensures table[i] != table[p] {
        assert First(place(table[i]), table, table[i]) == i && First(place(table[p]), table, table[p]) == p;
      }
    }
    LiveChange(table, before, table[p := e], after, p);
  }
}
