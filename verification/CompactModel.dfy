/** Compact blocks: positions, short ids and what fills them, as values (src/blockencodings.cpp). */
module CompactModel {
  import opened Collections

  type Tx = nat
  type Hash = nat
  datatype Slot = Empty | Has(tx: Tx)
  datatype Prefilled = Prefilled(index: nat, tx: Tx)

  /** A compact block as received: short ids and prefilled transactions at differential indexes. */
  datatype Message = Message(shortIds: seq<nat>, prefilled: seq<Prefilled>)
  {
    function TxCount(): nat { |shortIds| + |prefilled| }
  }

  // ---- free positions ----

  /** The empty positions from i on, in order. */
  ghost function FreeFrom(slots: seq<Slot>, i: nat): seq<nat>
    requires i <= |slots|
    decreases |slots| - i
  {
    if i == |slots| then [] else (if slots[i].Empty? then [i] else []) + FreeFrom(slots, i + 1)
  }

  ghost function Free(slots: seq<Slot>): seq<nat> { FreeFrom(slots, 0) }

  lemma {:induction false} FreeExactly(slots: seq<Slot>, i: nat)
    requires i <= |slots|
    ensures forall p :: p in FreeFrom(slots, i) <==> i <= p < |slots| && slots[p].Empty?
    ensures forall j, k | 0 <= j < k < |FreeFrom(slots, i)| :: FreeFrom(slots, i)[j] < FreeFrom(slots, i)[k]
    decreases |slots| - i
  {
    if i < |slots| {
      FreeExactly(slots, i + 1);
      var rest := FreeFrom(slots, i + 1);
      assert forall k | 0 <= k < |rest| :: rest[k] in rest;
    }
  }

  lemma {:induction false} FillOne(slots: seq<Slot>, i: nat, p: nat, tx: Tx)
    requires i <= |slots| && p < |slots| && slots[p].Empty?
    ensures |FreeFrom(slots[p := Has(tx)], i)| == |FreeFrom(slots, i)| - if i <= p then 1 else 0
    decreases |slots| - i
  {
    if i < |slots| {
      FillOne(slots, i + 1, p, tx);
    }
  }

  lemma {:induction false} AllFree(slots: seq<Slot>, i: nat)
    requires i <= |slots| && forall p | 0 <= p < |slots| :: slots[p].Empty?
    ensures |FreeFrom(slots, i)| == |slots| - i
    decreases |slots| - i
  {
    if i < |slots| {
      AllFree(slots, i + 1);
    }
  }

  // ---- prefilled transactions ----

  /** The position of a prefilled transaction: the sum of the gaps before it. */
  function Pos(prefilled: seq<Prefilled>, i: nat): nat
    requires i < |prefilled|
  {
    prefilled[i].index + if i == 0 then 0 else Pos(prefilled, i - 1) + 1
  }

  lemma {:induction false} PosIncreases(prefilled: seq<Prefilled>, i: nat, j: nat)
    requires i < j < |prefilled|
    ensures Pos(prefilled, i) < Pos(prefilled, j)
  {
    if i < j - 1 {
      PosIncreases(prefilled, i, j - 1);
    }
  }

  /**
   A prefilled transaction is acceptable: not null, within 16 bits, and leaving no position without an id before it.
   */
  predicate PrefilledOk(m: Message, isNull: Tx -> bool, i: nat)
    requires i < |m.prefilled|
  {
    !isNull(m.prefilled[i].tx) && Pos(m.prefilled, i) <= 65535 && Pos(m.prefilled, i) <= |m.shortIds| + i
  }

  /** The first k prefilled transactions are in place and everything else is empty. */
  ghost predicate Placed(m: Message, slots: seq<Slot>, k: nat) {
    && |slots| == m.TxCount() && k <= |m.prefilled| && |Free(slots)| == m.TxCount() - k
    && (forall i: nat | i < k :: Pos(m.prefilled, i) < |slots| && slots[Pos(m.prefilled, i)] == Has(m.prefilled[i].tx))
    && (forall p | 0 <= p < |slots| && slots[p].Has? :: exists i: nat :: i < k && Pos(m.prefilled, i) == p)
  }

  lemma PlaceNext(m: Message, isNull: Tx -> bool, slots: seq<Slot>, k: nat)
    requires Placed(m, slots, k) && k < |m.prefilled| && PrefilledOk(m, isNull, k)
    ensures Pos(m.prefilled, k) < |slots|
    ensures Placed(m, slots[Pos(m.prefilled, k) := Has(m.prefilled[k].tx)], k + 1)
  {
    hide FreeFrom;
    var p := Pos(m.prefilled, k);
    var slots' := slots[p := Has(m.prefilled[k].tx)];
    forall i: nat | i < k ensures Pos(m.prefilled, i) < p {
      PosIncreases(m.prefilled, i, k);
    }
    assert slots[p].Empty?;
    FillOne(slots, 0, p, m.prefilled[k].tx);
    forall q | 0 <= q < |slots'| && slots'[q].Has? ensures exists i: nat :: i < k + 1 && Pos(m.prefilled, i) == q {
      if q == p {
        assert k < k + 1 && Pos(m.prefilled, k) == q;
      }
    }
  }

  // ---- short ids ----

  ghost function Set(ids: seq<nat>): set<nat> { set i | i in ids }

  lemma {:induction false} SetSize(ids: seq<nat>)
    ensures |Set(ids)| <= |ids| && (|Set(ids)| == |ids| <==> Distinct(ids))
  {
    if ids != [] {
      var n := |ids| - 1;
      var rest := ids[..n];
      SetSize(rest);
      assert ids == rest + [ids[n]];
      assert Set(ids) == Set(rest) + {ids[n]};
      assert Distinct(ids) <==> Distinct(rest) && ids[n] !in rest by {
        if Distinct(rest) && ids[n] !in rest {
          forall i, j | 0 <= i < j < |ids| ensures ids[i] != ids[j] {
            assert rest[i] == ids[i];
            assert j < n ==> rest[j] == ids[j];
          }
        }
        if Distinct(ids) {
          assert forall i, j | 0 <= i < j < n :: rest[i] == ids[i] && rest[j] == ids[j];
        }
      }
    }
  }

  /** The map from short ids to positions: the i-th id belongs to the i-th free position. */
  ghost predicate Maps(m: Message, slots: seq<Slot>, ids: map<nat, nat>) {
    && Distinct(m.shortIds) && ids.Keys == Set(m.shortIds) && |Free(slots)| == |m.shortIds|
    && forall i | 0 <= i < |m.shortIds| :: m.shortIds[i] in ids && ids[m.shortIds[i]] == Free(slots)[i]
  }

  lemma MapsApart(m: Message, slots: seq<Slot>, ids: map<nat, nat>)
    requires Maps(m, slots, ids)
    ensures forall s | s in ids :: ids[s] < |slots| && slots[ids[s]].Empty?
    ensures forall s, t | s in ids && t in ids && s != t :: ids[s] != ids[t]
  {
    FreeExactly(slots, 0);
    forall s | s in ids ensures ids[s] in Free(slots) {
      var i :| 0 <= i < |m.shortIds| && m.shortIds[i] == s;
    }
    forall s, t | s in ids && t in ids && s != t ensures ids[s] != ids[t] {
      var i :| 0 <= i < |m.shortIds| && m.shortIds[i] == s;
      var j :| 0 <= j < |m.shortIds| && m.shortIds[j] == t;
      assert Free(slots)[i] != Free(slots)[j] by {
        assert i < j || j < i;
      }
    }
  }

  // ---- candidates ----

  datatype Candidate = Candidate(hash: Hash, tx: Tx)

  ghost predicate Fits(shortId: Hash -> nat, seen: seq<Candidate>, i: nat, s: nat) {
    i < |seen| && shortId(seen[i].hash) == s
  }

  /**
   How candidates are judged: by the short ids of their hashes and, from candidate `extra` on, by their witness hashes.
   */
  datatype Judge = Judge(shortId: Hash -> nat, wtxid: Tx -> Hash, extra: nat)

  /** A later candidate for the same id that does not count as a conflict: the same transaction from the extra pool. */
  ghost predicate Repeats(judge: Judge, seen: seq<Candidate>, i: nat, j: nat)
    requires i < |seen| && j < |seen|
  {
    j >= judge.extra && judge.wtxid(seen[j].tx) == judge.wtxid(seen[i].tx)
  }

  /** Candidate i fits the id, and no later one is in conflict with it. */
  ghost predicate Stands(judge: Judge, seen: seq<Candidate>, s: nat, i: nat) {
    && Fits(judge.shortId, seen, i, s)
    && forall j: nat | Fits(judge.shortId, seen, j, s) && j != i :: j > i && Repeats(judge, seen, i, j)
  }

  ghost predicate Conflict(judge: Judge, seen: seq<Candidate>, s: nat, i: nat, j: nat) {
    && i < j && Fits(judge.shortId, seen, i, s) && Fits(judge.shortId, seen, j, s) && !Repeats(judge, seen, i, j)
  }

  /**
   The state of one short id's position after looking at the candidates in `seen`: untouched if none fits, holding the
   first that fits if all others repeat it, or emptied because two are in conflict.
   */
  ghost predicate Settled(judge: Judge, seen: seq<Candidate>, s: nat, slot: Slot, have: bool) {
    if !have then slot.Empty? && forall i: nat :: !Fits(judge.shortId, seen, i, s)
    else match slot
         case Has(tx) => exists i: nat :: Stands(judge, seen, s, i) && seen[i].tx == tx
         case Empty => exists i: nat, j: nat :: Conflict(judge, seen, s, i, j)
  }

  ghost predicate AllSettled(judge: Judge, seen: seq<Candidate>, ids: map<nat, nat>, start: seq<Slot>,
                             slots: seq<Slot>, have: seq<bool>) {
    && |slots| == |have| == |start|
    && (forall s | s in ids :: ids[s] < |slots| && Settled(judge, seen, s, slots[ids[s]], have[ids[s]]))
    && (forall p | 0 <= p < |slots| && p !in ids.Values :: slots[p] == start[p])
  }

  /** What a candidate does to the position it fits. */
  function Answer(judge: Judge, isExtra: bool, slot: Slot, have: bool, tx: Tx): Slot {
    if !have then Has(tx)
    else if slot.Has? && !(isExtra && judge.wtxid(slot.tx) == judge.wtxid(tx)) then Empty
    else slot
  }

  lemma SettledMore(judge: Judge, seen: seq<Candidate>, s: nat, slot: Slot, have: bool, c: Candidate)
    requires Settled(judge, seen, s, slot, have) && judge.shortId(c.hash) != s
    ensures Settled(judge, seen + [c], s, slot, have)
  {
    var more := seen + [c];
    assert forall i: nat :: Fits(judge.shortId, more, i, s) <==> Fits(judge.shortId, seen, i, s);
    if have {
      match slot
      case Has(tx) =>
        var i: nat :| Stands(judge, seen, s, i) && seen[i].tx == tx;
        assert Stands(judge, more, s, i) && more[i].tx == tx;
      case Empty =>
        var i: nat, j: nat :| Conflict(judge, seen, s, i, j);
        assert Conflict(judge, more, s, i, j);
    }
  }

  lemma SettledNow(judge: Judge, seen: seq<Candidate>, s: nat, slot: Slot, have: bool, c: Candidate)
    requires Settled(judge, seen, s, slot, have) && judge.shortId(c.hash) == s
    ensures Settled(judge, seen + [c], s, Answer(judge, |seen| >= judge.extra, slot, have, c.tx), true)
  {
    var more := seen + [c];
    assert Fits(judge.shortId, more, |seen|, s) && more[|seen|].tx == c.tx;
    assert forall i: nat | i != |seen| :: Fits(judge.shortId, more, i, s) <==> Fits(judge.shortId, seen, i, s);
    if !have {
      assert Stands(judge, more, s, |seen|);
    } else {
      match slot
      case Has(tx) =>
        var i: nat :| Stands(judge, seen, s, i) && seen[i].tx == tx;
        assert more[i] == seen[i];
        if Repeats(judge, more, i, |seen|) {
          assert Stands(judge, more, s, i);
        } else {
          assert Conflict(judge, more, s, i, |seen|);
        }
      case Empty =>
        var i: nat, j: nat :| Conflict(judge, seen, s, i, j);
        assert Conflict(judge, more, s, i, j);
    }
  }

  /** Looking at one more candidate settles every id again. */
  lemma Looked(judge: Judge, seen: seq<Candidate>, ids: map<nat, nat>, start: seq<Slot>, slots: seq<Slot>,
               have: seq<bool>, c: Candidate)
    requires AllSettled(judge, seen, ids, start, slots, have)
    requires forall s, t | s in ids && t in ids && s != t :: ids[s] != ids[t]
    ensures var s := judge.shortId(c.hash);
            if s in ids then
              var p := ids[s];
              AllSettled(judge, seen + [c], ids, start,
                         slots[p := Answer(judge, |seen| >= judge.extra, slots[p], have[p], c.tx)], have[p := true])
            else AllSettled(judge, seen + [c], ids, start, slots, have)
  {
    hide Settled, Answer;
    var s := judge.shortId(c.hash);
    forall t | t in ids && t != s ensures Settled(judge, seen + [c], t, slots[ids[t]], have[ids[t]]) {
      SettledMore(judge, seen, t, slots[ids[t]], have[ids[t]], c);
    }
    if s in ids {
      SettledNow(judge, seen, s, slots[ids[s]], have[ids[s]], c);
      assert ids[s] in ids.Values;
    }
  }

  /** Where the extra candidates begin matters only for candidates after that. */
  lemma ExtraFrom(judge: Judge, seen: seq<Candidate>, ids: map<nat, nat>, start: seq<Slot>, slots: seq<Slot>,
                  have: seq<bool>)
    requires AllSettled(judge, seen, ids, start, slots, have) && |seen| <= judge.extra
    ensures AllSettled(judge.(extra := |seen|), seen, ids, start, slots, have)
  {
    var judge' := judge.(extra := |seen|);
    forall s | s in ids ensures Settled(judge', seen, s, slots[ids[s]], have[ids[s]]) {
      if have[ids[s]] {
        match slots[ids[s]]
        case Has(tx) =>
          var i: nat :| Stands(judge, seen, s, i) && seen[i].tx == tx;
          assert Stands(judge', seen, s, i);
        case Empty =>
          var i: nat, j: nat :| Conflict(judge, seen, s, i, j);
          assert Conflict(judge', seen, s, i, j);
      }
    }
  }

  // ---- counting ----

  /** The ids' positions that hold a transaction. */
  ghost function Found(ids: map<nat, nat>, slots: seq<Slot>): set<nat>
    requires forall s | s in ids :: ids[s] < |slots|
  {
    set s | s in ids && slots[ids[s]].Has?
  }

  lemma FoundChange(ids: map<nat, nat>, slots: seq<Slot>, s: nat, slot: Slot)
    requires s in ids && (forall t | t in ids :: ids[t] < |slots|)
    requires forall t, u | t in ids && u in ids && t != u :: ids[t] != ids[u]
    ensures Found(ids, slots[ids[s] := slot]) == if slot.Has? then Found(ids, slots) + {s} else Found(ids, slots) - {s}
  {
    var slots' := slots[ids[s] := slot];
    forall t | t in ids ensures slots'[ids[t]] == if t == s then slot else slots[ids[t]] {
    }
    assert forall t ::
        t in Found(ids, slots') <==> t in (if slot.Has? then Found(ids, slots) + {s} else Found(ids, slots) - {s});
  }

  lemma FoundCount(ids: map<nat, nat>, slots: seq<Slot>, s: nat, slot: Slot)
    requires s in ids && (forall t | t in ids :: ids[t] < |slots|)
    requires forall t, u | t in ids && u in ids && t != u :: ids[t] != ids[u]
    ensures |Found(ids, slots[ids[s] := slot])| ==
            |Found(ids, slots)| + (if slot.Has? then 1 else 0) - (if slots[ids[s]].Has? then 1 else 0)
  {
    FoundChange(ids, slots, s, slot);
    var before := Found(ids, slots);
    assert s in before <==> slots[ids[s]].Has?;
    OneMore(before, s);
  }

  lemma OneMore(a: set<nat>, s: nat)
    ensures |a + {s}| == |a| + (if s in a then 0 else 1) && |a - {s}| == |a| - (if s in a then 1 else 0)
  {
    if s in a {
      assert a + {s} == a;
    } else {
      assert a - {s} == a;
    }
  }

  /** As many found as there are ids means all are found. */
  lemma FoundAll(ids: map<nat, nat>, slots: seq<Slot>)
    requires (forall s | s in ids :: ids[s] < |slots|) && |Found(ids, slots)| == |ids.Keys|
    ensures forall s | s in ids :: slots[ids[s]].Has?
  {
    SameSize(Found(ids, slots), ids.Keys);
  }

  lemma {:induction false} SameSize(a: set<nat>, b: set<nat>)
    requires a <= b && |a| == |b|
    ensures a == b
    decreases b
  {
    if x :| x in a {
      SameSize(a - {x}, b - {x});
      assert a == (a - {x}) + {x} && b == (b - {x}) + {x};
    } else {
      assert a == {};
    }
  }

  // ---- filling the rest ----

  /** The block with the empty positions filled in order. */
  ghost function Completed(slots: seq<Slot>, missing: seq<Tx>, i: nat): seq<Tx>
    requires i <= |slots| && |missing| == |FreeFrom(slots, i)|
    decreases |slots| - i
  {
    if i == |slots| then [] else
    match slots[i]
    case Has(tx) => [tx] + Completed(slots, missing, i + 1)
    case Empty => [missing[0]] + Completed(slots, missing[1..], i + 1)
  }

  ghost function Pick(vtx: seq<Tx>, index: seq<nat>): seq<Tx>
    requires forall k | 0 <= k < |index| :: index[k] < |vtx|
  {
    seq(|index|, k requires 0 <= k < |index| => vtx[index[k]])
  }

  /** Positions that agree with the block, completed with the block's transactions for the others, are the block. */
  lemma {:induction false} CompletedIsBlock(slots: seq<Slot>, vtx: seq<Tx>, i: nat)
    requires |slots| == |vtx| && i <= |slots| && forall p | 0 <= p < |slots| && slots[p].Has? :: slots[p].tx == vtx[p]
    ensures forall k | 0 <= k < |FreeFrom(slots, i)| :: FreeFrom(slots, i)[k] < |vtx|
    ensures Completed(slots, Pick(vtx, FreeFrom(slots, i)), i) == vtx[i..]
    decreases |slots| - i
  {
    if i < |slots| {
      CompletedIsBlock(slots, vtx, i + 1);
      assert vtx[i..] == [vtx[i]] + vtx[i + 1..];
      if slots[i].Empty? {
        assert Pick(vtx, FreeFrom(slots, i))[1..] == Pick(vtx, FreeFrom(slots, i + 1));
      } else {
        assert FreeFrom(slots, i) == FreeFrom(slots, i + 1);
      }
    }
  }
}
