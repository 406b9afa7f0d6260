/** The tables bound the numbers of entries: what keeps Serialize's own output under the limits of Unserialize. */
module AddrCapacity {
  import opened Collections
  import opened AddrTypes
  import opened AddrInvariant

  ghost function Block(n: nat, width: nat): set<(int, int)> {
    set b, i | 0 <= b < n && 0 <= i < width :: (b, i)
  }

  ghost function BlockRow(b: int, width: nat): set<(int, int)> {
    set i | 0 <= i < width :: (b, i)
  }

  lemma {:induction false} RowSize(b: int, width: nat)
    ensures |BlockRow(b, width)| == width
  {
    if width == 0 {
      assert BlockRow(b, 0) == {};
    } else {
      RowSize(b, width - 1);
      assert BlockRow(b, width) == BlockRow(b, width - 1) + {(b, width - 1)};
    }
  }

  lemma {:induction false} BlockSize(n: nat, width: nat)
    ensures |Block(n, width)| == n * width
  {
    if n == 0 {
      assert Block(0, width) == {};
    } else {
      BlockSize(n - 1, width);
      RowSize(n - 1, width);
      assert Block(n, width) == Block(n - 1, width) + BlockRow(n - 1, width);
      assert Block(n - 1, width) !! BlockRow(n - 1, width);
      assert n * width == (n - 1) * width + width;
    }
  }

  /** Ids that each occupy a cell are no more than the cells. */
  lemma {:induction false} Pigeonhole(ids: set<int>, t: Table)
    requires forall id | id in ids :: Slots(t, id) != {}
    ensures |ids| <= |t.Keys|
  {
    if ids != {} {
      var id := Element(ids);
      var t' := t - Slots(t, id);
      forall j | j in ids - {id} ensures Slots(t', j) != {} {
        assert Slots(t', j) == Slots(t, j);
      }
      Pigeonhole(ids - {id}, t');
      assert t'.Keys == t.Keys - Slots(t, id);
      assert Slots(t, id) <= t.Keys;
      assert t.Keys == t'.Keys + Slots(t, id);
      assert |t.Keys| == |t'.Keys| + |Slots(t, id)|;
    }
  }

  lemma ShapeSize(t: Table, n: nat)
    requires Shape(t, n)
    ensures |t.Keys| == n * BUCKET_SIZE
  {
    BlockSize(n, BUCKET_SIZE);
    assert forall c :: c in t.Keys <==> c in Block(n, BUCKET_SIZE);
    assert t.Keys == Block(n, BUCKET_SIZE);
  }

  lemma TableCapacity(env: Env, key: nat, m: Infos, tried: Table, new_: Table)
    requires TriedOk(env, key, m, tried) && NewOk(env, key, m, new_, {})
    ensures |NonTried(m)| <= 65536 && |Tried(m)| <= 16384
  {
    forall id | id in NonTried(m) ensures Slots(new_, id) != {} {
      assert RefOk(m[id], |Slots(new_, id)|, false);
    }
    Pigeonhole(NonTried(m), new_);
    ShapeSize(new_, NEW_BUCKET_COUNT);
    forall id | id in Tried(m) ensures Slots(tried, id) != {} {
      assert TriedSlot(env, key, m[id].addr.service) in Slots(tried, id);
    }
    Pigeonhole(Tried(m), tried);
    ShapeSize(tried, TRIED_BUCKET_COUNT);
  }
}
