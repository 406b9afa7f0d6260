/**
 What the last part of a stream does to the new table (src/addrman.h:394-451): index lists, one for each bucket, and, if
 those cannot be used, one reference for each entry by its own source.
 */
module AddrRows {
  import opened AddrTypes
  import opened AddrInvariant
  import opened AddrStream

  ghost predicate IntsAt(s: seq<Token>, p: nat, n: nat) { p + n <= |s| && forall k | p <= k < p + n :: s[k].Int? }

  /** The number of indexes that a row announces. */
  ghost function RowSize(s: seq<Token>, p: nat): nat
    requires p < |s| && s[p].Int?
  {
    if s[p].n < 0 then 0 else s[p].n
  }

  ghost predicate RowAt(s: seq<Token>, p: nat) { p < |s| && s[p].Int? && IntsAt(s, p + 1, RowSize(s, p)) }

  /** One index: the entry takes its cell in the bucket if it is free and the entry has references left. */
  ghost function WithIndex(env: Env, key: nat, news: seq<Record>, b: int, t: Table, id: int): Table {
    if 0 <= id < |news| then
      var c := (b, BucketPosition(env, key, true, b, news[id].addr.service));
      if c in t && t[c] == -1 && |Slots(t, id)| < NEW_BUCKETS_PER_ADDRESS then t[c := id] else t
    else t
  }

  ghost function WithRow(env: Env, key: nat, news: seq<Record>, b: int, t: Table, s: seq<Token>, p: nat, n: nat): Table
    requires IntsAt(s, p, n)
  {
    if n == 0 then t else WithIndex(env, key, news, b, WithRow(env, key, news, b, t, s, p, n - 1), s[p + n - 1].n)
  }

  /** Where n rows from p on end, or -1 if they are not all there. */
  ghost function AfterRows(s: seq<Token>, p: nat, n: nat): (q: int)
    ensures q >= -1
  {
    if n == 0 then p
    else
      var q := AfterRows(s, p, n - 1);
      if q < 0 || !RowAt(s, q) then -1 else q + 1 + RowSize(s, q)
  }

  ghost function WithRows(env: Env, key: nat, news: seq<Record>, t: Table, s: seq<Token>, p: nat, n: nat): Table
    requires AfterRows(s, p, n) >= 0
  {
    if n == 0 then t
    else
      var q := AfterRows(s, p, n - 1);
      WithRow(env, key, news, n - 1, WithRows(env, key, news, t, s, p, n - 1), s, q + 1, RowSize(s, q))
  }

  /** Rows that are not all there stay so. */
  lemma {:induction false} RowsMissing(s: seq<Token>, p: nat, k: nat, n: nat)
    requires k <= n && AfterRows(s, p, k) == -1
    ensures AfterRows(s, p, n) == -1
    decreases n
  {
    if k < n {
      RowsMissing(s, p, k, n - 1);
    }
  }

  /** The cell of an entry by its own source. */
  ghost function WithSource(env: Env, key: nat, t: Table, r: Record, id: int): Table {
    var b := NewBucket(env, key, r.addr.service, r.source);
    var c := (b, BucketPosition(env, key, true, b, r.addr.service));
    if c in t && t[c] == -1 then t[c := id] else t
  }

  ghost function WithSources(env: Env, key: nat, news: seq<Record>, t: Table): Table {
    if news == [] then t
    else
      var k := |news| - 1;
      WithSource(env, key, WithSources(env, key, news[..k], t), news[k], k)
  }

  lemma SourcesNext(env: Env, key: nat, news: seq<Record>, r: Record, t: Table)
    ensures WithSources(env, key, news + [r], t) == WithSource(env, key, WithSources(env, key, news, t), r, |news|)
  {
    assert (news + [r])[..|news|] == news;
  }

  /** The new table that a stream describes, from an empty one. */
  ghost function TableRead(env: Env, key: nat, news: seq<Record>, current: bool, t: Table, s: seq<Token>, p: nat,
                           rows: nat): Table
    requires AfterRows(s, p, rows) >= 0
  {
    if current then WithRows(env, key, news, t, s, p, rows) else WithSources(env, key, news, t)
  }
}
