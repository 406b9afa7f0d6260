/** Runs of the top cache of a stack of any depth, against one plain map per layer. */
module CoinsRun {
  import opened Wrappers
  import opened Coins
  import opened CoinsCaching

  datatype Op =
    | Read(o: OutPoint)
    | Add(o: OutPoint, coin: Coin, possibleOverwrite: bool)
    | Spend(o: OutPoint)
    | Forget(o: OutPoint)
    | Flush

  /** The plain maps: the top layer's first, the database's last. */
  ghost function Levels(c: CoinsCache): (levels: seq<View>)
    requires c.Linked()
    reads c.layers, c.db
    ensures |levels| >= 2
    decreases c.depth
  {
    [c.Shown()] + (if c.parent == null then [c.db.coins] else Levels(c.parent))
  }

  /** What the caller of AddCoin promises: without the overwrite flag, nothing unspent is replaced. */
  ghost predicate Legal(levels: seq<View>, op: Op)
    requires |levels| >= 2
  {
    op.Add? ==> !op.coin.IsSpent() && (op.coin.out.IsUnspendable() || op.possibleOverwrite || op.o !in levels[0])
  }

  ghost function PlainStep(levels: seq<View>, op: Op): (next: seq<View>)
    requires |levels| >= 2
    ensures |next| == |levels|
  {
    match op
    case Read(_) => levels
    case Add(o, coin, _) => if coin.out.IsUnspendable() then levels else levels[0 := levels[0][o := coin]]
    case Spend(o) => levels[0 := levels[0] - {o}]
    case Forget(_) => levels
    case Flush => levels[1 := levels[0]]
  }

  ghost function PlainRun(levels: seq<View>, ops: seq<Op>): seq<View>
    requires |levels| >= 2
    decreases |ops|
  {
    if ops == [] then levels else PlainRun(PlainStep(levels, ops[0]), ops[1..])
  }

  ghost predicate LegalRun(levels: seq<View>, ops: seq<Op>)
    requires |levels| >= 2
    decreases |ops|
  {
    ops == [] || (Legal(levels, ops[0]) && LegalRun(PlainStep(levels, ops[0]), ops[1..]))
  }

  /** What a plain map answers: the coin read or spent, if there is one. */
  ghost function PlainAnswer(levels: seq<View>, op: Op): Option<Coin>
    requires |levels| >= 2
  {
    if (op.Read? || op.Spend?) && op.o in levels[0] then Some(levels[0][op.o]) else None
  }

  ghost function PlainAnswers(levels: seq<View>, ops: seq<Op>): seq<Option<Coin>>
    requires |levels| >= 2
    decreases |ops|
  {
    if ops == [] then [] else [PlainAnswer(levels, ops[0])] + PlainAnswers(PlainStep(levels, ops[0]), ops[1..])
  }

  /**
   No exception is raised on the way, every read and every spend is answered as by the plain maps, and after the run the
   layers show what those hold.
   */
  method Run(top: CoinsCache, ops: seq<Op>) returns (threw: bool, answers: seq<Option<Coin>>)
    requires top.Valid() && LegalRun(Levels(top), ops)
    modifies top.layers, top.db
    ensures !threw && answers == PlainAnswers(old(Levels(top)), ops)
    ensures top.Valid() && Levels(top) == PlainRun(old(Levels(top)), ops)
    decreases |ops|
  {
    if ops == [] {
      return false, [];
    }
    var answer, rest;
    threw, answer := Step(top, ops[0]);
    if threw {
      return true, [];
    }
    threw, rest := Run(top, ops[1..]);
    answers := [answer] + rest;
  }

  twostate lemma {:induction false} LevelsSame(c: CoinsCache)
    requires c.Linked() && c.db.coins == old(c.db.coins)
    requires forall d | d in c.layers && d.Linked() :: d.Shown() == old(d.Shown())
    ensures Levels(c) == old(Levels(c))
    decreases c.depth
  {
    if c.parent != null {
      LevelsSame(c.parent);
    }
  }

  /** One operation, whether it threw, and the coin it read or spent, if any. */
  method Step(top: CoinsCache, op: Op) returns (threw: bool, answer: Option<Coin>)
    requires top.Valid() && Legal(Levels(top), op)
    modifies top.layers, top.db
    ensures !threw && answer == PlainAnswer(old(Levels(top)), op)
    ensures top.Valid() && Levels(top) == PlainStep(old(Levels(top)), op)
  {
    hide Overlay, LayerOk, Usage;
    forall c | c in top.layers { top.Nested(c); }
    threw, answer := false, None;
    match op
    case Read(o) =>
      var found, coin := top.GetCoin(o);
      if found {
        answer := Some(coin);
      }
      LevelsSame(top);
    case Add(o, coin, possibleOverwrite) =>
      if o in top.cacheCoins {
        CachedShows(top.cacheCoins, top.Below(), o);
      } else {
        UncachedShows(top.cacheCoins, top.Below(), o);
      }
      threw := top.AddCoin(o, coin, possibleOverwrite);
      BelowSame(top);
    case Spend(o) =>
      answer := SpendStep(top, o);
    case Forget(o) =>
      top.Uncache(o);
      BelowSame(top);
    case Flush =>
      threw := FlushStep(top);
  }

  /** The levels under the top one, when only the top one changed. */
  twostate lemma BelowSame(top: CoinsCache)
    requires top.Linked() && top.db.coins == old(top.db.coins)
    requires forall c | c in top.layers && c != top && c.Linked() :: c.Shown() == old(c.Shown())
    ensures Levels(top)[1..] == old(Levels(top))[1..] && |Levels(top)| == |old(Levels(top))|
  {
    if top.parent != null {
      LevelsSame(top.parent);
    }
  }

  method SpendStep(top: CoinsCache, o: OutPoint) returns (answer: Option<Coin>)
    requires top.Valid()
    modifies top.layers, top.db
    ensures answer == PlainAnswer(old(Levels(top)), Spend(o))
    ensures top.Valid() && Levels(top) == PlainStep(old(Levels(top)), Spend(o))
  {
    hide Overlay, LayerOk, Usage;
    top.ShownUnspent();
    forall c | c in top.layers { top.Nested(c); }
    var ok, coin := top.SpendCoin(o);
    answer := if ok && !coin.IsSpent() then Some(coin) else None;
    BelowSame(top);
  }

  method FlushStep(top: CoinsCache) returns (threw: bool)
    requires top.Valid()
    modifies top.layers, top.db
    ensures !threw && top.Valid() && Levels(top) == PlainStep(old(Levels(top)), Flush)
  {
    hide Overlay, LayerOk, Usage;
    threw := top.Flush();
    if top.parent != null {
      BelowSame(top.parent);
    }
  }
}
