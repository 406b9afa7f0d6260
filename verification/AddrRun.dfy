/** Every run of the address manager from empty, with any hash, clock and random choices. */
module AddrRun {
  import opened AddrTypes
  import opened AddrInvariant
  import opened AddrManager
  import AddrCheck
  import AddrSteps

  datatype Op =
    | AddOp(address: Address, source: NetAddr, penalty: int, now: int, later: int, rnd: nat)
    | GoodOp(service: Service, testBeforeEvict: bool, time: int, rnd: nat)
    | AttemptOp(service: Service, countFailure: bool, time: int)
    | ConnectedOp(service: Service, time: int)
    | GetAddrOp(clock: nat -> int)
    | ResolveOp(clock: nat -> int, rnd: nat)
    | SelectCollisionOp

  /** The times that reach lastSuccess and lastTry come from a clock past its epoch. */
  ghost predicate ClockPositive(op: Op) {
    match op
    case GoodOp(_, _, time, _) => time > 0
    case AttemptOp(_, _, time) => time >= 0
    case ResolveOp(clock, _) => forall k: nat :: clock(k) > 0
    case _ => true
  }

  /** The state of a manager. */
  datatype World = World(infos: Infos, byAddr: map<NetAddr, int>, random: seq<int>, idCount: int,
                         tried: Table, new_: Table, collisions: set<int>, lastGood: int)

  ghost function View(a: AddrMan): World
    reads a
  {
    World(a.mapInfo, a.mapAddr, a.vRandom, a.nIdCount, a.tried, a.new_, a.triedCollisions, a.nLastGood)
  }

  ghost predicate SameTables(s: World, s': World) {
    s'.tried == s.tried && s'.new_ == s.new_ && s'.collisions == s.collisions && s'.lastGood == s.lastGood
  }

  /** What an operation does to the state. */
  ghost predicate Did(env: Env, key: nat, op: Op, s: World, s': World) {
    match op
    case AddOp(address, source, penalty, now, later, rnd) =>
      DidAdd(env, key, s, s', address, source, penalty, now, later, rnd)
    case GoodOp(service, test, time, _) => DidGood(env, key, s, s', service, test, time)
    case AttemptOp(service, count, time) => DidAttempt(s, s', service, count, time)
    case ConnectedOp(service, time) => DidConnected(s, s', service, time)
    case GetAddrOp(_) => SameTables(s, s') && SameExcept(s.infos, s'.infos, {})
    case ResolveOp(clock, _) => DidResolve(env, key, s, s', clock)
    case SelectCollisionOp => DidSelect(s, s')
  }

  ghost predicate DidAdd(env: Env, key: nat, s: World, s': World, address: Address, source: NetAddr, penalty: int,
                         now: int, later: int, rnd: nat) {
    && s'.tried == s.tried && s'.collisions == s.collisions && s'.lastGood == s.lastGood
    && exists added :: AddrSteps.AddStep(env, key, s.infos, s.byAddr, s.new_, s'.infos, s'.new_, address, source,
                                         penalty, now, later, rnd, s.idCount, |s.random|, added)
  }

  ghost predicate DidGood(env: Env, key: nat, s: World, s': World, service: Service, test: bool, time: int) {
    && s'.lastGood == time
    && (forall id | id in s.infos && s.infos[id].addr.service == service ::
          AddrSteps.GoodStep(env, key, s.infos, s.tried, s.new_, s.collisions,
                             s'.infos, s'.tried, s'.new_, s'.collisions, id, test, time))
    && ((forall id | id in s.infos :: s.infos[id].addr.service != service) ==>
          s'.infos == s.infos && s'.tried == s.tried && s'.new_ == s.new_ && s'.collisions == s.collisions)
  }

  ghost predicate DidAttempt(s: World, s': World, service: Service, count: bool, time: int) {
    && SameTables(s, s') && s'.infos.Keys == s.infos.Keys
    && forall id | id in s'.infos ::
         if s.infos[id].addr.service == service
         then TriedEntry(s.infos[id], s'.infos[id], count, time, s.lastGood) else s'.infos[id] == s.infos[id]
  }

  ghost predicate DidConnected(s: World, s': World, service: Service, time: int) {
    && SameTables(s, s') && s'.infos.Keys == s.infos.Keys
    && forall id | id in s'.infos ::
         if s.infos[id].addr.service == service
         then SeenEntry(s.infos[id], s'.infos[id], time) else s'.infos[id] == s.infos[id]
  }

  ghost predicate DidResolve(env: Env, key: nat, s: World, s': World, clock: nat -> int) {
    exists order, answers, states :: Resolved(env, key, s, s', clock, order, answers, states)
  }

  ghost predicate DidSelect(s: World, s': World) {
    && s'.infos == s.infos && s'.tried == s.tried && s'.new_ == s.new_ && s'.lastGood == s.lastGood
    && (s'.collisions == s.collisions || exists id :: id !in s.infos && s'.collisions == s.collisions - {id})
  }

  ghost predicate Resolved(env: Env, key: nat, s: World, s': World, clock: nat -> int,
                           order: seq<int>, answers: seq<bool>, states: seq<AddrSteps.Snapshot>) {
    && multiset(order) == multiset(s.collisions) && AddrSteps.Resolves(env, key, order, answers, states, clock)
    && states[0] == AddrSteps.Snapshot(s.infos, s.tried, s.new_, s.collisions)
    && states[|order|] == AddrSteps.Snapshot(s'.infos, s'.tried, s'.new_, s'.collisions)
  }

  /**
   After any operations, everything Check_ tests but the recorded times holds; with a sane clock
   and key, Check_ itself returns 0.  `states` are the states between the operations.
   */
  method Run(env: Env, key: nat, ops: seq<Op>) returns (a: AddrMan, err: int, ghost states: seq<World>)
    ensures fresh(a) && a.Valid() && a.CollisionsValid()
    ensures |states| == |ops| + 1 && states[|ops|] == View(a)
    ensures states[0].infos == map[] && states[0].collisions == {} && states[0].lastGood == 1
    ensures forall i | 0 <= i < |ops| :: Did(env, key, ops[i], states[i], states[i + 1])
    ensures key != 0 && (forall i | 0 <= i < |ops| :: ClockPositive(ops[i])) ==> err == 0
  {
    hide RandomOk, AddrOk, CountOk, TriedOk, NewOk, TimesOk, AddrCheck.Passes, AddrCheck.Reflected,
      AddrCheck.AllMapped, AddrSteps.CollisionsOk, Did;
    a := new AddrMan(env, key);
    states := [View(a)];
    for i := 0 to |ops|
      invariant fresh(a) && fresh(a.vvTried) && fresh(a.vvNew) && a.nKey == key && a.env == env
      invariant a.Valid() && a.CollisionsValid()
      invariant |states| == i + 1 && states[i] == View(a)
      invariant states[0].infos == map[] && states[0].collisions == {} && states[0].lastGood == 1
      invariant forall j | 0 <= j < i :: Did(env, key, ops[j], states[j], states[j + 1])
      invariant (forall j | 0 <= j < i :: ClockPositive(ops[j])) ==> TimesOk(a.mapInfo)
    {
      Step(a, ops[i]);
      states := states + [View(a)];
    }
    Consistent(a);
    if key != 0 && TimesOk(a.mapInfo) {
      AddrCheck.InvariantPasses(a);
    }
    err := AddrCheck.Check(a);
  }

  method Step(a: AddrMan, op: Op)
    requires a.Valid() && a.CollisionsValid()
    modifies a`nIdCount, a`mapInfo, a`mapAddr, a`vRandom, a`nNew, a`nTried, a`new_, a`tried,
             a`nLastGood, a`triedCollisions, a.vvNew, a.vvTried
    ensures a.Valid() && a.CollisionsValid() && Did(a.env, a.nKey, op, old(View(a)), View(a))
    ensures ClockPositive(op) && TimesOk(old(a.mapInfo)) ==> TimesOk(a.mapInfo)
  {
    hide RandomOk, AddrOk, CountOk, TriedOk, NewOk, TimesOk, AddrSteps.CollisionsOk, DidAdd, DidGood, DidAttempt,
      DidConnected, DidResolve, DidSelect, SameExcept, TriedEntry, SeenEntry, GoodEntry, UpdatedEntry, FreshEntry,
      AddrSteps.AddStep, AddrSteps.GoodStep, AddrSteps.Resolves, AddrSteps.Displaces, AddrSteps.TakesCell,
      AddrSteps.Eager, AddrSteps.Offered, AddrSteps.HostsApart, AddrSteps.DistinctIds, Worthwhile, AddrSteps.Occupied;
    match op
    case AddOp(address, source, penalty, now, later, rnd) =>
      var added := a.Add(address, source, penalty, now, later, rnd);
      AddDid(a.env, a.nKey, old(View(a)), View(a), address, source, penalty, now, later, rnd, added);
    case GoodOp(service, testBeforeEvict, time, rnd) =>
      a.Good(service, testBeforeEvict, time, rnd);
      assert DidGood(a.env, a.nKey, old(View(a)), View(a), service, testBeforeEvict, time) by {
        GoodDid(a.env, a.nKey, old(View(a)), View(a), service, testBeforeEvict, time);
      }
    case AttemptOp(service, countFailure, time) =>
      a.Attempt(service, countFailure, time);
      AttemptDid(old(View(a)), View(a), service, countFailure, time);
    case ConnectedOp(service, time) =>
      a.Connected(service, time);
      ConnectedDid(old(View(a)), View(a), service, time);
    case GetAddrOp(clock) =>
      var addresses, _ := a.GetAddr(clock);
    case ResolveOp(clock, rnd) =>
      ghost var order, answers, states := a.ResolveCollisions(clock, rnd);
      ResolveDid(a.env, a.nKey, old(View(a)), View(a), clock, order, answers, states);
    case SelectCollisionOp =>
      var info, id := a.SelectTriedCollision();
      SelectDid(old(View(a)), View(a), id);
  }

  lemma AddDid(env: Env, key: nat, s: World, s': World, address: Address, source: NetAddr, penalty: int,
               now: int, later: int, rnd: nat, added: bool)
    requires s'.tried == s.tried && s'.collisions == s.collisions && s'.lastGood == s.lastGood
    requires AddrSteps.AddStep(env, key, s.infos, s.byAddr, s.new_, s'.infos, s'.new_, address, source,
                               penalty, now, later, rnd, s.idCount, |s.random|, added)
    ensures DidAdd(env, key, s, s', address, source, penalty, now, later, rnd)
  {
  }

  lemma GoodDid(env: Env, key: nat, s: World, s': World, service: Service, test: bool, time: int)
    requires s'.lastGood == time
    requires forall id | id in s.infos && s.infos[id].addr.service == service ::
               AddrSteps.GoodStep(env, key, s.infos, s.tried, s.new_, s.collisions,
                                  s'.infos, s'.tried, s'.new_, s'.collisions, id, test, time)
    requires (forall id | id in s.infos :: s.infos[id].addr.service != service) ==>
               s'.infos == s.infos && s'.tried == s.tried && s'.new_ == s.new_ && s'.collisions == s.collisions
    ensures DidGood(env, key, s, s', service, test, time)
  {
    hide AddrSteps.GoodStep;
  }

  lemma AttemptDid(s: World, s': World, service: Service, count: bool, time: int)
    requires SameTables(s, s') && s'.infos.Keys == s.infos.Keys
    requires forall id | id in s'.infos ::
               if s.infos[id].addr.service == service
               then TriedEntry(s.infos[id], s'.infos[id], count, time, s.lastGood) else s'.infos[id] == s.infos[id]
    ensures DidAttempt(s, s', service, count, time)
  {
  }

  lemma ConnectedDid(s: World, s': World, service: Service, time: int)
    requires SameTables(s, s') && s'.infos.Keys == s.infos.Keys
    requires forall id | id in s'.infos ::
               if s.infos[id].addr.service == service
               then SeenEntry(s.infos[id], s'.infos[id], time) else s'.infos[id] == s.infos[id]
    ensures DidConnected(s, s', service, time)
  {
  }

  lemma ResolveDid(env: Env, key: nat, s: World, s': World, clock: nat -> int,
                   order: seq<int>, answers: seq<bool>, states: seq<AddrSteps.Snapshot>)
    requires Resolved(env, key, s, s', clock, order, answers, states)
    ensures DidResolve(env, key, s, s', clock)
  {
  }

  lemma SelectDid(s: World, s': World, id: int)
    requires s'.infos == s.infos && s'.tried == s.tried && s'.new_ == s.new_ && s'.lastGood == s.lastGood
    requires s'.collisions == if id in s.infos then s.collisions else s.collisions - {id}
    ensures DidSelect(s, s')
  {
  }

  lemma Consistent(a: AddrMan)
    requires a.Valid()
    ensures AddrCheck.Reflected(a) && AddrCheck.AllMapped(a.mapInfo, a.mapAddr)
  {
    assert forall id | id in a.mapInfo :: IndexedAt(a.mapInfo[id], id, a.mapAddr, a.vRandom);
  }
}
