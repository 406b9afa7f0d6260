/**
 The values an address manager stores, the bucket arithmetic of CAddrInfo and the
 constants of src/addrman.h.  Hashing, address grouping and the routability tests are
 code outside the model: they are arbitrary functions, gathered in Env.
 */
module AddrTypes {
  import opened Collections

  const TRIED_BUCKET_COUNT := 256
  const NEW_BUCKET_COUNT := 1024
  const BUCKET_SIZE := 64
  const TRIED_BUCKETS_PER_GROUP := 8
  const NEW_BUCKETS_PER_SOURCE_GROUP := 64
  const NEW_BUCKETS_PER_ADDRESS := 8
  const HORIZON_DAYS := 30
  const RETRIES := 3
  const MAX_FAILURES := 10
  const MIN_FAIL_DAYS := 7
  const REPLACEMENT_HOURS := 4
  const GETADDR_MAX_PCT := 23
  const GETADDR_MAX := 2500
  const SET_TRIED_COLLISION_SIZE := 10

  /** CNetAddr: the key of mapAddr. */
  datatype NetAddr = NetAddr(ip: seq<bv8>)

  /** CService: a network address and a port; what GetKey() serializes. */
  datatype Service = Service(net: NetAddr, port: nat)

  /** CAddress; `time` is a 32-bit field. */
  datatype Address = Address(service: Service, services: bv64, time: nat)

  /** CAddrInfo. */
  datatype AddrInfo = AddrInfo(
    addr: Address,
    source: NetAddr,
    lastTry: int,
    lastCountAttempt: int,
    lastSuccess: int,
    attempts: int,
    refCount: int,
    inTried: bool,
    randomPos: int)
  {
    function Net(): NetAddr { addr.service.net }
    /** Everything but the position in vRandom, which permuting vRandom changes. */
    function Core(): AddrInfo { this.(randomPos := 0) }
  }

  function NewInfo(addr: Address, source: NetAddr): AddrInfo {
    AddrInfo(addr, source, 0, 0, 0, 0, 0, false, -1)
  }

  /** What is fed to the hash writer, one constructor per call site. */
  datatype Preimage =
    | TriedKey(key: nat, service: Service)
    | TriedGroup(key: nat, group: seq<bv8>, slot: nat)
    | NewGroups(key: nat, group: seq<bv8>, sourceGroup: seq<bv8>)
    | NewSource(key: nat, sourceGroup: seq<bv8>, slot: nat)
    | Position(key: nat, tag: char, bucket: int, service: Service)

  datatype Env = Env(
    cheapHash: Preimage -> nat,
    group: NetAddr -> seq<bv8>,
    routable: NetAddr -> bool,
    valid: NetAddr -> bool)

  function TriedBucket(env: Env, key: nat, s: Service): (b: nat)
    ensures b < TRIED_BUCKET_COUNT
  {
    var hash1 := env.cheapHash(TriedKey(key, s));
    env.cheapHash(TriedGroup(key, env.group(s.net), hash1 % TRIED_BUCKETS_PER_GROUP)) % TRIED_BUCKET_COUNT
  }

  function NewBucket(env: Env, key: nat, s: Service, source: NetAddr): (b: nat)
    ensures b < NEW_BUCKET_COUNT
  {
    var g := env.group(source);
    var hash1 := env.cheapHash(NewGroups(key, env.group(s.net), g));
    env.cheapHash(NewSource(key, g, hash1 % NEW_BUCKETS_PER_SOURCE_GROUP)) % NEW_BUCKET_COUNT
  }

  function BucketPosition(env: Env, key: nat, isNew: bool, bucket: int, s: Service): (p: nat)
    ensures p < BUCKET_SIZE
  {
    env.cheapHash(Position(key, if isNew then 'N' else 'K', bucket, s)) % BUCKET_SIZE
  }

  /** The addresses of one group share at most 8 buckets of the tried table. */
  lemma TriedSpread(env: Env, key: nat, group: seq<bv8>, services: set<Service>)
    requires forall s | s in services :: env.group(s.net) == group
    ensures |set s | s in services :: TriedBucket(env, key, s)| <= 8
  {
    var f := (k: nat) => env.cheapHash(TriedGroup(key, group, k)) % TRIED_BUCKET_COUNT;
    ImageSize(8, f);
    var buckets := set s | s in services :: TriedBucket(env, key, s);
    forall b | b in buckets ensures b in set k: nat | k < 8 :: f(k) {
      var s :| s in services && b == TriedBucket(env, key, s);
      assert b == f(env.cheapHash(TriedKey(key, s)) % 8);
    }
    SubsetSize(buckets, set k: nat | k < 8 :: f(k));
  }

  /** What the sources of one group announce shares at most 64 buckets of the new table. */
  lemma NewSpread(env: Env, key: nat, group: seq<bv8>, announced: set<(Service, NetAddr)>)
    requires forall a | a in announced :: env.group(a.1) == group
    ensures |set a | a in announced :: NewBucket(env, key, a.0, a.1)| <= 64
  {
    var f := (k: nat) => env.cheapHash(NewSource(key, group, k)) % NEW_BUCKET_COUNT;
    ImageSize(64, f);
    var buckets := set a | a in announced :: NewBucket(env, key, a.0, a.1);
    forall b | b in buckets ensures b in set k: nat | k < 64 :: f(k) {
      var a :| a in announced && b == NewBucket(env, key, a.0, a.1);
      assert b == f(env.cheapHash(NewGroups(key, env.group(a.0.net), group)) % 64);
    }
    SubsetSize(buckets, set k: nat | k < 64 :: f(k));
  }

  /** From one source group, the addresses of one group share a single bucket of the new table. */
  lemma NewTogether(env: Env, key: nat, s: Service, t: Service, from: NetAddr, from': NetAddr)
    requires env.group(s.net) == env.group(t.net) && env.group(from) == env.group(from')
    ensures NewBucket(env, key, s, from) == NewBucket(env, key, t, from')
  {
  }

  /**
   Worth handing out and keeping: tried within the last minute, or seen within thirty days and not in the future, having
   failed less than 3 times, or less than 10 times since it worked, or having worked within a week.
   */
  ghost predicate Worthwhile(info: AddrInfo, now: int) {
    || (info.lastTry != 0 && now - info.lastTry <= 60)
    || (0 < info.addr.time <= now + 600 && now - info.addr.time <= 2592000
        && (info.attempts < 3
            || (info.lastSuccess != 0 && (info.attempts < 10 || now - info.lastSuccess <= 604800))))
  }

  lemma TerribleIs(info: AddrInfo, now: int)
    ensures IsTerrible(info, now) <==> !Worthwhile(info, now)
  {
  }

  predicate IsTerrible(info: AddrInfo, now: int) {
    if info.lastTry != 0 && info.lastTry >= now - 60 then false
    else if info.addr.time > now + 10 * 60 then true
    else if info.addr.time == 0 || now - info.addr.time > HORIZON_DAYS * 24 * 60 * 60 then true
    else if info.lastSuccess == 0 && info.attempts >= RETRIES then true
    else now - info.lastSuccess > MIN_FAIL_DAYS * 24 * 60 * 60 && info.attempts >= MAX_FAILURES
  }

  /** Assignment of a 64-bit time to the 32-bit nTime field. */
  function ToUint32(t: int): nat { t % 0x1_0000_0000 }

  function Max(a: int, b: int): int { if a < b then b else a }

  /** nTime and nServices of a known entry after it is announced again. */
  function Refreshed(info: AddrInfo, addr: Address, penalty: int, now: int): AddrInfo {
    var interval := if now - addr.time < 24 * 60 * 60 then 60 * 60 else 24 * 60 * 60;
    var time := if addr.time != 0 && (info.addr.time == 0 || info.addr.time < addr.time - interval - penalty)
                then ToUint32(Max(0, addr.time - penalty)) else info.addr.time;
    info.(addr := info.addr.(time := time, services := info.addr.services | addr.services))
  }

  /** 2^refCount: how much harder it is to gain another reference. */
  function Factor(refCount: int): (r: nat)
    ensures r >= 1
  {
    if refCount <= 0 then 1 else 2 * Factor(refCount - 1)
  }

  /** Whether an announcement of a known, refreshed entry goes on to claim one more new bucket. */
  predicate WantsReference(info: AddrInfo, addr: Address, rnd: nat) {
    && addr.time != 0 && !(info.addr.time != 0 && addr.time <= info.addr.time)
    && !info.inTried
    && info.refCount != NEW_BUCKETS_PER_ADDRESS
    && (Factor(info.refCount) > 1 ==> rnd % Factor(info.refCount) == 0)
  }

  /** The entry Add_ creates for an unknown address. */
  function Announced(addr: Address, source: NetAddr, penalty: int): AddrInfo {
    NewInfo(addr.(time := ToUint32(Max(0, addr.time - penalty))), source)
  }

  /** What Good_ records on an entry. */
  function MarkedGood(info: AddrInfo, time: int): AddrInfo {
    info.(lastSuccess := time, lastTry := time, attempts := 0)
  }

  /** What Attempt_ records on an entry. */
  function Attempted(info: AddrInfo, countFailure: bool, time: int, lastGood: int): AddrInfo {
    if countFailure && info.lastCountAttempt < lastGood
    then info.(lastTry := time, lastCountAttempt := time, attempts := info.attempts + 1)
    else info.(lastTry := time)
  }

  /** What Connected_ records on an entry: at most one update every twenty minutes. */
  function SeenAt(info: AddrInfo, time: int): AddrInfo {
    if time - info.addr.time > 20 * 60 then info.(addr := info.addr.(time := ToUint32(time))) else info
  }

  // ---- what the operations record, said of the records ----

  /** A time less a penalty, at least zero. */
  ghost predicate Earlier(time: nat, from: nat, penalty: int) {
    if from >= penalty then time + penalty == from else time == 0
  }

  ghost predicate SameHost(i: AddrInfo, j: AddrInfo) {
    i.addr.service == j.addr.service && i.source == j.source && i.inTried == j.inTried
  }

  ghost predicate SameHistory(i: AddrInfo, j: AddrInfo) {
    && i.lastTry == j.lastTry && i.lastSuccess == j.lastSuccess && i.lastCountAttempt == j.lastCountAttempt
    && i.attempts == j.attempts
  }

  /** The entry of an address never heard of. */
  ghost predicate FreshEntry(info: AddrInfo, addr: Address, source: NetAddr, penalty: int) {
    && info.addr.service == addr.service && info.addr.services == addr.services && info.source == source
    && info.lastTry == 0 && info.lastSuccess == 0 && info.lastCountAttempt == 0 && info.attempts == 0
    && !info.inTried && info.refCount == 1
    && (0 <= penalty && addr.time < 0x1_0000_0000 ==> Earlier(info.addr.time, addr.time, penalty))
  }

  /**
   An entry announced again: its services grow; its time is renewed if it is older than the announced one by more than
   an hour, or a day for an address not online now; and it gains a reference only from news, while it is untried and has
   fewer than 8.
   */
  ghost predicate UpdatedEntry(i: AddrInfo, j: AddrInfo, addr: Address, penalty: int, now: int) {
    && SameHost(i, j) && SameHistory(i, j) && j.addr.services == i.addr.services | addr.services
    && (0 <= penalty && addr.time < 0x1_0000_0000 ==>
          var slack := if now - addr.time < 86400 then 3600 else 86400;
          if addr.time != 0 && (i.addr.time == 0 || addr.time - penalty - i.addr.time > slack)
          then Earlier(j.addr.time, addr.time, penalty) else j.addr.time == i.addr.time)
    && (j.refCount == i.refCount
        || (j.refCount == i.refCount + 1 <= 8 && !i.inTried && addr.time != 0
            && (j.addr.time == 0 || addr.time > j.addr.time)))
  }

  /** An entry that was tried: the failure counts once between two successes anywhere. */
  ghost predicate TriedEntry(i: AddrInfo, j: AddrInfo, countFailure: bool, time: int, lastGood: int) {
    && SameHost(i, j) && j.addr == i.addr && j.refCount == i.refCount && j.randomPos == i.randomPos
    && j.lastSuccess == i.lastSuccess
    && j.lastTry == time
    && (if countFailure && i.lastCountAttempt < lastGood
        then j.attempts == i.attempts + 1 && j.lastCountAttempt == time
        else j.attempts == i.attempts && j.lastCountAttempt == i.lastCountAttempt)
  }

  /** An entry that was connected to: its time is renewed after twenty minutes. */
  ghost predicate SeenEntry(i: AddrInfo, j: AddrInfo, time: int) {
    && SameHost(i, j) && SameHistory(i, j) && j.refCount == i.refCount && j.randomPos == i.randomPos
    && j.addr.services == i.addr.services
    && (0 <= time < 0x1_0000_0000 ==> j.addr.time == if time > i.addr.time + 1200 then time else i.addr.time)
  }

  /** An entry that worked: the count of failures starts anew; the time handed out to others stays. */
  ghost predicate GoodEntry(i: AddrInfo, j: AddrInfo, time: int) {
    && j.addr == i.addr && j.source == i.source && j.lastCountAttempt == i.lastCountAttempt
    && j.lastSuccess == time && j.lastTry == time && j.attempts == 0
  }
}
