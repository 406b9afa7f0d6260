/**
 The check queue as a state machine (src/checkqueue.h): one master and any number of workers, whose critical sections
 are the steps, in any interleaving and with any outcome of the checks.  A check is a number.
 */
module CheckQueueModel {
  type Check = int

  /**
   Where a thread is: out of Loop, in its critical section, blocked on its condition variable, or working on a batch.
   */
  datatype Thread =
    | Away
    | Inside
    | Waiting(woken: bool)
    | Running(batch: seq<Check>, done: nat, ok: bool)

  /** What one Wait returned, for the checks added since the Wait before it. */
  datatype Round = Round(added: multiset<Check>, passed: multiset<Check>, result: bool)

  /**
   The shared fields, the threads (the master is thread 0) and the history of the current round: the checks added, those
   that ran and returned true, that ran and returned false, and that were skipped after a failure.
   */
  datatype State = State(
    queue: seq<Check>, nIdle: int, nTotal: int, fAllOk: bool, nTodo: int, nBatchSize: nat, threads: seq<Thread>,
    added: multiset<Check>, passed: multiset<Check>, failed: multiset<Check>, skipped: multiset<Check>,
    rounds: seq<Round>)

  // ---- sums over the threads ----

  function Sum(threads: seq<Thread>, f: Thread -> nat): nat {
    if threads == [] then 0 else f(threads[0]) + Sum(threads[1..], f)
  }

  lemma {:induction false} SumUpdate(threads: seq<Thread>, t: nat, thread: Thread, f: Thread -> nat)
    requires t < |threads|
    ensures Sum(threads[t := thread], f) == Sum(threads, f) - f(threads[t]) + f(thread)
    decreases threads
  {
    if t > 0 {
      SumUpdate(threads[1..], t - 1, thread, f);
      assert threads[t := thread][1..] == threads[1..][t - 1 := thread];
    } else {
      assert threads[t := thread][1..] == threads[1..];
    }
  }

  lemma {:induction false} SumPositive(threads: seq<Thread>, f: Thread -> nat)
    requires Sum(threads, f) > 0
    ensures exists t :: 0 <= t < |threads| && f(threads[t]) > 0
  {
    if f(threads[0]) == 0 {
      SumPositive(threads[1..], f);
      var t :| 0 <= t < |threads[1..]| && f(threads[1..][t]) > 0;
      assert f(threads[t + 1]) > 0;
    }
  }

  lemma {:induction false} SumAtLeast(threads: seq<Thread>, f: Thread -> nat, t: nat)
    requires t < |threads|
    ensures Sum(threads, f) >= f(threads[t])
  {
    if t > 0 {
      SumAtLeast(threads[1..], f, t - 1);
    }
  }

  lemma {:induction false} SumZero(threads: seq<Thread>, f: Thread -> nat)
    requires forall t | 0 <= t < |threads| :: f(threads[t]) == 0
    ensures Sum(threads, f) == 0
  {
    if threads != [] {
      SumZero(threads[1..], f);
    }
  }

  lemma {:induction false} SumSame(a: seq<Thread>, b: seq<Thread>, f: Thread -> nat)
    requires |a| == |b| && forall t | 0 <= t < |a| :: f(a[t]) == f(b[t])
    ensures Sum(a, f) == Sum(b, f)
  {
    if a != [] {
      SumSame(a[1..], b[1..], f);
    }
  }

  function Held(thread: Thread): nat { if thread.Running? then |thread.batch| else 0 }
  function Idle(thread: Thread): nat { if thread.Waiting? then 1 else 0 }
  function In(thread: Thread): nat { if thread.Away? then 0 else 1 }

  /** The checks held by a thread and not yet looked at. */
  ghost function LeftOf(thread: Thread): multiset<Check> {
    if thread.Running? && thread.done <= |thread.batch| then multiset(thread.batch[thread.done..]) else multiset{}
  }

  /** How often a check is left with a thread. */
  ghost function LeftIn(c: Check): Thread -> nat { (thread: Thread) => LeftOf(thread)[c] }

  // ---- the steps ----

  lemma ShareBounds(a: nat, d: nat)
    requires d > 0
    ensures a / d <= a && a / d * d <= a < (a / d + 1) * d
  {
    DivLess(a, d);
    assert (a / d + 1) * d == a / d * d + d;
  }

  /** The number of checks a thread takes: a fair share, at least one and at most nBatchSize. */
  function Share(queued: nat, nTotal: int, nIdle: int, nBatchSize: nat): (n: nat)
    requires queued > 0 && nTotal >= 0 && nIdle >= 0
    ensures 1 <= n <= queued && (n <= nBatchSize || n == 1)
    ensures n > 1 ==> n * (nTotal + nIdle + 1) <= queued
    ensures n >= nBatchSize || (n + 1) * (nTotal + nIdle + 1) > queued
  {
    var share := queued / (nTotal + nIdle + 1);
    ShareBounds(queued, nTotal + nIdle + 1);
    var capped := if nBatchSize < share then nBatchSize else share;
    if capped < 1 then 1 else capped
  }

  lemma DivLess(a: nat, b: nat)
    requires b >= 1
    ensures a / b <= a
  {
    assert (a / b) * b <= a;
  }

  /** The last n queued checks, last first. */
  function Taken(queue: seq<Check>, n: nat): (batch: seq<Check>)
    requires n <= |queue|
    ensures |batch| == n && multiset(queue) == multiset(queue[..|queue| - n]) + multiset(batch)
  {
    if n == 0 then
      assert queue[..|queue|] == queue;
      []
    else
      var rest := queue[..|queue| - 1];
      assert queue == rest + [queue[|queue| - 1]];
      assert rest[..|rest| - (n - 1)] == queue[..|queue| - n];
      [queue[|queue| - 1]] + Taken(rest, n - 1)
  }

  function Now(s: State, t: nat, thread: Thread): State
    requires t < |s.threads|
  {
    s.(threads := s.threads[t := thread])
  }

  predicate Live(s: State, t: nat) { t < |s.threads| }

  /** The rest of the critical section of a thread that holds the lock: return, block, or take a batch. */
  function Proceed(s: State, t: nat): State
    requires Live(s, t) && s.nTotal >= 0 && s.nIdle >= 0
  {
    if s.queue == [] then
      if t == 0 && s.nTodo == 0 then
        Now(s, t, Away).(nTotal := s.nTotal - 1, fAllOk := true, added := multiset{}, passed := multiset{},
        failed := multiset{},
        skipped := multiset{}, rounds := s.rounds + [Round(s.added, s.passed, s.fAllOk)])
      else
        Now(s, t, Waiting(false)).(nIdle := s.nIdle + 1)
    else
      var n := Share(|s.queue|, s.nTotal, s.nIdle, s.nBatchSize);
      Now(s, t, Running(Taken(s.queue, n), 0, s.fAllOk)).(queue := s.queue[..|s.queue| - n])
  }

  /** First iteration. */
  function Entered(s: State, t: nat): State
    requires Live(s, t)
  {
    Now(s, t, Inside).(nTotal := s.nTotal + 1)
  }

  /** Waking up, notified or not. */
  function Woken(s: State, t: nat): State
    requires Live(s, t)
  {
    Now(s, t, Inside).(nIdle := s.nIdle - 1)
  }

  /** Clean-up after a batch; a worker that finishes the last check notifies the master. */
  function Cleaned(s: State, t: nat): State
    requires Live(s, t) && s.threads[t].Running?
  {
    var s' := Now(s, t, Inside).(fAllOk := s.fAllOk && s.threads[t].ok, nTodo := s.nTodo - |s.threads[t].batch|);
    if s'.nTodo == 0 && t != 0 && s'.threads[0].Waiting? then Now(s', 0, Waiting(true)) else s'
  }

  /** One check of a batch: run unless something failed before. */
  function Executed(s: State, t: nat, result: bool): State
    requires Live(s, t) && s.threads[t].Running? && s.threads[t].done < |s.threads[t].batch|
  {
    var thread := s.threads[t];
    var check := thread.batch[thread.done];
    var s' := Now(s, t, thread.(done := thread.done + 1, ok := thread.ok && result));
    if !thread.ok then s'.(skipped := s.skipped + multiset{check})
    else if result then s'.(passed := s.passed + multiset{check})
    else s'.(failed := s.failed + multiset{check})
  }

  /** The threads after a notification of the threads in a set. */
  function Notified(threads: seq<Thread>, woken: set<nat>): (r: seq<Thread>)
    ensures |r| == |threads|
  {
    seq(|threads|, t requires 0 <= t < |threads| => if t in woken && threads[t].Waiting? then Waiting(true)
      else threads[t])
  }

  ghost predicate Sleeping(s: State, t: nat) { 0 < t < |s.threads| && s.threads[t] == Waiting(false) }

  /** Whom Add wakes: nobody for no checks, one blocked worker for one check, every blocked worker for more. */
  ghost predicate Notifies(s: State, count: nat, woken: set<nat>) {
    && (forall t | t in woken :: Sleeping(s, t))
    && (count == 0 ==> woken == {})
    && (count == 1 && (exists t :: Sleeping(s, t)) ==> exists t :: woken == {t})
    && (count > 1 ==> forall t: nat | Sleeping(s, t) :: t in woken)
  }

  function Added(s: State, checks: seq<Check>, woken: set<nat>): State {
    s.(queue := s.queue + checks, nTodo := s.nTodo + |checks|, threads := Notified(s.threads, woken),
    added := s.added + multiset(checks))
  }

  datatype Label =
    | Add(checks: seq<Check>, woken: set<nat>)
    | Enter(t: nat)
    | Wake(t: nat)
    | Finish(t: nat)
    | Exec(t: nat, result: bool)

  /** The step can be taken.  Only the master adds, and it is out of Wait when it does. */
  ghost predicate Enabled(s: State, l: Label) {
    && |s.threads| > 0 && s.nTotal >= 0 && s.nIdle >= 0
    && match l
       case Add(checks, woken) => s.threads[0].Away? && Notifies(s, |checks|, woken)
       case Enter(t) => Live(s, t) && s.threads[t].Away?
       case Wake(t) => Live(s, t) && s.threads[t].Waiting? && s.nIdle > 0
       case Finish(t) => Live(s, t) && s.threads[t].Running? && s.threads[t].done == |s.threads[t].batch|
       case Exec(t, _) => Live(s, t) && s.threads[t].Running? && s.threads[t].done < |s.threads[t].batch|
  }

  ghost function Next(s: State, l: Label): State
    requires Enabled(s, l)
  {
    match l
    case Add(checks, woken) => Added(s, checks, woken)
    case Enter(t) => Proceed(Entered(s, t), t)
    case Wake(t) => Proceed(Woken(s, t), t)
    case Finish(t) => Proceed(Cleaned(s, t), t)
    case Exec(t, result) => Executed(s, t, result)
  }

  function Fresh(nBatchSize: nat, workers: nat): State {
    State([], 0, 0, true, 0, nBatchSize, seq(workers + 1, _ => Away), multiset{}, multiset{}, multiset{}, multiset{},
          [])
  }

  // ---- the invariant ----

  ghost predicate Counts(s: State) {
    && |s.threads| > 0
    && s.nTodo == |s.queue| + Sum(s.threads, Held)
    && s.nIdle == Sum(s.threads, Idle)
    && s.nTotal == Sum(s.threads, In)
  }

  ghost predicate Batches(s: State) {
    forall t | 0 <= t < |s.threads| && s.threads[t].Running? ::
      s.threads[t].done <= |s.threads[t].batch| && s.threads[t].batch != []
  }

  /** Every check added in the round is queued, held, or accounted for, once. */
  ghost predicate Ledger(s: State) {
    forall c ::
      s.added[c] == multiset(s.queue)[c] + Sum(s.threads, LeftIn(c)) + s.passed[c] + s.failed[c] + s.skipped[c]
  }

  ghost predicate Doubts(s: State, t: nat) { t < |s.threads| && s.threads[t].Running? && !s.threads[t].ok }

  /**
   A failure is always known: to fAllOk or to a thread that will report it; and nothing is known without a failure.
   */
  ghost predicate Honest(s: State) {
    && (s.failed != multiset{} ==> !s.fAllOk || exists t :: Doubts(s, t))
    && (s.failed == multiset{} ==> s.fAllOk && s.skipped == multiset{} && forall t: nat :: !Doubts(s, t))
  }

  /** A blocked master has nothing to take, and if nothing is left to do it has been notified. */
  ghost predicate NotStranded(s: State) {
    |s.threads| > 0 && s.threads[0].Waiting? ==> s.queue == [] && (s.nTodo == 0 ==> s.threads[0].woken)
  }

  ghost predicate Active(s: State, t: nat) {
    0 < t < |s.threads| && (s.threads[t].Running? || s.threads[t] == Waiting(true) || s.threads[t].Inside?)
  }

  ghost predicate Joined(s: State, t: nat) { 0 < t < |s.threads| && !s.threads[t].Away? }

  /** While checks are queued, the workers that have joined are not all asleep. */
  ghost predicate Awake(s: State) {
    s.queue != [] && (exists t :: Joined(s, t)) ==> exists t :: Active(s, t)
  }

  ghost predicate RoundOk(r: Round) { (r.result <==> r.passed == r.added) && r.passed <= r.added }

  ghost predicate Inv(s: State) {
    Counts(s) && Batches(s) && Ledger(s) && Honest(s) && NotStranded(s) && Awake(s)
    && forall r <- s.rounds :: RoundOk(r)
  }
}
