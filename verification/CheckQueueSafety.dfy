/**
 Every step of the check queue keeps the invariant, so every Wait of every run answers truly (src/checkqueue.h:66-158).
 */
module CheckQueueSafety {
  import opened CheckQueueModel

  /** How the sums change when one thread changes. */
  lemma ThreadChange(s: State, t: nat, thread: Thread)
    requires Live(s, t)
    ensures var s' := Now(s, t, thread);
            && Sum(s'.threads, Held) == Sum(s.threads, Held) - Held(s.threads[t]) + Held(thread)
            && Sum(s'.threads, Idle) == Sum(s.threads, Idle) - Idle(s.threads[t]) + Idle(thread)
            && Sum(s'.threads, In) == Sum(s.threads, In) - In(s.threads[t]) + In(thread)
  {
    SumUpdate(s.threads, t, thread, Held);
    SumUpdate(s.threads, t, thread, Idle);
    SumUpdate(s.threads, t, thread, In);
  }

  /** The check among the queued, the accounted for and what is left with one thread. */
  ghost function Seen(s: State, t: nat, c: Check): nat
    requires Live(s, t)
  {
    multiset(s.queue)[c] + LeftOf(s.threads[t])[c] + s.passed[c] + s.failed[c] + s.skipped[c]
  }

  /** The ledger balances if what one thread gives up appears elsewhere. */
  lemma LedgerKeeps(s: State, s': State, t: nat)
    requires Ledger(s) && Live(s, t) && Live(s', t) && s'.threads == s.threads[t := s'.threads[t]]
    requires forall c :: s'.added[c] + Seen(s, t, c) == s.added[c] + Seen(s', t, c)
    ensures Ledger(s')
  {
    forall c
      ensures s'.added[c] == multiset(s'.queue)[c] + Sum(s'.threads, LeftIn(c)) + s'.passed[c] + s'.failed[c]
                             + s'.skipped[c]
    {
      SumUpdate(s.threads, t, s'.threads[t], LeftIn(c));
    }
  }

  lemma InvStart(nBatchSize: nat, workers: nat)
    ensures Inv(Fresh(nBatchSize, workers))
  {
    var s := Fresh(nBatchSize, workers);
    SumZero(s.threads, Held);
    SumZero(s.threads, Idle);
    SumZero(s.threads, In);
    forall c ensures Sum(s.threads, LeftIn(c)) == 0 {
      SumZero(s.threads, LeftIn(c));
    }
  }

  lemma EnterKeeps(s: State, t: nat)
    requires Inv(s) && Live(s, t) && s.threads[t].Away?
    ensures Inv(Entered(s, t))
  {
    hide Sum, Ledger, Honest, Awake;
    var s' := Entered(s, t);
    ThreadChange(s, t, Inside);
    LedgerKeeps(s, s', t);
    HonestKeeps(s, s', t);
    AwakeKeepsOne(s, s', t);
  }

  /** A change of one thread that is not and was not in doubt. */
  lemma HonestKeeps(s: State, s': State, t: nat)
    requires Honest(s) && Live(s, t) && |s'.threads| == |s.threads|
    requires s'.fAllOk == s.fAllOk && s'.failed == s.failed && s'.skipped == s.skipped
    requires forall u: nat | u < |s.threads| && u != t :: s'.threads[u] == s.threads[u]
    requires !Doubts(s, t) && !Doubts(s', t)
    ensures Honest(s')
  {
    assert forall u: nat :: Doubts(s', u) <==> Doubts(s, u);
  }

  /** The same workers are awake, and no queue has appeared. */
  lemma AwakeKeeps(s: State, s': State)
    requires Awake(s) && |s'.threads| == |s.threads| && (s.queue == [] ==> s'.queue == [])
    requires forall u: nat | 0 < u < |s.threads| :: s'.threads[u] == s.threads[u]
    ensures Awake(s')
  {
    assert forall u: nat :: Active(s', u) <==> Active(s, u);
    assert forall u: nat :: Joined(s', u) <==> Joined(s, u);
  }

  /** A change of one thread that, if it is a worker, is awake now. */
  lemma AwakeKeepsOne(s: State, s': State, t: nat)
    requires Awake(s) && Live(s, t) && |s'.threads| == |s.threads| && (s.queue == [] ==> s'.queue == [])
    requires forall u: nat | u < |s.threads| && u != t :: s'.threads[u] == s.threads[u]
    requires t > 0 ==> Active(s', t)
    ensures Awake(s')
  {
    if t == 0 {
      AwakeKeeps(s, s');
    }
  }

  lemma WakeKeeps(s: State, t: nat)
    requires Inv(s) && Live(s, t) && s.threads[t].Waiting?
    ensures s.nIdle > 0 && Inv(Woken(s, t))
  {
    hide Sum, Ledger, Honest, Awake;
    var s' := Woken(s, t);
    SumAtLeast(s.threads, Idle, t);
    ThreadChange(s, t, Inside);
    LedgerKeeps(s, s', t);
    HonestKeeps(s, s', t);
    AwakeKeepsOne(s, s', t);
  }

  lemma CleanKeeps(s: State, t: nat)
    requires Inv(s) && Live(s, t) && s.threads[t].Running? && s.threads[t].done == |s.threads[t].batch|
    ensures s.nTodo >= |s.threads[t].batch| && Inv(Cleaned(s, t))
  {
    hide Sum, Ledger, Honest, Awake;
    assert Held(s.threads[t]) == |s.threads[t].batch|;
    SumAtLeast(s.threads, Held, t);
    var s1 := Now(s, t, Inside).(fAllOk := s.fAllOk && s.threads[t].ok, nTodo := s.nTodo - |s.threads[t].batch|);
    ThreadChange(s, t, Inside);
    LedgerKeeps(s, s1, t);
    CleanHonest(s, s1, t);
    AwakeKeepsOne(s, s1, t);
    var s' := Cleaned(s, t);
    if s1.nTodo == 0 && t != 0 && s1.threads[0].Waiting? {
      ThreadChange(s1, 0, Waiting(true));
      LedgerKeeps(s1, s', 0);
      HonestKeeps(s1, s', 0);
      AwakeKeeps(s1, s');
    }
  }

  /** A thread in doubt hands its doubt over to fAllOk. */
  lemma CleanHonest(s: State, s': State, t: nat)
    requires Honest(s) && Live(s, t) && s.threads[t].Running? && s'.threads == s.threads[t := Inside]
    requires s'.fAllOk == (s.fAllOk && s.threads[t].ok) && s'.failed == s.failed && s'.skipped == s.skipped
    ensures Honest(s')
  {
    assert Doubts(s, t) <==> !s.threads[t].ok;
    assert forall u: nat | u != t :: Doubts(s', u) <==> Doubts(s, u);
    if s.failed != multiset{} && s'.fAllOk {
      var u :| Doubts(s, u);
      assert Doubts(s', u);
    }
  }

  lemma ExecKeeps(s: State, t: nat, result: bool)
    requires Inv(s) && Live(s, t) && s.threads[t].Running? && s.threads[t].done < |s.threads[t].batch|
    ensures Inv(Executed(s, t, result))
  {
    hide Sum, Ledger, Honest, Awake, Executed, Seen;
    var s' := Executed(s, t, result);
    ExecShape(s, t, result);
    ThreadChange(s, t, s'.threads[t]);
    ExecBalances(s, t, result);
    LedgerKeeps(s, s', t);
    ExecHonest(s, t, result);
    AwakeKeepsOne(s, s', t);
  }

  lemma ExecShape(s: State, t: nat, result: bool)
    requires Live(s, t) && s.threads[t].Running? && s.threads[t].done < |s.threads[t].batch|
    ensures var s', thread := Executed(s, t, result), s.threads[t];
            && s'.threads == s.threads[t := thread.(done := thread.done + 1, ok := thread.ok && result)]
            && s' == s.(threads := s'.threads, passed := s'.passed, failed := s'.failed, skipped := s'.skipped)
  {
  }

  lemma OneLess(batch: seq<Check>, done: nat, c: Check)
    requires done < |batch|
    ensures multiset(batch[done..])[c] == multiset(batch[done + 1..])[c] + multiset{batch[done]}[c]
  {
    assert batch[done..] == [batch[done]] + batch[done + 1..];
  }

  lemma ExecBalances(s: State, t: nat, result: bool)
    requires Live(s, t) && s.threads[t].Running? && s.threads[t].done < |s.threads[t].batch|
    ensures forall c :: Seen(s, t, c) == Seen(Executed(s, t, result), t, c)
  {
    var thread := s.threads[t];
    forall c ensures Seen(s, t, c) == Seen(Executed(s, t, result), t, c) {
      OneLess(thread.batch, thread.done, c);
    }
  }

  /** A failed check leaves its thread in doubt. */
  lemma ExecHonest(s: State, t: nat, result: bool)
    requires Honest(s) && Live(s, t) && s.threads[t].Running? && s.threads[t].done < |s.threads[t].batch|
    ensures Honest(Executed(s, t, result))
  {
    var s' := Executed(s, t, result);
    var thread := s.threads[t];
    var check := thread.batch[thread.done];
    assert Doubts(s, t) <==> !thread.ok;
    assert Doubts(s', t) <==> !(thread.ok && result);
    assert forall u: nat | u != t :: Doubts(s', u) <==> Doubts(s, u);
    assert (s.failed + multiset{check})[check] > 0;
    if thread.ok && s.failed != multiset{} && s.fAllOk {
      var u :| Doubts(s, u);
      assert Doubts(s', u);
    }
  }

  lemma AddKeeps(s: State, checks: seq<Check>, woken: set<nat>)
    requires Inv(s) && s.threads[0].Away? && Notifies(s, |checks|, woken)
    ensures Inv(Added(s, checks, woken))
  {
    hide Sum, Notifies, Awake;
    var s' := Added(s, checks, woken);
    SumSame(s.threads, s'.threads, Held);
    SumSame(s.threads, s'.threads, Idle);
    SumSame(s.threads, s'.threads, In);
    forall c ensures Sum(s'.threads, LeftIn(c)) == Sum(s.threads, LeftIn(c)) {
      SumSame(s.threads, s'.threads, LeftIn(c));
    }
    assert forall u: nat :: Doubts(s', u) <==> Doubts(s, u);
    AddAwakes(s, checks, woken);
  }

  lemma AddAwakes(s: State, checks: seq<Check>, woken: set<nat>)
    requires Awake(s) && Notifies(s, |checks|, woken)
    ensures Awake(Added(s, checks, woken))
  {
    var s' := Added(s, checks, woken);
    assert forall u: nat :: Active(s, u) ==> Active(s', u);
    assert forall u: nat :: Joined(s', u) <==> Joined(s, u);
    if s'.queue != [] && exists t :: Joined(s', t) {
      var t :| Joined(s', t);
      if Sleeping(s, t) && checks != [] {
        if |checks| == 1 {
          var u :| woken == {u};
          assert Sleeping(s, u) && Active(s', u);
        } else {
          assert t in woken && Active(s', t);
        }
      } else if checks != [] {
        assert Active(s', t);
      } else {
        assert s'.queue == s.queue;
      }
    }
  }

  // ---- the rest of the critical section ----

  /** The verdict: with nothing queued or held, fAllOk says whether everything added has passed. */
  lemma Verdict(s: State)
    requires Counts(s) && Batches(s) && Ledger(s) && Honest(s) && s.queue == [] && s.nTodo == 0
    ensures forall t: nat | t < |s.threads| :: !s.threads[t].Running?
    ensures RoundOk(Round(s.added, s.passed, s.fAllOk))
  {
    forall t: nat | t < |s.threads| ensures !s.threads[t].Running? {
      SumAtLeast(s.threads, Held, t);
    }
    forall c ensures s.added[c] == s.passed[c] + s.failed[c] + s.skipped[c] {
      SumZero(s.threads, LeftIn(c));
    }
    assert s.failed == multiset{} <==> s.fAllOk;
    assert s.added == s.passed + s.failed + s.skipped;
    assert |s.added| == |s.passed| + |s.failed| + |s.skipped|;
  }

  lemma ReturnKeeps(s: State)
    requires Inv(s) && s.threads[0].Inside? && s.queue == [] && s.nTodo == 0
    ensures Inv(Proceed(s, 0))
  {
    hide Sum, RoundOk, Awake;
    var s' := Proceed(s, 0);
    Verdict(s);
    ThreadChange(s, 0, Away);
    forall c ensures Sum(s'.threads, LeftIn(c)) == 0 {
      SumZero(s'.threads, LeftIn(c));
    }
    AwakeKeepsOne(s, s', 0);
  }

  lemma BlockKeeps(s: State, t: nat)
    requires Inv(s) && Live(s, t) && s.threads[t].Inside? && s.queue == [] && (t > 0 || s.nTodo != 0)
    ensures Inv(Proceed(s, t))
  {
    hide Sum, Ledger, Honest;
    var s' := Proceed(s, t);
    ThreadChange(s, t, Waiting(false));
    LedgerKeeps(s, s', t);
    HonestKeeps(s, s', t);
  }

  lemma TakeKeeps(s: State, t: nat)
    requires Inv(s) && Live(s, t) && s.threads[t].Inside? && s.queue != []
    ensures Inv(Proceed(s, t))
  {
    hide Sum, Ledger, Honest, Awake, Taken;
    var s' := Proceed(s, t);
    var n := Share(|s.queue|, s.nTotal, s.nIdle, s.nBatchSize);
    var batch := Taken(s.queue, n);
    ThreadChange(s, t, s'.threads[t]);
    TakeBalances(s, s', t, n);
    LedgerKeeps(s, s', t);
    TakeHonest(s, s', t);
    AwakeKeepsOne(s, s', t);
  }

  lemma TakeBalances(s: State, s': State, t: nat, n: nat)
    requires Live(s, t) && s.threads[t].Inside? && n <= |s.queue|
    requires s' == Now(s, t, Running(Taken(s.queue, n), 0, s.fAllOk)).(queue := s.queue[..|s.queue| - n])
    ensures forall c :: Seen(s, t, c) == Seen(s', t, c)
  {
    hide Taken;
    var batch := Taken(s.queue, n);
    assert batch[0..] == batch;
  }

  lemma TakeHonest(s: State, s': State, t: nat)
    requires Honest(s) && Live(s, t) && s.threads[t].Inside? && |s'.threads| == |s.threads|
    requires s'.fAllOk == s.fAllOk && s'.failed == s.failed && s'.skipped == s.skipped
    requires forall u: nat | u < |s.threads| && u != t :: s'.threads[u] == s.threads[u]
    requires s'.threads[t].Running? && s'.threads[t].ok == s.fAllOk
    ensures Honest(s')
  {
    assert forall u: nat | u != t :: Doubts(s', u) <==> Doubts(s, u);
    if s.failed != multiset{} && s.fAllOk {
      var u :| Doubts(s, u);
      assert Doubts(s', u);
    }
  }

  lemma ProceedKeeps(s: State, t: nat)
    requires Inv(s) && Live(s, t) && s.threads[t].Inside?
    ensures Inv(Proceed(s, t))
  {
    hide Inv, Sum;
    if s.queue != [] {
      TakeKeeps(s, t);
    } else if t == 0 && s.nTodo == 0 {
      ReturnKeeps(s);
    } else {
      BlockKeeps(s, t);
    }
  }

  // ---- runs ----

  /** Between steps no thread holds the lock. */
  ghost predicate Quiet(s: State) { forall t | 0 <= t < |s.threads| :: !s.threads[t].Inside? }

  lemma StepKeeps(s: State, l: Label)
    requires Inv(s) && Enabled(s, l)
    ensures Inv(Next(s, l))
  {
    hide Inv, Proceed;
    match l
    case Add(checks, woken) => AddKeeps(s, checks, woken);
    case Enter(t) => EnterKeeps(s, t); ProceedKeeps(Entered(s, t), t);
    case Wake(t) => WakeKeeps(s, t); ProceedKeeps(Woken(s, t), t);
    case Finish(t) => CleanKeeps(s, t); ProceedKeeps(Cleaned(s, t), t);
    case Exec(t, result) => ExecKeeps(s, t, result);
  }

  lemma ProceedQuiet(s: State, t: nat)
    requires Live(s, t) && s.nTotal >= 0 && s.nIdle >= 0
    requires forall u | 0 <= u < |s.threads| && u != t :: !s.threads[u].Inside?
    ensures Quiet(Proceed(s, t))
  {
  }

  lemma AddQuiet(s: State, checks: seq<Check>, woken: set<nat>)
    requires Quiet(s)
    ensures Quiet(Added(s, checks, woken))
  {
  }

  lemma ExecQuiet(s: State, t: nat, result: bool)
    requires Quiet(s) && Live(s, t) && s.threads[t].Running? && s.threads[t].done < |s.threads[t].batch|
    ensures Quiet(Executed(s, t, result))
  {
  }

  lemma StepQuiet(s: State, l: Label)
    requires Quiet(s) && Enabled(s, l)
    ensures Quiet(Next(s, l))
  {
    hide Proceed, Added, Executed, Notifies;
    match l
    case Add(checks, woken) => AddQuiet(s, checks, woken);
    case Enter(t) => ProceedQuiet(Entered(s, t), t);
    case Wake(t) => ProceedQuiet(Woken(s, t), t);
    case Finish(t) => ProceedQuiet(Cleaned(s, t), t);
    case Exec(t, result) => ExecQuiet(s, t, result);
  }

  /** The labels lead from one state to the other, each step being possible where it is taken. */
  ghost predicate Runs(s: State, labels: seq<Label>, s': State)
    decreases labels
  {
    if labels == [] then s' == s else Enabled(s, labels[0]) && Runs(Next(s, labels[0]), labels[1..], s')
  }

  /**
   Safety of every run: counters match, every check added is in exactly one place, a blocked master is never stranded,
   and every Wait that has returned said true exactly if every check added for it ran and returned true.
   */
  lemma {:induction false} RunKeeps(s: State, labels: seq<Label>, s': State)
    requires Inv(s) && Quiet(s) && Runs(s, labels, s')
    ensures Inv(s') && Quiet(s')
    decreases labels
  {
    hide Inv, Next, Enabled, Quiet;
    if labels != [] {
      StepKeeps(s, labels[0]);
      StepQuiet(s, labels[0]);
      RunKeeps(Next(s, labels[0]), labels[1..], s');
    }
  }

  lemma EveryRun(nBatchSize: nat, workers: nat, labels: seq<Label>, s: State)
    requires Runs(Fresh(nBatchSize, workers), labels, s)
    ensures Inv(s) && Quiet(s)
  {
    hide Inv;
    InvStart(nBatchSize, workers);
    RunKeeps(Fresh(nBatchSize, workers), labels, s);
  }

  /** Nothing is queued, counted or held. */
  ghost predicate AllDone(s: State) {
    s.queue == [] && s.nTodo == 0 && forall t: nat | t < |s.threads| :: !s.threads[t].Running?
  }

  lemma NothingHeld(s: State)
    requires Counts(s) && Batches(s) && s.queue == [] && s.nTodo == 0
    ensures AllDone(s)
  {
    forall t: nat | t < |s.threads| ensures !s.threads[t].Running? {
      SumAtLeast(s.threads, Held, t);
    }
  }

  lemma ProceedCloses(s: State, t: nat)
    requires Live(s, t) && s.nTotal >= 0 && s.nIdle >= 0 && |Proceed(s, t).rounds| > |s.rounds|
    ensures var s' := Proceed(s, t);
            && t == 0 && s'.queue == [] && s'.nTodo == 0 && s'.threads[0].Away?
            && s'.rounds == s.rounds + [Round(s.added, s.passed, s.fAllOk)]
  {
  }

  /** A Wait ended between the two states, with the answer of a round for exactly the checks added. */
  ghost predicate Ended(s: State, s': State) {
    && AllDone(s') && |s'.threads| > 0 && s'.threads[0].Away? && |s'.rounds| == |s.rounds| + 1
    && s'.rounds[..|s.rounds|] == s.rounds && s'.rounds[|s.rounds|].added == s.added
    && RoundOk(s'.rounds[|s.rounds|])
  }

  /**
   The return of Wait in any run: the step that ends a Wait leaves nothing queued, counted or held by any thread, the
   master is out, and the answer is true exactly if every check added for it ran and returned true.
   */
  lemma WaitEnds(nBatchSize: nat, workers: nat, labels: seq<Label>, s: State, l: Label)
    requires Runs(Fresh(nBatchSize, workers), labels, s) && Enabled(s, l) && |Next(s, l).rounds| > |s.rounds|
    ensures Ended(s, Next(s, l))
  {
    hide Proceed, Ledger, Honest, Awake, NotStranded, RoundOk, Sum;
    EveryRun(nBatchSize, workers, labels, s);
    StepKeeps(s, l);
    match l {
      case Add(_, _) =>
      case Enter(t) => ProceedCloses(Entered(s, t), t);
      case Wake(t) => ProceedCloses(Woken(s, t), t);
      case Finish(t) => ProceedCloses(Cleaned(s, t), t);
      case Exec(t, _) =>
    }
    NothingHeld(Next(s, l));
  }

  // ---- what the rounds cover ----

  ghost function AddedBy(labels: seq<Label>): multiset<Check> {
    if labels == [] then multiset{}
    else (if labels[0].Add? then multiset(labels[0].checks) else multiset{}) + AddedBy(labels[1..])
  }

  ghost function Closed(rounds: seq<Round>): multiset<Check> {
    if rounds == [] then multiset{} else Closed(rounds[..|rounds| - 1]) + rounds[|rounds| - 1].added
  }

  /** Everything ever added belongs to the rounds closed so far or to the current one. */
  lemma {:induction false} RoundsCover(s: State, labels: seq<Label>, s': State)
    requires Runs(s, labels, s')
    ensures Closed(s'.rounds) + s'.added == Closed(s.rounds) + s.added + AddedBy(labels)
    decreases labels
  {
    hide Enabled, Next;
    if labels != [] {
      var next := Next(s, labels[0]);
      StepCovers(s, labels[0]);
      RoundsCover(next, labels[1..], s');
    }
  }

  lemma ProceedCovers(s: State, t: nat)
    requires Live(s, t) && s.nTotal >= 0 && s.nIdle >= 0
    ensures var s' := Proceed(s, t); Closed(s'.rounds) + s'.added == Closed(s.rounds) + s.added
  {
    var s' := Proceed(s, t);
    if s.queue == [] && t == 0 && s.nTodo == 0 {
      assert s'.rounds[..|s'.rounds| - 1] == s.rounds;
    }
  }

  lemma StepCovers(s: State, l: Label)
    requires Enabled(s, l)
    ensures var s' := Next(s, l);
            Closed(s'.rounds) + s'.added == Closed(s.rounds) + s.added + if l.Add? then multiset(l.checks)
            else multiset{}
  {
    hide Proceed, Closed;
    match l
    case Add(_, _) =>
    case Enter(t) => ProceedCovers(Entered(s, t), t);
    case Wake(t) => ProceedCovers(Woken(s, t), t);
    case Finish(t) => ProceedCovers(Cleaned(s, t), t);
    case Exec(t, _) =>
  }
}
