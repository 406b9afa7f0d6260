/**
 CCheckQueue: the shared fields and the critical sections of its threads (src/checkqueue.h).  Each method is one atomic
 section, from taking the lock to releasing it by returning, blocking or leaving to work; what a thread keeps in its
 local variables is in `threads`.
 */
module CheckQueueing {
  import opened CheckQueueModel
  import opened CheckQueueSafety

  class CheckQueue {
    var queue: seq<Check>
    var nIdle: int
    var nTotal: int
    var fAllOk: bool
    var nTodo: int
    const nBatchSize: nat
    var threads: seq<Thread>
    ghost var added: multiset<Check>
    ghost var passed: multiset<Check>
    ghost var failed: multiset<Check>
    ghost var skipped: multiset<Check>
    ghost var rounds: seq<Round>

    ghost function Now(): State
      reads this
    {
      State(queue, nIdle, nTotal, fAllOk, nTodo, nBatchSize, threads, added, passed, failed, skipped, rounds)
    }

    constructor (nBatchSizeIn: nat, workers: nat)
      ensures Now() == Fresh(nBatchSizeIn, workers) && Inv(Now())
    {
      queue, nIdle, nTotal, fAllOk, nTodo, nBatchSize := [], 0, 0, true, 0, nBatchSizeIn;
      threads := seq(workers + 1, _ => Away);
      added, passed, failed, skipped, rounds := multiset{}, multiset{}, multiset{}, multiset{}, [];
      new;
      InvStart(nBatchSizeIn, workers);
    }

    /** Add, by the master while it is out of Wait; `woken` are the workers the notification reaches. */
    method Add(checks: seq<Check>, woken: set<nat>)
      requires Inv(Now()) && Enabled(Now(), Label.Add(checks, woken))
      modifies this
      ensures Now() == Next(old(Now()), Label.Add(checks, woken)) && Inv(Now())
    {
      hide Inv, Notifies;
      AddKeeps(Now(), checks, woken);
      var i := 0;
      while i < |checks|
        invariant 0 <= i <= |checks|
        invariant Now() == old(Now()).(queue := old(queue) + checks[..i])
      {
        assert old(queue) + checks[..i + 1] == old(queue) + checks[..i] + [checks[i]];
        queue := queue + [checks[i]];
        i := i + 1;
      }
      assert checks[..|checks|] == checks;
      nTodo := nTodo + |checks|;
      threads := Notified(threads, woken);
      added := added + multiset(checks);
    }

    /** A thread comes into Loop: a worker's start or the master's Wait. */
    method Enter(t: nat) returns (returned: bool, result: bool)
      requires Inv(Now()) && Enabled(Now(), Label.Enter(t))
      modifies this
      ensures Now() == Next(old(Now()), Label.Enter(t)) && Inv(Now())
      ensures Answered(old(rounds), t, returned, result)
    {
      hide Inv;
      EnterKeeps(Now(), t);
      threads := threads[t := Inside];
      nTotal := nTotal + 1;
      returned, result := Continue(t);
    }

    /** A blocked thread gets the lock back, notified or not. */
    method Wake(t: nat) returns (returned: bool, result: bool)
      requires Inv(Now()) && Enabled(Now(), Label.Wake(t))
      modifies this
      ensures Now() == Next(old(Now()), Label.Wake(t)) && Inv(Now())
      ensures Answered(old(rounds), t, returned, result)
    {
      hide Inv;
      WakeKeeps(Now(), t);
      threads := threads[t := Inside];
      nIdle := nIdle - 1;
      returned, result := Continue(t);
    }

    /** A thread comes back with its batch done. */
    method Finish(t: nat) returns (returned: bool, result: bool)
      requires Inv(Now()) && Enabled(Now(), Label.Finish(t))
      modifies this
      ensures Now() == Next(old(Now()), Label.Finish(t)) && Inv(Now())
      ensures Answered(old(rounds), t, returned, result)
    {
      hide Inv;
      CleanKeeps(Now(), t);
      var ok, now := threads[t].ok, |threads[t].batch|;
      threads := threads[t := Inside];
      fAllOk := fAllOk && ok;
      nTodo := nTodo - now;
      if nTodo == 0 && t != 0 {
        NotifyMaster();
      }
      returned, result := Continue(t);
    }

    /** condMaster.notify_one(). */
    method NotifyMaster()
      requires |threads| > 0
      modifies this`threads
      ensures threads == if old(threads[0]).Waiting? then old(threads)[0 := Waiting(true)] else old(threads)
    {
      if threads[0].Waiting? {
        threads := threads[0 := Waiting(true)];
      }
    }

    /**
     What a thread is told when it leaves the section: only the master ever returns, with the verdict of its round.
     */
    ghost predicate Answered(before: seq<Round>, t: nat, returned: bool, result: bool)
      reads this
    {
      if returned then t == 0 && |rounds| == |before| + 1 && rounds[..|before|] == before
                       && rounds[|before|].result == result
      else rounds == before
    }

    /** The rest of the section: return, block, or take a batch. */
    method Continue(t: nat) returns (returned: bool, result: bool)
      requires Inv(Now()) && Live(Now(), t) && threads[t].Inside? && nTotal >= 0 && nIdle >= 0
      modifies this
      ensures Now() == Proceed(old(Now()), t) && Inv(Now())
      ensures Answered(old(rounds), t, returned, result)
    {
      hide Inv, Proceed;
      returned, result := false, false;
      ProceedKeeps(Now(), t);
      if queue == [] {
        if t == 0 && nTodo == 0 {
          result := Return();
          returned := true;
        } else {
          Block(t);
        }
      } else {
        Take(t);
      }
    }

    method Return() returns (result: bool)
      requires |threads| > 0 && queue == [] && nTodo == 0 && nTotal >= 0 && nIdle >= 0
      modifies this
      ensures Now() == Proceed(old(Now()), 0)
      ensures rounds == old(rounds) + [Round(old(added), old(passed), result)] && result == old(fAllOk)
    {
      hide Taken, Share, Proceed;
      ProceedReturns(Now());
      nTotal := nTotal - 1;
      result := fAllOk;
      CloseRound();
      fAllOk := true;
      threads := threads[0 := Away];
    }

    ghost method CloseRound()
      modifies this`rounds, this`added, this`passed, this`failed, this`skipped
      ensures rounds == old(rounds) + [Round(old(added), old(passed), fAllOk)]
      ensures added == passed == failed == skipped == multiset{}
    {
      rounds := rounds + [Round(added, passed, fAllOk)];
      added, passed, failed, skipped := multiset{}, multiset{}, multiset{}, multiset{};
    }

    method Block(t: nat)
      requires t < |threads| && queue == [] && (t > 0 || nTodo != 0) && nTotal >= 0 && nIdle >= 0
      modifies this`nIdle, this`threads
      ensures Now() == Proceed(old(Now()), t)
    {
      nIdle := nIdle + 1;
      threads := threads[t := Waiting(false)];
    }

    method Take(t: nat)
      requires t < |threads| && queue != [] && nTotal >= 0 && nIdle >= 0
      modifies this`queue, this`threads
      ensures Now() == Proceed(old(Now()), t)
    {
      hide Taken, Share;
      var now := Share(|queue|, nTotal, nIdle, nBatchSize);
      var batch := TakeBatch(now);
      threads := threads[t := Running(batch, 0, fAllOk)];
    }

    /** The loop that moves the last checks of the queue into the batch. */
    method TakeBatch(now: nat) returns (batch: seq<Check>)
      requires now <= |queue|
      modifies this`queue
      ensures queue == old(queue)[..old(|queue|) - now] && batch == Taken(old(queue), now)
    {
      hide Taken;
      batch := [];
      TakenNone(queue);
      for i := 0 to now
        invariant queue == old(queue)[..old(|queue|) - i] && batch == Taken(old(queue), i)
      {
        TakenOneMore(old(queue), i);
        batch := batch + [queue[|queue| - 1]];
        queue := queue[..|queue| - 1];
      }
    }

    /** One check of the batch, outside the lock; `outcome` is what the check returns if it is run. */
    method Execute(t: nat, outcome: bool)
      requires Inv(Now()) && Enabled(Now(), Label.Exec(t, outcome))
      modifies this`threads, this`passed, this`failed, this`skipped
      ensures Now() == Next(old(Now()), Label.Exec(t, outcome)) && Inv(Now())
    {
      hide Inv, Enabled, Next;
      ExecNext(Now(), t, outcome);
      ExecKeeps(Now(), t, outcome);
      var thread := threads[t];
      ghost var check := multiset{thread.batch[thread.done]};
      var ok := thread.ok;
      if ok {
        ok := outcome;
        if outcome {
          passed := passed + check;
        } else {
          failed := failed + check;
        }
      } else {
        skipped := skipped + check;
      }
      threads := threads[t := Running(thread.batch, thread.done + 1, ok)];
    }
  }

  lemma ExecNext(s: State, t: nat, outcome: bool)
    requires Enabled(s, Label.Exec(t, outcome))
    ensures Live(s, t) && s.threads[t].Running? && s.threads[t].done < |s.threads[t].batch|
    ensures Next(s, Label.Exec(t, outcome)) == Executed(s, t, outcome)
  {
  }

  lemma ProceedReturns(s: State)
    requires |s.threads| > 0 && s.queue == [] && s.nTodo == 0 && s.nTotal >= 0 && s.nIdle >= 0
    ensures Proceed(s, 0) ==
            State([], s.nIdle, s.nTotal - 1, true, 0, s.nBatchSize, s.threads[0 := Away], multiset{}, multiset{},
                  multiset{}, multiset{}, s.rounds + [Round(s.added, s.passed, s.fAllOk)])
  {
  }

  lemma TakenNone(queue: seq<Check>)
    ensures Taken(queue, 0) == []
  {
  }

  lemma TakenFirst(queue: seq<Check>, n: nat)
    requires 0 < n <= |queue|
    ensures Taken(queue, n) == [queue[|queue| - 1]] + Taken(queue[..|queue| - 1], n - 1)
  {
  }

  lemma {:induction false} TakenOneMore(queue: seq<Check>, n: nat)
    requires n < |queue|
    ensures Taken(queue, n + 1) == Taken(queue, n) + [queue[|queue| - 1 - n]]
  {
    hide Taken;
    TakenFirst(queue, n + 1);
    if n > 0 {
      TakenFirst(queue, n);
      TakenOneMore(queue[..|queue| - 1], n - 1);
    } else {
      TakenNone(queue);
      TakenNone(queue[..|queue| - 1]);
    }
  }
}
