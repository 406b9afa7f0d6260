/** Wait always returns: while the master is in Wait some thread can move, and such moves cannot go on forever. */
module CheckQueueProgress {
  import opened CheckQueueModel
  import opened CheckQueueSafety

  function Work(thread: Thread): nat {
    match thread
    case Running(batch, done, _) => if done <= |batch| then 2 * (|batch| - done) + 2 else 0
    case Waiting(woken) => if woken then 1 else 0
    case _ => 0
  }

  /** The moves left: four for a queued check, two for a check in a batch, two for a batch, one for a posted wake-up. */
  ghost function Moves(s: State): nat { 4 * |s.queue| + Sum(s.threads, Work) }

  /** A step of the machinery itself: not a new check, a new thread or a spurious wake-up. */
  ghost predicate Internal(s: State, l: Label) {
    match l
    case Wake(t) => Live(s, t) && s.threads[t] == Waiting(true)
    case Finish(_) => true
    case Exec(_, _) => true
    case _ => false
  }

  lemma ProceedMoves(s: State, t: nat)
    requires Inv(s) && Live(s, t) && s.threads[t].Inside?
    ensures Moves(Proceed(s, t)) <= Moves(s)
    ensures s.queue == [] ==> Moves(Proceed(s, t)) == Moves(s)
  {
    hide Sum, Taken, Ledger, Honest, Awake;
    SumUpdate(s.threads, t, Proceed(s, t).threads[t], Work);
  }

  /** Every internal step uses up a move. */
  lemma InternalMoves(s: State, l: Label)
    requires Inv(s) && Enabled(s, l) && Internal(s, l)
    ensures Moves(Next(s, l)) < Moves(s)
  {
    hide Moves, Inv, Proceed, Woken, Cleaned, Executed;
    match l
    case Wake(t) =>
      WakeMoves(s, t);
      ProceedMoves(Woken(s, t), t);
    case Finish(t) =>
      CleanKeeps(s, t);
      CleanMoves(s, t);
      InsideAfter(s, t);
      ProceedMoves(Cleaned(s, t), t);
    case Exec(t, result) =>
      ExecMoves(s, t, result);
  }

  lemma WakeMoves(s: State, t: nat)
    requires Inv(s) && Live(s, t) && s.threads[t] == Waiting(true)
    ensures Inv(Woken(s, t)) && Live(Woken(s, t), t) && Woken(s, t).threads[t].Inside? && Moves(Woken(s, t)) < Moves(s)
  {
    hide Sum, Inv;
    WakeKeeps(s, t);
    SumUpdate(s.threads, t, Inside, Work);
  }

  lemma InsideAfter(s: State, t: nat)
    requires Live(s, t) && s.threads[t].Running?
    ensures Live(Cleaned(s, t), t) && Cleaned(s, t).threads[t].Inside?
  {
  }

  lemma ExecMoves(s: State, t: nat, result: bool)
    requires Live(s, t) && s.threads[t].Running? && s.threads[t].done < |s.threads[t].batch|
    ensures Moves(Executed(s, t, result)) < Moves(s)
  {
    hide Sum, Executed;
    ExecShape(s, t, result);
    SumUpdate(s.threads, t, Executed(s, t, result).threads[t], Work);
  }

  lemma CleanMoves(s: State, t: nat)
    requires Live(s, t) && s.threads[t].Running? && s.threads[t].done == |s.threads[t].batch|
    ensures Moves(Cleaned(s, t)) < Moves(s)
  {
    hide Sum;
    SumUpdate(s.threads, t, Inside, Work);
    SumUpdate(s.threads[t := Inside], 0, Waiting(true), Work);
  }

  /** A master in Wait always leaves an internal step to take. */
  lemma SomeoneMoves(s: State)
    requires Inv(s) && Quiet(s) && !s.threads[0].Away?
    ensures exists l :: Enabled(s, l) && Internal(s, l)
  {
    hide Sum, Ledger, Honest, Awake;
    if s.threads[0] == Waiting(true) {
      WakeKeeps(s, 0);
      assert Enabled(s, Wake(0)) && Internal(s, Wake(0));
    } else {
      var t: nat := 0;
      if s.threads[0].Waiting? {
        SumPositive(s.threads, Held);
        t :| 0 <= t < |s.threads| && Held(s.threads[t]) > 0;
      }
      var l := if s.threads[t].done < |s.threads[t].batch| then Exec(t, true) else Finish(t);
      assert Enabled(s, l) && Internal(s, l);
    }
  }

  /** A blocked master waits for a batch some worker holds, or has its wake-up posted. */
  lemma BlockedMaster(s: State)
    requires Inv(s) && s.threads[0].Waiting?
    ensures (exists t :: 0 < t < |s.threads| && s.threads[t].Running?) || (s.nTodo == 0 && s.threads[0].woken)
  {
    hide Sum, Ledger, Honest, Awake;
    if s.nTodo != 0 {
      SumPositive(s.threads, Held);
    }
  }

  ghost predicate InternalRun(s: State, labels: seq<Label>, s': State)
    decreases labels
  {
    if labels == [] then s' == s else
    Enabled(s, labels[0]) && Internal(s, labels[0]) && InternalRun(Next(s, labels[0]), labels[1..], s')
  }

  lemma {:induction false} InternalRunBounded(s: State, labels: seq<Label>, s': State)
    requires Inv(s) && Quiet(s) && InternalRun(s, labels, s')
    ensures Inv(s') && Quiet(s') && |labels| + Moves(s') <= Moves(s)
    decreases labels
  {
    hide Inv, Quiet, Enabled, Internal, Next, Moves;
    if labels != [] {
      StepKeeps(s, labels[0]);
      StepQuiet(s, labels[0]);
      InternalMoves(s, labels[0]);
      InternalRunBounded(Next(s, labels[0]), labels[1..], s');
    }
  }

  /**
   However the threads are scheduled, internal steps stop after at most Moves(s) of them, with the master out of Wait.
   */
  lemma WaitReturns(s: State, labels: seq<Label>, s': State)
    requires Inv(s) && Quiet(s) && InternalRun(s, labels, s')
    ensures |labels| <= Moves(s) && Inv(s')
    ensures (forall l :: !(Enabled(s', l) && Internal(s', l))) ==> s'.threads[0].Away?
  {
    hide Quiet, Enabled, Internal, Next, Moves, InternalRun, Ledger, Honest, Awake;
    InternalRunBounded(s, labels, s');
    if !s'.threads[0].Away? {
      SomeoneMoves(s');
    }
  }
}
