// The thread pool does not get stuck: while jobs do not wait inside jobs, what a waiter waits for can always go on.

module PoolProgress {
  import opened Wrappers
  import opened PoolBounds
  import opened PoolSchedule
  import opened ThreadPool

  /** Workers are the bottom of their stacks, and waits, like inline jobs, are calls of client code or of a job's. */
  predicate CalledFromCode(st: seq<Frame>) {
    forall k :: 0 < k < |st| ==> !st[k].Worker? && (st[k].Flushing? || st[k].Blocked? ==> JobFrame(st[k - 1]))
  }

  predicate AllCalled(s: Pool) { forall t :: 0 <= t < |s.threads| ==> CalledFromCode(s.threads[t].stack) }

  /** A wait enters on code that runs, or in the place it already had. */
  lemma EnteringCalled(s: Pool, a: Action)
    requires Enabled(s, a) && !a.Stop? && Entering(s, a).Some? && CalledFromCode(s.threads[a.t].stack)
    ensures var st, f := s.threads[a.t].stack, Entering(s, a).value;
      var below := |st| - (if Leaving(s, a).Some? then 1 else 0);
      !f.Worker? && ((f.Flushing? || f.Blocked?) && below > 0 ==> JobFrame(st[below - 1]))
  {
  }

  lemma ActingCalled(s: Pool, a: Action)
    requires Enabled(s, a) && !a.Stop? && CalledFromCode(s.threads[a.t].stack)
    ensures |Apply(s, a).threads| == |s.threads| && CalledFromCode(Apply(s, a).threads[a.t].stack)
  {
    hide Apply, Entering, Leaving, Enabled;
    ActsOn(s, a);
    StackAfter(s, a);
    if Entering(s, a).Some? {
      EnteringCalled(s, a);
    }
  }

  lemma KeepsCalled(s: Pool, a: Action)
    requires AllCalled(s) && Enabled(s, a)
    ensures AllCalled(Apply(s, a))
  {
    hide Apply, Entering, Leaving, Enabled, CalledFromCode;
    ActsOn(s, a);
    if !a.Stop? {
      StackAfter(s, a);
      ActingCalled(s, a);
    }
  }

  lemma {:induction false} RunKeepsCalled(states: seq<Pool>, actions: seq<Action>, clients: nat, i: nat)
    requires Run(states, actions, clients) && i < |states|
    ensures AllCalled(states[i])
    decreases i
  {
    hide AllCalled, Apply, Enabled;
    if i > 0 {
      RunKeepsCalled(states, actions, clients, i - 1);
      KeepsCalled(states[i - 1], actions[i - 1]);
    } else {
      InitiallyCalled(states[0], clients);
    }
  }

  lemma InitiallyCalled(s: Pool, clients: nat)
    requires Init(s, clients)
    ensures AllCalled(s)
  {
  }

  /** No thread is blocked in a wait that a job called. */
  predicate NoJobBlocked(s: Pool) {
    forall t :: 0 <= t < |s.threads| && Top(s.threads[t]).Some? && Top(s.threads[t]).value.Blocked? ==>
      !InsideJob(s.threads[t])
  }

  /** The steps a call of run, a job or a submission goes on with by itself. */
  predicate GoesOn(a: Action) {
    a.SubmitPush? || a.InlineDone? || a.FlushDone? || a.Pop? || a.JobDone? || a.Dec? || a.Retire?
  }

  /** A thread that is doing something goes on. */
  predicate Busy(th: Thread) {
    Top(th).Some? && !Top(th).value.Worker? && !Top(th).value.Blocked?
  }

  lemma BusyGoesOn(s: Pool, t: nat) returns (a: Action)
    requires Inv(s) && s.running && t < |s.threads| && Busy(s.threads[t])
    requires MutexFree(s) || IsSubmitting(Top(s.threads[t]))
    ensures Enabled(s, a) && GoesOn(a)
  {
    hide Inv;
    NeverBelowZero(s, t);
    match Top(s.threads[t]).value
    case Submitting(_) => a := SubmitPush(t);
    case Executing(_) => a := JobDone(t);
    case Finished(_) => a := Dec(t);
    case Retiring(_) => a := Retire(t);
    case Inline => a := InlineDone(t);
    case Flushing(_) => a := if |s.queue| == 0 then FlushDone(t) else Pop(t);
  }

  /** A wait outside all jobs is all there is on its stack. */
  lemma BlockedAlone(th: Thread)
    requires CalledFromCode(th.stack) && Top(th).Some? && Top(th).value.Blocked? && !InsideJob(th)
    ensures |th.stack| == 1
  {
    if |th.stack| > 1 {
      WaitBelow(th.stack);
      assert false;
    }
  }

  lemma WaitBelow(st: seq<Frame>)
    requires CalledFromCode(st) && |st| > 1 && st[|st| - 1].Blocked?
    ensures JobFrame(st[|st| - 2])
  {
  }

  /** With nothing going on, no job is on any stack, and every worker is at the top of its own. */
  lemma NothingOnStacks(s: Pool, t: nat, k: nat)
    requires Stacked(s) && AllCalled(s) && NoJobBlocked(s) && t < |s.threads| && k < |s.threads[t].stack|
    requires !Busy(s.threads[t])
    ensures var st := s.threads[t].stack;
      !JobFrame(st[k]) && !st[k].Submitting? && !st[k].Finished? && (st[k].Worker? ==> Top(s.threads[t]) == Some(st[k]))
  {
    var st := s.threads[t].stack;
    var top := st[|st| - 1];
    assert WellStacked(st) && CalledFromCode(st);
    if top.Worker? {
      assert |st| == 1;
    } else {
      BlockedAlone(s.threads[t]);
    }
  }

  /**
    While a pool with workers runs and no job is blocked in a wait of its own, whatever a waiter is still waiting for
    goes on: some thread has a step of its own to take.
    */
  lemma WaitsProgress(states: seq<Pool>, actions: seq<Action>, clients: nat, i: nat, w: nat) returns (a: Action)
    requires Run(states, actions, clients) && i < |states| && states[i].running && Num(states[i], w) > 0
    requires states[i].max > 1 && NoJobBlocked(states[i])
    ensures Enabled(states[i], a) && GoesOn(a)
  {
    hide Run, Inv, Stacked, AllCalled, NoJobBlocked, Enabled, OnThreads, Num;
    RunKeepsStacked(states, actions, clients, i);
    RunKeepsCalled(states, actions, clients, i);
    WorkersStay(states, actions, clients, i);
    a := SomethingGoesOn(states[i], w);
  }

  lemma SomethingGoesOn(s: Pool, w: nat) returns (a: Action)
    requires Inv(s) && Stacked(s) && AllCalled(s) && NoJobBlocked(s) && s.running && Num(s, w) > 0
    requires OnThreads(Workers, s.threads) > 0
    ensures Enabled(s, a) && GoesOn(a)
  {
    hide Inv, Stacked, AllCalled, NoJobBlocked, OnThreads, Num, InQueue;
    if t :| 0 <= t < |s.threads| && IsSubmitting(Top(s.threads[t])) {
      a := BusyGoesOn(s, t);
    } else if t :| 0 <= t < |s.threads| && Busy(s.threads[t]) {
      a := BusyGoesOn(s, t);
    } else {
      if OnThreads(Counted(w), s.threads) > 0 {
        var t, k := ThreadFound(Counted(w), s.threads);
        NothingOnStacks(s, t, k);
      }
      CountOf(s, w);
      QueueNotEmpty(s, w);
      var t, k := ThreadFound(Workers, s.threads);
      NothingOnStacks(s, t, k);
      a := Pop(t);
    }
  }

  lemma CountOf(s: Pool, w: nat)
    requires Inv(s)
    ensures Num(s, w) == InQueue(Counted(w), s.queue) + OnThreads(Counted(w), s.threads)
  {
  }

  lemma QueueNotEmpty(s: Pool, w: nat)
    requires InQueue(Counted(w), s.queue) > 0
    ensures |s.queue| > 0
  {
  }

  // ---- Without workers ----

  /** The only thread blocks on an empty queue, and nothing is queued behind its back. */
  predicate FlushedFirst(s: Pool) {
    |s.threads| == 1 && s.running && Top(s.threads[0]).Some? && Top(s.threads[0]).value.Blocked? ==> s.queue == []
  }

  lemma KeepsFlushed(s: Pool, a: Action)
    requires FlushedFirst(s) && Stacked(s) && Enabled(s, a)
    ensures FlushedFirst(Apply(s, a))
  {
    if !a.Stop? && s.running {
      var th := Apply(s, a).threads[a.t];
      if Top(th).Some? && Top(th).value.Blocked? {
        BlocksOnEmpty(s, a);
      }
    }
  }

  lemma BlocksOnEmpty(s: Pool, a: Action)
    requires Stacked(s) && Enabled(s, a) && !a.Stop? && s.running && |Apply(s, a).threads| == |s.threads|
    requires Top(Apply(s, a).threads[a.t]).Some? && Top(Apply(s, a).threads[a.t]).value.Blocked?
    ensures a.FlushDone? && s.queue == []
  {
    StackAfter(s, a);
    var st := s.threads[a.t].stack;
    if Entering(s, a).None? {
      StackRemains(s, a);
      assert WellStacked(st);
    }
  }

  lemma {:induction false} RunKeepsFlushed(states: seq<Pool>, actions: seq<Action>, clients: nat, i: nat)
    requires Run(states, actions, clients) && i < |states|
    ensures FlushedFirst(states[i])
    decreases i
  {
    hide Apply, Enabled, Stacked, Inv, FlushedFirst;
    if i > 0 {
      RunKeepsFlushed(states, actions, clients, i - 1);
      RunKeepsStacked(states, actions, clients, i - 1);
      KeepsFlushed(states[i - 1], actions[i - 1]);
    } else {
      InitiallyFlushed(states[0], clients);
    }
  }

  lemma InitiallyFlushed(s: Pool, clients: nat)
    requires Init(s, clients)
    ensures FlushedFirst(s)
  {
  }

  /** In a running pool without workers, the only client is never blocked in a wait that cannot return. */
  lemma LoneWaitReturns(states: seq<Pool>, actions: seq<Action>, clients: nat, i: nat)
    requires Run(states, actions, clients) && i < |states| && states[i].running && |states[i].threads| == 1
    requires var th := states[i].threads[0]; Top(th).Some? && Top(th).value.Blocked? && !InsideJob(th)
    ensures Enabled(states[i], WaitDone(0))
  {
    hide Run, Inv, Stacked, AllCalled, OnThreads, Num, InQueue;
    RunKeepsStacked(states, actions, clients, i);
    RunKeepsCalled(states, actions, clients, i);
    RunKeepsFlushed(states, actions, clients, i);
    NothingOutstanding(states[i], Top(states[i].threads[0]).value.waiter);
  }

  lemma NothingOutstanding(s: Pool, w: nat)
    requires Inv(s) && Stacked(s) && AllCalled(s) && |s.threads| == 1 && s.queue == []
    requires Top(s.threads[0]).Some? && Top(s.threads[0]).value.Blocked? && !InsideJob(s.threads[0])
    ensures Num(s, w) == 0
  {
    hide Inv, Stacked, AllCalled, OnThreads, Num;
    CountOf(s, w);
    EmptyQueue(Counted(w));
    if OnThreads(Counted(w), s.threads) > 0 {
      var t, k := ThreadFound(Counted(w), s.threads);
      NothingOnStacks(s, t, k);
    }
  }
}
