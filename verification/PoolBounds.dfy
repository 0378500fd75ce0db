// How many jobs the thread pool runs at once: the bound on `active` in every interleaving, and runs that reach it.

module PoolBounds {
  import opened Wrappers
  import opened ThreadPool

  // ---- The bound ----

  /** What calls run: a worker thread, or a wait that still helps. */
  predicate Carries(f: Frame) { f.Worker? || f.Flushing? }

  /** Every job between its pop and the final decrement sits on the call of run that took it. */
  predicate Carried(st: seq<Frame>) {
    forall k :: 0 <= k < |st| && InRunFrame(st[k]) ==> k > 0 && Carries(st[k - 1])
  }

  lemma {:induction false} StackBound(st: seq<Frame>)
    requires Carried(st)
    ensures OnStack(InRun, st) <= OnStack(Workers, st) + OnStack(Waits, st)
    decreases |st|
  {
    if |st| > 0 {
      var rest := st[..|st| - 1];
      if InRunFrame(st[|st| - 1]) {
        StackBound(rest[..|rest| - 1]);
      } else {
        StackBound(rest);
      }
    }
  }

  lemma {:induction false} ThreadsBound(ths: seq<Thread>)
    requires forall t :: 0 <= t < |ths| ==> Carried(ths[t].stack)
    ensures OnThreads(InRun, ths) <= OnThreads(Workers, ths) + OnThreads(Waits, ths)
    decreases |ths|
  {
    if |ths| > 0 {
      ThreadsBound(ths[..|ths| - 1]);
      StackBound(ths[|ths| - 1].stack);
    }
  }

  predicate AllCarried(s: Pool) { forall t :: 0 <= t < |s.threads| ==> Carried(s.threads[t].stack) }

  /** A job enters a stack on top of the call that popped it, or in the place it already had. */
  lemma EnteringCarried(s: Pool, a: Action)
    requires Enabled(s, a) && !a.Stop? && Carried(s.threads[a.t].stack)
    requires Entering(s, a).Some? && InRunFrame(Entering(s, a).value)
    ensures var st := s.threads[a.t].stack;
      var below := |st| - (if Leaving(s, a).Some? then 1 else 0);
      below > 0 && Carries(st[below - 1])
  {
  }

  lemma KeepsCarried(s: Pool, a: Action)
    requires AllCarried(s) && Enabled(s, a)
    ensures AllCarried(Apply(s, a))
  {
    if !a.Stop? {
      StackAfter(s, a);
      if Entering(s, a).Some? && InRunFrame(Entering(s, a).value) {
        EnteringCarried(s, a);
      }
      hide Apply, Entering, Leaving, Enabled;
    }
  }

  /** No action starts a worker or changes max. */
  lemma KeepsWorkers(s: Pool, a: Action)
    requires Enabled(s, a)
    ensures OnThreads(Workers, Apply(s, a).threads) <= OnThreads(Workers, s.threads) && Apply(s, a).max == s.max
  {
    hide OnThreads;
    ThreadsDelta(Workers, s, a);
  }

  lemma {:induction false} InitialWorkers(ths: seq<Thread>, clients: nat)
    requires clients <= |ths|
    requires forall t :: 0 <= t < |ths| ==> ths[t].stack == if t < clients then [] else [Worker]
    ensures OnThreads(Workers, ths) == |ths| - clients
    decreases |ths|
  {
    if |ths| > clients {
      InitialWorkers(ths[..|ths| - 1], clients);
      StackPush(Workers, [], Worker);
      assert [] + [Worker] == [Worker];
    } else {
      NothingCounted(Workers, ths);
    }
  }

  lemma {:induction false} NothingCounted(m: Measure, ths: seq<Thread>)
    requires forall t :: 0 <= t < |ths| ==> ths[t].stack == []
    ensures OnThreads(m, ths) == 0
    decreases |ths|
  {
    if |ths| > 0 {
      NothingCounted(m, ths[..|ths| - 1]);
    }
  }

  /** The workers a pool is created with. */
  function Created(max: nat): nat { if max > 0 then max - 1 else 0 }

  lemma {:induction false} RunKeepsCarried(states: seq<Pool>, actions: seq<Action>, clients: nat, i: nat)
    requires Run(states, actions, clients) && i < |states|
    ensures AllCarried(states[i]) && states[i].max == states[0].max
    ensures OnThreads(Workers, states[i].threads) <= Created(states[0].max)
    decreases i
  {
    hide AllCarried, Apply, Enabled, OnThreads;
    if i == 0 {
      InitialWorkers(states[0].threads, clients);
      InitiallyCarried(states[0], clients);
    } else {
      RunKeepsCarried(states, actions, clients, i - 1);
      KeepsCarried(states[i - 1], actions[i - 1]);
      KeepsWorkers(states[i - 1], actions[i - 1]);
    }
  }

  lemma InitiallyCarried(s: Pool, clients: nat)
    requires Init(s, clients)
    ensures AllCarried(s)
  {
  }

  lemma KeepsRunningWorkers(s: Pool, a: Action)
    requires Enabled(s, a) && Apply(s, a).running
    ensures s.running && OnThreads(Workers, Apply(s, a).threads) == OnThreads(Workers, s.threads)
  {
    hide OnThreads;
    ThreadsDelta(Workers, s, a);
  }

  /** While the pool runs, every worker it was created with is there. */
  lemma {:induction false} WorkersStay(states: seq<Pool>, actions: seq<Action>, clients: nat, i: nat)
    requires Run(states, actions, clients) && i < |states| && states[i].running
    ensures OnThreads(Workers, states[i].threads) == Created(states[i].max)
    decreases i
  {
    hide Apply, Enabled, OnThreads;
    if i == 0 {
      InitialWorkers(states[0].threads, clients);
    } else {
      KeepsRunningWorkers(states[i - 1], actions[i - 1]);
      KeepsWorkers(states[i - 1], actions[i - 1]);
      WorkersStay(states, actions, clients, i - 1);
    }
  }

  /** In every state of every interleaving, the jobs being run are no more than the workers and the waits that help. */
  lemma ActiveBound(states: seq<Pool>, actions: seq<Action>, clients: nat, i: nat)
    requires Run(states, actions, clients) && i < |states|
    ensures states[i].active <= Created(states[i].max) + OnThreads(Waits, states[i].threads)
  {
    hide OnThreads, Init, Apply, Enabled, CountersExact, JobsInOnePlace, StartedOnce, AllStarted, DepthsExact;
    RunKeepsInv(states, actions, clients, i);
    RunKeepsCarried(states, actions, clients, i);
    ThreadsBound(states[i].threads);
  }

  /** So active stays within max while at most one wait is in progress. */
  lemma ActiveWithinMax(states: seq<Pool>, actions: seq<Action>, clients: nat, i: nat)
    requires Run(states, actions, clients) && i < |states|
    requires states[i].max > 0 && OnThreads(Waits, states[i].threads) <= 1
    ensures states[i].active <= states[i].max
  {
    hide Run;
    ActiveBound(states, actions, clients, i);
  }

  // ---- Runs that reach it ----

  /** The states a run of actions passes through. */
  ghost predicate Path(s: Pool, actions: seq<Action>, s': Pool)
    decreases |actions|
  {
    if |actions| == 0 then s == s' else Enabled(s, actions[0]) && Path(Apply(s, actions[0]), actions[1..], s')
  }

  lemma {:induction false} PathJoins(s: Pool, a: seq<Action>, s': Pool, b: seq<Action>, s'': Pool)
    requires Path(s, a, s') && Path(s', b, s'')
    ensures Path(s, a + b, s'')
    decreases |a|
  {
    if |a| == 0 {
      assert a + b == b;
    } else {
      PathJoins(Apply(s, a[0]), a[1..], s', b, s'');
      assert (a + b)[1..] == a[1..] + b;
    }
  }

  lemma PathStep(s: Pool, a: seq<Action>, s': Pool, b: Action)
    requires Path(s, a, s') && Enabled(s', b)
    ensures Path(s, a + [b], Apply(s', b))
  {
    assert [b][1..] == [];
    PathJoins(s, a, s', [b], Apply(s', b));
  }

  /** A path from a new pool is an interleaving. */
  lemma {:induction false} PathStates(s: Pool, actions: seq<Action>, s': Pool) returns (states: seq<Pool>)
    requires Path(s, actions, s')
    ensures |states| == |actions| + 1 && states[0] == s && states[|actions|] == s'
    ensures forall i :: 0 <= i < |actions| ==>
      Enabled(states[i], actions[i]) && states[i + 1] == Apply(states[i], actions[i])
    decreases |actions|
  {
    if |actions| == 0 {
      states := [s];
    } else {
      var rest := PathStates(Apply(s, actions[0]), actions[1..], s');
      states := [s] + rest;
      forall i | 0 <= i < |actions|
        ensures Enabled(states[i], actions[i]) && states[i + 1] == Apply(states[i], actions[i])
      {
        if i > 0 {
          assert Enabled(rest[i - 1], actions[1..][i - 1]);
        }
      }
    }
  }

  const CLIENT: Thread := Thread([], 0, false)
  const WORKER: Thread := Thread([Worker], 0, false)

  predicate RunsJob(th: Thread) { Top(th).Some? && Top(th).value.Executing? }

  /** k workers and w clients are each inside one job, everything else is idle. */
  predicate Stage(s: Pool, max: nat, clients: nat, k: nat, w: nat) {
    && max > 0 && k < max && w <= clients
    && s.max == max && s.running && s.queue == [] && s.active == k + w
    && |s.threads| == clients + max - 1 && OnThreads(Waits, s.threads) == w
    && (forall t :: 0 <= t < clients ==> if t < w then RunsJob(s.threads[t]) else s.threads[t] == CLIENT)
    && (forall t :: clients <= t < |s.threads| ==>
      if t - clients < k then RunsJob(s.threads[t]) else s.threads[t] == WORKER)
  }

  /** An idle client queues a leaf job. */
  lemma Queues(s: Pool, c: nat) returns (s': Pool)
    requires MutexFree(s) && c < |s.threads| && s.threads[c] == CLIENT && s.queue == []
    ensures Path(s, [SubmitCount(c, Some(0), true), SubmitPush(c)], s')
    ensures s'.threads == s.threads && |s'.queue| == 1
    ensures s'.active == s.active && s'.max == s.max && s'.running == s.running
  {
    var s1 := Apply(s, SubmitCount(c, Some(0), true));
    s' := Apply(s1, SubmitPush(c));
    assert s'.threads == s.threads;
    var b := [SubmitPush(c)];
    assert b[1..] == [] && [SubmitCount(c, Some(0), true), SubmitPush(c)][1..] == b;
    assert Path(s1, b, s');
  }

  /** A thread inside run takes the only job. */
  lemma Takes(s: Pool, t: nat) returns (s': Pool)
    requires MutexFree(s) && s.running && |s.queue| == 1 && t < |s.threads|
    requires Top(s.threads[t]).Some? && Carries(Top(s.threads[t]).value)
    ensures Enabled(s, Pop(t)) && s' == Apply(s, Pop(t))
    ensures s'.queue == [] && s'.active == s.active + 1 && s'.max == s.max && s'.running
    ensures |s'.threads| == |s.threads| && RunsJob(s'.threads[t])
    ensures forall u :: 0 <= u < |s.threads| && u != t ==> s'.threads[u] == s.threads[u]
    ensures OnThreads(Waits, s'.threads) == OnThreads(Waits, s.threads)
  {
    hide OnThreads;
    s' := Apply(s, Pop(t));
    ThreadsDelta(Waits, s, Pop(t));
  }

  lemma StageIsFree(s: Pool, max: nat, clients: nat, k: nat, w: nat)
    requires Stage(s, max, clients, k, w)
    ensures MutexFree(s)
  {
  }

  /** One more worker gets busy. */
  lemma WorkerHelps(s: Pool, max: nat, clients: nat, k: nat) returns (actions: seq<Action>, s': Pool)
    requires Stage(s, max, clients, k, 0) && clients > 0 && k + 1 < max
    ensures Path(s, actions, s') && Stage(s', max, clients, k + 1, 0)
  {
    hide Path, OnThreads, Apply, Enabled;
    StageIsFree(s, max, clients, k, 0);
    var queued := Queues(s, 0);
    s' := Takes(queued, clients + k);
    actions := [SubmitCount(0, Some(0), true), SubmitPush(0)] + [Pop(clients + k)];
    PathStep(s, [SubmitCount(0, Some(0), true), SubmitPush(0)], queued, Pop(clients + k));
  }

  /** One more client waits, and runs a job while it does. */
  lemma ClientHelps(s: Pool, max: nat, clients: nat, w: nat) returns (actions: seq<Action>, s': Pool)
    requires max > 0 && Stage(s, max, clients, max - 1, w) && w < clients
    ensures Path(s, actions, s') && Stage(s', max, clients, max - 1, w + 1)
  {
    hide Path, OnThreads;
    StageIsFree(s, max, clients, max - 1, w);
    var queued := Queues(s, w);
    var waiting := Apply(queued, WaitStart(w, 0));
    ThreadsDelta(Waits, queued, WaitStart(w, 0));
    s' := Takes(waiting, w);
    var a := [SubmitCount(w, Some(0), true), SubmitPush(w)];
    PathStep(s, a, queued, WaitStart(w, 0));
    actions := a + [WaitStart(w, 0)] + [Pop(w)];
    PathStep(s, a + [WaitStart(w, 0)], waiting, Pop(w));
  }

  lemma {:induction false} BusyWorkers(s: Pool, max: nat, clients: nat, k: nat) returns (actions: seq<Action>, s': Pool)
    requires Stage(s, max, clients, 0, 0) && clients > 0 && k < max
    ensures Path(s, actions, s') && Stage(s', max, clients, k, 0)
    decreases k
  {
    hide Stage;
    if k == 0 {
      actions, s' := [], s;
    } else {
      var before, mid := BusyWorkers(s, max, clients, k - 1);
      var more;
      more, s' := WorkerHelps(mid, max, clients, k - 1);
      actions := before + more;
      PathJoins(s, before, mid, more, s');
    }
  }

  lemma {:induction false} BusyClients(s: Pool, max: nat, clients: nat, w: nat) returns (actions: seq<Action>, s': Pool)
    requires Stage(s, max, clients, 0, 0) && clients > 0 && w <= clients
    ensures Path(s, actions, s') && Stage(s', max, clients, max - 1, w)
    decreases w
  {
    hide Stage;
    assert max > 0 by {
      PositiveMax(s, max, clients);
    }
    if w == 0 {
      actions, s' := BusyWorkers(s, max, clients, max - 1);
    } else {
      var before, mid := BusyClients(s, max, clients, w - 1);
      var more;
      more, s' := ClientHelps(mid, max, clients, w - 1);
      actions := before + more;
      PathJoins(s, before, mid, more, s');
    }
  }

  lemma PositiveMax(s: Pool, max: nat, clients: nat)
    requires Stage(s, max, clients, 0, 0)
    ensures max > 0
  {
  }

  /** For every max and number of waits, a run reaches the bound. */
  lemma BoundIsReached(max: nat, waits: nat) returns (states: seq<Pool>, actions: seq<Action>)
    requires max > 0 && waits > 0
    ensures Run(states, actions, waits)
    ensures var s := states[|actions|];
      s.max == max && OnThreads(Waits, s.threads) == waits && s.active == max - 1 + waits
  {
    hide Path, OnThreads;
    var threads := seq(waits + max - 1, t requires 0 <= t < waits + max - 1 => if t < waits then CLIENT else WORKER);
    var s := Pool([], 0, max, true, map[], threads, [], {}, []);
    NothingYet(Waits, threads);
    assert Stage(s, max, waits, 0, 0);
    var s';
    actions, s' := BusyClients(s, max, waits, waits);
    states := PathStates(s, actions, s');
  }

  /** active exceeds every max once two waits are in progress. */
  lemma ActiveCanExceedMax(max: nat) returns (states: seq<Pool>, actions: seq<Action>)
    requires max > 0
    ensures Run(states, actions, 2) && states[|actions|].max == max && states[|actions|].active == max + 1
  {
    hide Run;
    states, actions := BoundIsReached(max, 2);
  }
}
