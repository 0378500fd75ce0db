// Where and in what order the thread pool runs jobs: inline or queued, which queued job starts next, who may submit.

module PoolSchedule {
  import opened Wrappers
  import opened PoolBounds
  import opened ThreadPool

  // ---- Stacks ----

  /** A job's own code: it runs right there, or sits below the calls it made. */
  predicate JobFrame(f: Frame) { f.Executing? || f.Inline? }

  predicate InsideJob(th: Thread) { exists k :: 0 <= k < |th.stack| && JobFrame(th.stack[k]) }

  lemma {:induction false} RunningMeansInside(st: seq<Frame>)
    ensures OnStack(Running, st) > 0 <==> exists k :: 0 <= k < |st| && JobFrame(st[k])
    decreases |st|
  {
    if |st| > 0 {
      RunningMeansInside(st[..|st| - 1]);
      assert forall k :: 0 <= k < |st| - 1 ==> st[..|st| - 1][k] == st[k];
    }
  }

  lemma DepthMeansInside(s: Pool, t: nat)
    requires DepthsExact(s) && t < |s.threads|
    ensures s.threads[t].depth > 0 <==> InsideJob(s.threads[t])
  {
    RunningMeansInside(s.threads[t].stack);
  }

  predicate HoldsCalls(f: Frame) { JobFrame(f) || Carries(f) }

  /** Only code that runs, a worker's loop or a wait's has calls above it. */
  predicate WellStacked(st: seq<Frame>) { forall k :: 0 <= k < |st| - 1 ==> HoldsCalls(st[k]) }

  /** A job on its way into the queue that is no leaf was submitted outside all jobs. */
  predicate SubmitsOutside(th: Thread) {
    IsSubmitting(Top(th)) && !Top(th).value.job.leaf ==> !InsideJob(th)
  }

  predicate Stacked(s: Pool) {
    forall t :: 0 <= t < |s.threads| ==> WellStacked(s.threads[t].stack) && SubmitsOutside(s.threads[t])
  }

  lemma ActsOn(s: Pool, a: Action)
    requires Enabled(s, a)
    ensures if a.Stop? then Apply(s, a).threads == s.threads else a.t < |s.threads|
  {
  }

  lemma PushedOver(s: Pool, a: Action)
    requires Enabled(s, a) && !a.Stop? && Entering(s, a).Some? && Leaving(s, a).None?
    ensures var st := s.threads[a.t].stack; |st| > 0 ==> HoldsCalls(st[|st| - 1])
  {
  }

  /** Only SubmitCount pushes a submission, and for a job that is no leaf only at depth 0. */
  lemma SubmissionEnters(s: Pool, a: Action)
    requires Enabled(s, a) && Entering(s, a).Some? && Entering(s, a).value.Submitting?
    ensures a.SubmitCount? && (!Entering(s, a).value.job.leaf ==> s.threads[a.t].depth == 0)
  {
  }

  lemma ActingStacked(s: Pool, a: Action)
    requires Stacked(s) && DepthsExact(s) && Enabled(s, a) && !a.Stop?
    ensures |Apply(s, a).threads| == |s.threads|
    ensures WellStacked(Apply(s, a).threads[a.t].stack) && SubmitsOutside(Apply(s, a).threads[a.t])
  {
    hide Apply, Enabled, Entering, Leaving, OnStack;
    ActsOn(s, a);
    StackAfter(s, a);
    DepthMeansInside(s, a.t);
    var st, st' := s.threads[a.t].stack, Apply(s, a).threads[a.t].stack;
    if Entering(s, a).Some? {
      if Leaving(s, a).None? {
        PushedOver(s, a);
      }
      if Entering(s, a).value.Submitting? {
        SubmissionEnters(s, a);
      }
      assert forall k :: 0 <= k < |st'| - 1 ==> st'[k] == st[k];
    }
  }

  lemma KeepsStacked(s: Pool, a: Action)
    requires Stacked(s) && DepthsExact(s) && Enabled(s, a)
    ensures Stacked(Apply(s, a))
  {
    if !a.Stop? {
      StackAfter(s, a);
      ActingStacked(s, a);
      hide Apply, Enabled, Entering, Leaving, WellStacked, SubmitsOutside;
    }
  }

  lemma {:induction false} RunKeepsStacked(states: seq<Pool>, actions: seq<Action>, clients: nat, i: nat)
    requires Run(states, actions, clients) && i < |states|
    ensures Stacked(states[i]) && Inv(states[i])
    decreases i
  {
    hide Inv, Apply, Enabled;
    RunKeepsInv(states, actions, clients, i);
    if i > 0 {
      RunKeepsStacked(states, actions, clients, i - 1);
      DepthsOf(states[i - 1]);
      KeepsStacked(states[i - 1], actions[i - 1]);
    }
  }

  lemma DepthsOf(s: Pool)
    requires Inv(s)
    ensures DepthsExact(s) && ActiveExact(s)
  {
  }

  // ---- Inline or queued ----

  /** Inside a job, submit never counts or queues a job that is no leaf, and runs it at once if it may submit at all. */
  lemma NestedRunsInline(states: seq<Pool>, actions: seq<Action>, clients: nat, i: nat, t: nat)
    requires Run(states, actions, clients) && i < |states| && t < |states[i].threads|
    requires InsideJob(states[i].threads[t])
    ensures forall w :: !Enabled(states[i], SubmitCount(t, w, false))
    ensures Enabled(states[i], SubmitPush(t)) ==> Top(states[i].threads[t]).value.job.leaf
    ensures Enabled(states[i], SubmitInline(t)) <==>
      MutexFree(states[i]) && RunsCode(states[i].threads[t]) && !states[i].threads[t].isLeaf
  {
    hide Run, Inv, Stacked;
    RunKeepsStacked(states, actions, clients, i);
    DepthsOf(states[i]);
    DepthMeansInside(states[i], t);
    SubmittingOutside(states[i], t);
  }

  lemma SubmittingOutside(s: Pool, t: nat)
    requires Stacked(s) && t < |s.threads|
    ensures SubmitsOutside(s.threads[t])
  {
  }

  /**
    Outside all jobs, submit queues a job that is no leaf when nothing is queued or the jobs being run are not max, and
    otherwise runs it at once.
    */
  lemma OutsideQueues(states: seq<Pool>, actions: seq<Action>, clients: nat, i: nat, t: nat, w: Option<nat>)
    requires Run(states, actions, clients) && i < |states| && t < |states[i].threads|
    requires !InsideJob(states[i].threads[t]) && MutexFree(states[i]) && RunsCode(states[i].threads[t])
    ensures Enabled(states[i], SubmitCount(t, w, false)) <==>
      |states[i].queue| == 0 || OnThreads(InRun, states[i].threads) != states[i].max
    ensures Enabled(states[i], SubmitInline(t)) <==>
      |states[i].queue| > 0 && OnThreads(InRun, states[i].threads) == states[i].max
    ensures Enabled(states[i], SubmitCount(t, w, true))
  {
    hide Run, Inv, Stacked, OnThreads;
    RunKeepsStacked(states, actions, clients, i);
    DepthsOf(states[i]);
    DepthMeansInside(states[i], t);
    LeafIsInside(states[i].threads[t].stack);
  }

  lemma {:induction false} LeafIsInside(st: seq<Frame>)
    ensures InLeafJob(st) ==> exists k :: 0 <= k < |st| && JobFrame(st[k])
    decreases |st|
  {
    if |st| > 0 {
      LeafIsInside(st[..|st| - 1]);
      assert forall k :: 0 <= k < |st| - 1 ==> st[..|st| - 1][k] == st[k];
      if JobFrame(st[|st| - 1]) {
        assert 0 <= |st| - 1 < |st|;
      }
    }
  }

  // ---- Order ----

  /** x is popped before y: leaves first, the newest of them first, then the others, the oldest first. */
  predicate Precedes(x: Job, y: Job) { if y.leaf then x.leaf && x.id > y.id else x.leaf || x.id < y.id }

  predicate QueueOrdered(s: Pool) {
    && (forall k :: 0 <= k < |s.queue| ==> s.queue[k].id < |s.submitted|)
    && (forall j, k :: 0 <= j < k < |s.queue| ==> Precedes(s.queue[j], s.queue[k]))
  }

  /** One thread submits at a time, the job last counted, and that job is not queued yet. */
  predicate LastSubmits(s: Pool) {
    && (forall t, u :: 0 <= t < u < |s.threads| ==>
          !IsSubmitting(Top(s.threads[t])) || !IsSubmitting(Top(s.threads[u])))
    && (forall t :: 0 <= t < |s.threads| && IsSubmitting(Top(s.threads[t])) ==>
          && Top(s.threads[t]).value.job.id + 1 == |s.submitted|
          && forall k :: 0 <= k < |s.queue| ==> s.queue[k].id < Top(s.threads[t]).value.job.id)
  }

  predicate Ordered(s: Pool) { QueueOrdered(s) && LastSubmits(s) }

  lemma KeepsQueueOrdered(s: Pool, a: Action)
    requires Ordered(s) && Enabled(s, a)
    ensures QueueOrdered(Apply(s, a))
  {
  }

  /** A thread that submits after an action did before, or the action is its SubmitCount. */
  lemma StillSubmits(s: Pool, a: Action, t: nat)
    requires Stacked(s) && Enabled(s, a) && t < |Apply(s, a).threads|
    requires IsSubmitting(Top(Apply(s, a).threads[t]))
    ensures |Apply(s, a).threads| == |s.threads|
    ensures (a.SubmitCount? && a.t == t) || (Apply(s, a).threads[t] == s.threads[t] && !(a.SubmitPush? && a.t == t))
  {
    hide Apply, Enabled, Entering, Leaving;
    ActsOn(s, a);
    if !a.Stop? {
      StackAfter(s, a);
      if a.t == t {
        ActingSubmits(s, a);
      }
    }
  }

  lemma ActingSubmits(s: Pool, a: Action)
    requires Stacked(s) && Enabled(s, a) && !a.Stop? && a.t < |Apply(s, a).threads|
    requires IsSubmitting(Top(Apply(s, a).threads[a.t]))
    ensures a.SubmitCount?
  {
    hide Apply, Enabled, Entering, Leaving;
    ActsOn(s, a);
    StackAfter(s, a);
    if Entering(s, a).Some? {
      SubmissionEnters(s, a);
    } else {
      StackRemains(s, a);
    }
  }

  /** An action that pushes nothing takes something off. */
  lemma StackRemains(s: Pool, a: Action)
    requires Enabled(s, a) && !a.Stop? && Entering(s, a).None?
    ensures Leaving(s, a).Some?
  {
  }

  lemma KeepsLastSubmits(s: Pool, a: Action)
    requires Ordered(s) && Stacked(s) && Enabled(s, a)
    ensures LastSubmits(Apply(s, a))
  {
    var s' := Apply(s, a);
    forall t | 0 <= t < |s'.threads| && IsSubmitting(Top(s'.threads[t]))
      ensures Top(s'.threads[t]).value.job.id + 1 == |s'.submitted|
      ensures forall k :: 0 <= k < |s'.queue| ==> s'.queue[k].id < Top(s'.threads[t]).value.job.id
    {
      StillSubmits(s, a, t);
    }
    forall t, u | 0 <= t < u < |s'.threads| && IsSubmitting(Top(s'.threads[t])) && IsSubmitting(Top(s'.threads[u]))
      ensures false
    {
      StillSubmits(s, a, t);
      StillSubmits(s, a, u);
    }
  }

  lemma {:induction false} RunKeepsOrder(states: seq<Pool>, actions: seq<Action>, clients: nat, i: nat)
    requires Run(states, actions, clients) && i < |states|
    ensures Ordered(states[i]) && Stacked(states[i]) && Inv(states[i])
    decreases i
  {
    hide Inv, Apply, Enabled, Stacked;
    RunKeepsStacked(states, actions, clients, i);
    if i > 0 {
      RunKeepsOrder(states, actions, clients, i - 1);
      KeepsQueueOrdered(states[i - 1], actions[i - 1]);
      KeepsLastSubmits(states[i - 1], actions[i - 1]);
    }
  }

  /** The job popped is the newest queued leaf, or without any the oldest queued job. */
  lemma PopsInOrder(states: seq<Pool>, actions: seq<Action>, clients: nat, i: nat, t: nat)
    requires Run(states, actions, clients) && i < |states| && Enabled(states[i], Pop(t))
    ensures exists job :: (
      && job in states[i].queue
      && Apply(states[i], Pop(t)).starts == states[i].starts + [job.id]
      && forall other :: other in states[i].queue && other != job ==> Precedes(job, other))
  {
    hide Run, Inv, Stacked;
    RunKeepsOrder(states, actions, clients, i);
    var job := states[i].queue[0];
    assert Apply(states[i], Pop(t)).starts == states[i].starts + [job.id];
  }

  lemma {:induction false} FrameFound(m: Measure, st: seq<Frame>) returns (k: nat)
    requires OnStack(m, st) > 0
    ensures k < |st| && OfFrame(m, st[k]) > 0
    decreases |st|
  {
    if OfFrame(m, st[|st| - 1]) > 0 {
      k := |st| - 1;
    } else {
      k := FrameFound(m, st[..|st| - 1]);
    }
  }

  lemma {:induction false} ThreadFound(m: Measure, ths: seq<Thread>) returns (t: nat, k: nat)
    requires OnThreads(m, ths) > 0
    ensures t < |ths| && k < |ths[t].stack| && OfFrame(m, ths[t].stack[k]) > 0
    decreases |ths|
  {
    if OnStack(m, ths[|ths| - 1].stack) > 0 {
      t := |ths| - 1;
      k := FrameFound(m, ths[t].stack);
    } else {
      t, k := ThreadFound(m, ths[..|ths| - 1]);
    }
  }

  lemma {:induction false} NotQueued(id: nat, q: seq<Job>)
    requires forall k :: 0 <= k < |q| ==> q[k].id != id
    ensures InQueue(Numbered(id), q) == 0
    decreases |q|
  {
    if |q| > 0 {
      NotQueued(id, q[..|q| - 1]);
    }
  }

  /** When a job that is no leaf starts, every job submitted before it has started. */
  lemma StartsInOrder(states: seq<Pool>, actions: seq<Action>, clients: nat, i: nat, t: nat, id: nat)
    requires Run(states, actions, clients) && i < |states| && Enabled(states[i], Pop(t))
    requires !states[i].queue[0].leaf && id < states[i].queue[0].id
    ensures id in states[i].starts
  {
    hide Run, Inv, OnThreads, InQueue, Stacked, Ordered;
    RunKeepsOrder(states, actions, clients, i);
    EarlierStarted(states[i], id);
  }

  lemma EarlierStarted(s: Pool, id: nat)
    requires Inv(s) && Ordered(s) && Stacked(s) && |s.queue| > 0 && !s.queue[0].leaf && id < s.queue[0].id
    ensures id in s.starts
  {
    hide OnThreads, InQueue, OnStack, CountersExact, DepthsExact, StartedOnce;
    NotQueued(id, s.queue);
    assert InQueue(Numbered(id), s.queue) + OnThreads(Numbered(id), s.threads)
      + (if id in s.finished then 1 else 0) == 1;
    if id !in s.finished {
      var u, k := ThreadFound(Numbered(id), s.threads);
      var st := s.threads[u].stack;
      assert FrameStarted(s, st[k]);
      assert k < |st| - 1 ==> HoldsCalls(st[k]);
      assert k == |st| - 1 ==> Top(s.threads[u]) == Some(st[k]);
    }
  }

  // ---- Stopping ----

  lemma StopsFor(s: Pool, a: Action)
    requires Enabled(s, a)
    ensures a.Stop? || !s.running ==> !Apply(s, a).running && Apply(s, a).starts == s.starts
  {
  }

  /** Once the pool is stopped, no job starts any more. */
  lemma {:induction false} StoppedForGood(states: seq<Pool>, actions: seq<Action>, clients: nat, i: nat, j: nat)
    requires Run(states, actions, clients) && i < j < |states| && actions[i].Stop?
    ensures !states[j].running && states[j].starts == states[i].starts
    decreases j
  {
    hide Apply, Enabled, Init;
    StopsFor(states[j - 1], actions[j - 1]);
    if j > i + 1 {
      StoppedForGood(states, actions, clients, i, j - 1);
    }
  }

  // ---- Leaf jobs ----

  /** The actions that set a thread's leaf flag. */
  predicate SetsFlag(a: Action, t: nat) { (a.Pop? || a.SubmitInline? || a.InlineDone? || a.JobDone?) && a.t == t }

  predicate PopsLeaf(s: Pool, a: Action) { a.Pop? && |s.queue| > 0 && s.queue[0].leaf }

  lemma FlagAfter(s: Pool, a: Action, t: nat)
    requires Enabled(s, a) && t < |s.threads|
    ensures |Apply(s, a).threads| == |s.threads|
    ensures Apply(s, a).threads[t].isLeaf <==> if SetsFlag(a, t) then PopsLeaf(s, a) else s.threads[t].isLeaf
  {
  }

  /** Since a thread last took a job or ended one, its flag says whether it took a leaf job then. */
  lemma {:induction false} LeafFlag(states: seq<Pool>, actions: seq<Action>, clients: nat, i: nat, j: nat, t: nat)
    requires Run(states, actions, clients) && i < j < |states| && SetsFlag(actions[i], t)
    requires forall m :: i < m < j ==> !SetsFlag(actions[m], t)
    ensures t < |states[j].threads|
    ensures states[j].threads[t].isLeaf <==> PopsLeaf(states[i], actions[i])
    decreases j
  {
    if j == i + 1 {
      FlagAfter(states[i], actions[i], t);
    } else {
      LeafFlag(states, actions, clients, i, j - 1, t);
      FlagAfter(states[j - 1], actions[j - 1], t);
    }
  }

  /**
    So a job may submit from the code it runs exactly unless the last job its thread took or ended was a leaf it took:
    a leaf job may not, until a job it ran while waiting has ended.
    */
  lemma MaySubmit(states: seq<Pool>, actions: seq<Action>, clients: nat, i: nat, j: nat, t: nat)
    requires Run(states, actions, clients) && i < j < |states| && SetsFlag(actions[i], t)
    requires forall m :: i < m < j ==> !SetsFlag(actions[m], t)
    ensures t < |states[j].threads|
    ensures PopsLeaf(states[i], actions[i]) ==>
      !Enabled(states[j], SubmitInline(t)) && forall w, leaf :: !Enabled(states[j], SubmitCount(t, w, leaf))
    ensures !PopsLeaf(states[i], actions[i]) && MutexFree(states[j]) && RunsCode(states[j].threads[t]) ==>
      && (forall w :: Enabled(states[j], SubmitCount(t, w, true)))
      && (Enabled(states[j], SubmitInline(t)) || forall w :: Enabled(states[j], SubmitCount(t, w, false)))
  {
    hide Run;
    LeafFlag(states, actions, clients, i, j, t);
  }

  const LEAF_A: Job := Job(0, None, true)
  const LEAF_B: Job := Job(1, None, true)

  /** A running pool without workers, and where its only client is. */
  predicate Alone(s: Pool, queue: seq<Job>, active: nat, stack: seq<Frame>, depth: nat, isLeaf: bool) {
    && s.queue == queue && s.active == active && s.running && s.num == map[] && |s.threads| == 1
    && s.threads[0].stack == stack && s.threads[0].depth == depth && s.threads[0].isLeaf == isLeaf
  }

  const LONE: Pool := Pool([], 0, 1, true, map[], [CLIENT], [], {}, [])

  /** The client queues two leaf jobs. */
  lemma LeavesQueued() returns (actions: seq<Action>, s: Pool)
    ensures Path(LONE, actions, s) && Alone(s, [LEAF_B, LEAF_A], 0, [], 0, false)
  {
    hide Path;
    EmptyPath(LONE);
    actions, s := Then([], LONE, SubmitCount(0, None, true));
    assert Alone(s, [], 0, [Submitting(LEAF_A)], 0, false) && |s.submitted| == 1;
    actions, s := Then(actions, s, SubmitPush(0));
    assert Alone(s, [LEAF_A], 0, [], 0, false) && |s.submitted| == 1;
    actions, s := Then(actions, s, SubmitCount(0, None, true));
    assert Alone(s, [LEAF_A], 0, [Submitting(LEAF_B)], 0, false);
    actions, s := Then(actions, s, SubmitPush(0));
  }

  /** Its wait runs one of them, and a wait of that job the other. */
  lemma LeafWaits() returns (actions: seq<Action>, s: Pool)
    ensures Path(LONE, actions, s)
    ensures Alone(s, [], 2, [Flushing(0), Executing(LEAF_B), Flushing(0), Executing(LEAF_A)], 2, true)
  {
    hide Path;
    actions, s := LeavesQueued();
    actions, s := Then(actions, s, WaitStart(0, 0));
    assert Alone(s, [LEAF_B, LEAF_A], 0, [Flushing(0)], 0, false);
    actions, s := Then(actions, s, Pop(0));
    assert Alone(s, [LEAF_A], 1, [Flushing(0), Executing(LEAF_B)], 1, true);
    actions, s := Then(actions, s, WaitStart(0, 0));
    assert Alone(s, [LEAF_A], 1, [Flushing(0), Executing(LEAF_B), Flushing(0)], 1, true);
    actions, s := Then(actions, s, Pop(0));
  }

  lemma EmptyPath(s: Pool)
    ensures Path(s, [], s)
  {
  }

  lemma Then(actions: seq<Action>, s: Pool, a: Action) returns (actions': seq<Action>, s': Pool)
    requires Path(LONE, actions, s) && Enabled(s, a)
    ensures Path(LONE, actions', s') && s' == Apply(s, a)
  {
    hide Path, Apply, Enabled;
    PathStep(LONE, actions, s, a);
    actions', s' := actions + [a], Apply(s, a);
  }

  /** A leaf job whose wait has run another job to its end is inside run with its flag gone, and may submit. */
  lemma LeafSubmitsAfterWait() returns (states: seq<Pool>, actions: seq<Action>)
    ensures Run(states, actions, 1)
    ensures var s := states[|actions|];
      && |s.threads| == 1 && Top(s.threads[0]) == Some(Executing(LEAF_B))
      && Enabled(s, SubmitInline(0)) && Enabled(s, SubmitCount(0, None, true))
  {
    hide Path;
    var s;
    actions, s := LeafWaits();
    actions, s := Then(actions, s, JobDone(0));
    actions, s := Then(actions, s, Dec(0));
    actions, s := Then(actions, s, Retire(0));
    actions, s := Then(actions, s, FlushDone(0));
    actions, s := Then(actions, s, WaitDone(0));
    states := PathStates(LONE, actions, s);
  }
}
