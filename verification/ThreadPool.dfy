// common/threadpool.cpp as a state machine: one action for each stretch of code between lock operations.

module ThreadPool {
  import opened Wrappers

  // ---- State ----

  // A queued job: its number, the waiter it is counted on, and whether it may not use the pool itself.
  datatype Job = Job(id: nat, waiter: Option<nat>, leaf: bool)

  // Where a thread is. Submitting holds the pool's mutex between inc and the push; Executing, Finished and Retiring are
  // a job in run between the pop, the return of f, the dec and the final decrement of active.
  datatype Frame =
    | Submitting(job: Job)
    | Executing(job: Job)
    | Finished(job: Job)
    | Retiring(job: Job)
    | Inline
    | Worker
    | Flushing(waiter: nat)
    | Blocked(waiter: nat)

  // depth and is_leaf are thread-local.
  datatype Thread = Thread(stack: seq<Frame>, depth: nat, isLeaf: bool)

  // `submitted` lists each job's waiter by its number, `finished` the jobs whose dec is done, `starts` the pops in
  // order.
  datatype Pool = Pool(
    queue: seq<Job>,
    active: nat,
    max: nat,
    running: bool,
    num: map<nat, int>,
    threads: seq<Thread>,
    submitted: seq<Option<nat>>,
    finished: set<nat>,
    starts: seq<nat>
  )

  function Num(s: Pool, w: nat): int { if w in s.num then s.num[w] else 0 }

  function Top(th: Thread): Option<Frame> {
    if |th.stack| == 0 then None else Some(th.stack[|th.stack| - 1])
  }

  function Below(th: Thread): seq<Frame>
    requires |th.stack| > 0
  {
    th.stack[..|th.stack| - 1]
  }

  predicate MutexFree(s: Pool) {
    forall t :: 0 <= t < |s.threads| ==> !IsSubmitting(Top(s.threads[t]))
  }

  predicate IsSubmitting(f: Option<Frame>) { f.Some? && f.value.Submitting? }

  // ---- Actions ----

  datatype Action =
    | SubmitCount(t: nat, waiter: Option<nat>, leaf: bool)
    | SubmitPush(t: nat)
    | SubmitInline(t: nat)
    | InlineDone(t: nat)
    | WaitStart(t: nat, on: nat)
    | FlushDone(t: nat)
    | WaitDone(t: nat)
    | Pop(t: nat)
    | JobDone(t: nat)
    | Dec(t: nat)
    | Retire(t: nat)
    | WorkerExit(t: nat)
    | Stop

  /** Client code, or the code of a job: what may call submit and wait. */
  predicate RunsCode(th: Thread) {
    Top(th).None? || Top(th).value.Executing? || Top(th).value.Inline?
  }

  /** submit runs a job in the current thread when all are busy and work is waiting, or when already inside a job. */
  predicate RunsInline(s: Pool, th: Thread, leaf: bool) {
    !leaf && ((s.active == s.max && |s.queue| > 0) || th.depth > 0)
  }

  predicate Enabled(s: Pool, a: Action) {
    (!a.Stop? ==> a.t < |s.threads|) &&
    match a
    case SubmitCount(t, w, leaf) =>
      MutexFree(s) && RunsCode(s.threads[t]) && !s.threads[t].isLeaf && !RunsInline(s, s.threads[t], leaf)
    case SubmitPush(t) => IsSubmitting(Top(s.threads[t]))
    case SubmitInline(t) =>
      MutexFree(s) && RunsCode(s.threads[t]) && !s.threads[t].isLeaf && RunsInline(s, s.threads[t], false)
    case InlineDone(t) => Top(s.threads[t]) == Some(Inline) && s.threads[t].depth > 0
    case WaitStart(t, w) => RunsCode(s.threads[t])
    case FlushDone(t) =>
      MutexFree(s) && Top(s.threads[t]).Some? && Top(s.threads[t]).value.Flushing? && (|s.queue| == 0 || !s.running)
    case WaitDone(t) =>
      Top(s.threads[t]).Some? && Top(s.threads[t]).value.Blocked? && Num(s, Top(s.threads[t]).value.waiter) == 0
    case Pop(t) =>
      && MutexFree(s) && s.running && |s.queue| > 0
      && Top(s.threads[t]).Some? && (Top(s.threads[t]).value.Worker? || Top(s.threads[t]).value.Flushing?)
    case JobDone(t) => Top(s.threads[t]).Some? && Top(s.threads[t]).value.Executing? && s.threads[t].depth > 0
    case Dec(t) => Top(s.threads[t]).Some? && Top(s.threads[t]).value.Finished?
    case Retire(t) => MutexFree(s) && Top(s.threads[t]).Some? && Top(s.threads[t]).value.Retiring? && s.active > 0
    case WorkerExit(t) => MutexFree(s) && Top(s.threads[t]) == Some(Worker) && !s.running
    case Stop => MutexFree(s)
  }

  function Put(s: Pool, t: nat, th: Thread): Pool
    requires t < |s.threads|
  {
    s.(threads := s.threads[t := th])
  }

  function Apply(s: Pool, a: Action): Pool
    requires Enabled(s, a)
  {
    if a.Stop? then s.(running := false) else
    var th := s.threads[a.t];
    match a
    case SubmitCount(t, w, leaf) =>
      var counted := if w.Some? then s.(num := s.num[w.value := Num(s, w.value) + 1]) else s;
      Put(counted.(submitted := s.submitted + [w]), t,
        th.(stack := th.stack + [Submitting(Job(|s.submitted|, w, leaf))]))
    case SubmitPush(t) =>
      var job := Top(th).value.job;
      Put(s.(queue := if job.leaf then [job] + s.queue else s.queue + [job]), t, th.(stack := Below(th)))
    case SubmitInline(t) =>
      Put(s, t, Thread(th.stack + [Inline], th.depth + 1, false))
    case InlineDone(t) =>
      Put(s, t, Thread(Below(th), th.depth - 1, false))
    case WaitStart(t, w) =>
      Put(s, t, th.(stack := th.stack + [Flushing(w)]))
    case FlushDone(t) =>
      Put(s, t, th.(stack := Below(th) + [Blocked(Top(th).value.waiter)]))
    case WaitDone(t) =>
      Put(s, t, th.(stack := Below(th)))
    case Pop(t) =>
      var job := s.queue[0];
      Put(s.(queue := s.queue[1..], active := s.active + 1, starts := s.starts + [job.id]), t,
        Thread(th.stack + [Executing(job)], th.depth + 1, job.leaf))
    case JobDone(t) =>
      Put(s, t, Thread(Below(th) + [Finished(Top(th).value.job)], th.depth - 1, false))
    case Dec(t) =>
      var job := Top(th).value.job;
      var w := job.waiter;
      var counted := if w.Some? then s.(num := s.num[w.value := Num(s, w.value) - 1]) else s;
      Put(counted.(finished := s.finished + {job.id}), t, th.(stack := Below(th) + [Retiring(job)]))
    case Retire(t) =>
      Put(s.(active := s.active - 1), t, th.(stack := Below(th)))
    case WorkerExit(t) =>
      Put(s, t, th.(stack := Below(th)))
  }

  /** create: max - 1 workers, and clients that do nothing yet. */
  predicate Init(s: Pool, clients: nat) {
    && s.queue == [] && s.active == 0 && s.running && s.num == map[] && s.submitted == [] && s.finished == {}
      && s.starts == []
    && |s.threads| == clients + (if s.max > 0 then s.max - 1 else 0)
    && forall t :: 0 <= t < |s.threads| ==>
      s.threads[t] == Thread(if t < clients then [] else [Worker], 0, false)
  }

  // ---- Counting frames ----

  // What a frame or a queued job is counted for.
  datatype Measure = Counted(waiter: nat) | Numbered(id: nat) | InRun | Running | Pending(id: nat) | Workers | Waits

  function OfJob(m: Measure, j: Job): nat {
    match m
    case Counted(w) => if j.waiter == Some(w) then 1 else 0
    case Numbered(id) => if j.id == id then 1 else 0
    case _ => 0
  }

  predicate InRunFrame(f: Frame) { f.Executing? || f.Finished? || f.Retiring? }

  function OfFrame(m: Measure, f: Frame): nat {
    match m
    case Counted(_) => if f.Submitting? || f.Executing? || f.Finished? then OfJob(m, f.job) else 0
    case Numbered(_) => if f.Submitting? || f.Executing? || f.Finished? then OfJob(m, f.job) else 0
    case InRun => if InRunFrame(f) then 1 else 0
    case Workers => if f.Worker? then 1 else 0
    case Waits => if f.Flushing? then 1 else 0
    case Running => if f.Executing? || f.Inline? then 1 else 0
    case Pending(id) => if f.Submitting? && f.job.id == id then 1 else 0
  }

  function InQueue(m: Measure, q: seq<Job>): nat {
    if |q| == 0 then 0 else InQueue(m, q[..|q| - 1]) + OfJob(m, q[|q| - 1])
  }

  function OnStack(m: Measure, st: seq<Frame>): nat {
    if |st| == 0 then 0 else OnStack(m, st[..|st| - 1]) + OfFrame(m, st[|st| - 1])
  }

  function OnThreads(m: Measure, ths: seq<Thread>): nat {
    if |ths| == 0 then 0 else OnThreads(m, ths[..|ths| - 1]) + OnStack(m, ths[|ths| - 1].stack)
  }

  lemma {:induction false} ThreadsUpdate(m: Measure, ths: seq<Thread>, t: nat, th: Thread)
    requires t < |ths|
    ensures OnThreads(m, ths[t := th]) + OnStack(m, ths[t].stack) == OnThreads(m, ths) + OnStack(m, th.stack)
    ensures OnStack(m, ths[t].stack) <= OnThreads(m, ths)
    decreases |ths|
  {
    var n := |ths| - 1;
    if t < n {
      ThreadsUpdate(m, ths[..n], t, th);
      assert ths[t := th][..n] == ths[..n][t := th];
    } else {
      assert ths[t := th][..n] == ths[..n];
    }
  }

  lemma StackPush(m: Measure, st: seq<Frame>, f: Frame)
    ensures OnStack(m, st + [f]) == OnStack(m, st) + OfFrame(m, f)
  {
    assert (st + [f])[..|st|] == st;
  }

  lemma QueuePush(m: Measure, q: seq<Job>, j: Job)
    ensures InQueue(m, q + [j]) == InQueue(m, q) + OfJob(m, j)
  {
    assert (q + [j])[..|q|] == q;
  }

  lemma {:induction false} QueueFront(m: Measure, q: seq<Job>, j: Job)
    ensures InQueue(m, [j] + q) == InQueue(m, q) + OfJob(m, j)
    decreases |q|
  {
    if |q| == 0 {
      assert [j] + q == [] + [j];
      QueuePush(m, [], j);
    } else {
      QueueFront(m, q[..|q| - 1], j);
      assert ([j] + q)[..|q|] == [j] + q[..|q| - 1];
    }
  }

  // ---- The invariant ----

  /** A job carries the waiter it was submitted with. */
  predicate Registered(s: Pool, j: Job) { j.id < |s.submitted| && s.submitted[j.id] == j.waiter }

  predicate FrameRegistered(s: Pool, f: Frame) {
    f.Submitting? || f.Executing? || f.Finished? || f.Retiring? ==> Registered(s, f.job)
  }

  predicate AllRegistered(s: Pool) {
    && (forall k :: 0 <= k < |s.queue| ==> Registered(s, s.queue[k]))
    && (forall t, k :: 0 <= t < |s.threads| && 0 <= k < |s.threads[t].stack| ==>
      FrameRegistered(s, s.threads[t].stack[k]))
  }

  /** Each waiter's counter is the number of its jobs being submitted, queued or executing. */
  ghost predicate CountersExact(s: Pool) {
    forall w: nat :: Num(s, w) == InQueue(Counted(w), s.queue) + OnThreads(Counted(w), s.threads)
  }

  /** active is the number of jobs between the pop and the final decrement. */
  predicate ActiveExact(s: Pool) { s.active == OnThreads(InRun, s.threads) }

  /** Every job submitted is in exactly one place: being submitted, queued, executing or finished. */
  ghost predicate JobsInOnePlace(s: Pool) {
    forall id: nat :: InQueue(Numbered(id), s.queue) + OnThreads(Numbered(id), s.threads)
      + (if id in s.finished then 1 else 0)
      == if id < |s.submitted| then 1 else 0
  }

  /** No job is popped twice, and one that was popped is neither queued nor still being submitted. */
  ghost predicate StartedOnce(s: Pool) {
    && (forall i, j :: 0 <= i < j < |s.starts| ==> s.starts[i] != s.starts[j])
    && (forall i :: 0 <= i < |s.starts| ==>
          InQueue(Numbered(s.starts[i]), s.queue) == 0 && OnThreads(Pending(s.starts[i]), s.threads) == 0
          && s.starts[i] < |s.submitted|)
  }

  /** The innermost job a thread is inside of is a leaf job. */
  predicate InLeafJob(st: seq<Frame>) {
    if |st| == 0 then false
    else
      var f := st[|st| - 1];
      if f.Executing? then f.job.leaf else !f.Inline? && InLeafJob(st[..|st| - 1])
  }

  /** depth is the number of jobs a thread is inside of, and is_leaf is set only in a leaf job. */
  predicate DepthsExact(s: Pool) {
    forall t :: 0 <= t < |s.threads| ==>
      && s.threads[t].depth == OnStack(Running, s.threads[t].stack)
      && (s.threads[t].isLeaf ==> InLeafJob(s.threads[t].stack))
  }

  predicate FrameStarted(s: Pool, f: Frame) {
    f.Executing? || f.Finished? || f.Retiring? ==> f.job.id in s.starts
  }

  /** Whatever executes or has finished was popped. */
  predicate AllStarted(s: Pool) {
    && (forall t, k :: 0 <= t < |s.threads| && 0 <= k < |s.threads[t].stack| ==> FrameStarted(s, s.threads[t].stack[k]))
    && forall id :: id in s.finished ==> id in s.starts
  }

  ghost predicate Inv(s: Pool) {
    && AllRegistered(s) && CountersExact(s) && ActiveExact(s) && JobsInOnePlace(s)
    && StartedOnce(s) && AllStarted(s) && DepthsExact(s)
  }

  // ---- Every action keeps it ----

  /** The frame an action pushes, and the one it takes off the top of its thread. */
  function Entering(s: Pool, a: Action): Option<Frame>
    requires Enabled(s, a)
  {
    match a
    case SubmitCount(t, w, leaf) => Some(Submitting(Job(|s.submitted|, w, leaf)))
    case SubmitInline(_) => Some(Inline)
    case WaitStart(_, w) => Some(Flushing(w))
    case FlushDone(t) => Some(Blocked(Top(s.threads[t]).value.waiter))
    case Pop(_) => Some(Executing(s.queue[0]))
    case JobDone(t) => Some(Finished(Top(s.threads[t]).value.job))
    case Dec(t) => Some(Retiring(Top(s.threads[t]).value.job))
    case _ => None
  }

  function Leaving(s: Pool, a: Action): Option<Frame>
    requires Enabled(s, a)
  {
    match a
    case SubmitCount(_, _, _) => None
    case SubmitInline(_) => None
    case WaitStart(_, _) => None
    case Pop(_) => None
    case Stop => None
    case _ => Top(s.threads[a.t])
  }

  function OfOption(m: Measure, f: Option<Frame>): nat { if f.Some? then OfFrame(m, f.value) else 0 }

  /** The stack of the acting thread after the action. */
  lemma StackAfter(s: Pool, a: Action)
    requires Enabled(s, a) && !a.Stop?
    ensures var st := s.threads[a.t].stack;
      && |Apply(s, a).threads| == |s.threads|
      && (Leaving(s, a).Some? ==> |st| > 0 && Leaving(s, a).value == st[|st| - 1])
      && Apply(s, a).threads[a.t].stack == (if Leaving(s, a).Some? then st[..|st| - 1] else st)
           + (if Entering(s, a).Some? then [Entering(s, a).value] else [])
      && Apply(s, a).threads == s.threads[a.t := Apply(s, a).threads[a.t]]
  {
  }

  lemma StackDelta(m: Measure, s: Pool, a: Action)
    requires Enabled(s, a) && !a.Stop?
    ensures |Apply(s, a).threads| == |s.threads|
    ensures OnStack(m, Apply(s, a).threads[a.t].stack) + OfOption(m, Leaving(s, a))
         == OnStack(m, s.threads[a.t].stack) + OfOption(m, Entering(s, a))
  {
    hide Apply, Entering, Leaving, OfFrame;
    StackAfter(s, a);
    var st := s.threads[a.t].stack;
    var rest := if Leaving(s, a).Some? then st[..|st| - 1] else st;
    if Entering(s, a).Some? {
      StackPush(m, rest, Entering(s, a).value);
    } else {
      assert rest + [] == rest;
    }
  }

  lemma ThreadsDelta(m: Measure, s: Pool, a: Action)
    requires Enabled(s, a)
    ensures OnThreads(m, Apply(s, a).threads) + OfOption(m, Leaving(s, a))
         == OnThreads(m, s.threads) + OfOption(m, Entering(s, a))
  {
    if !a.Stop? {
      hide Apply, Entering, Leaving, Enabled, OfFrame;
      StackAfter(s, a);
      StackDelta(m, s, a);
      ThreadsUpdate(m, s.threads, a.t, Apply(s, a).threads[a.t]);
    }
  }

  /** What an action does to the queue's share of a measure. */
  lemma QueueDelta(m: Measure, s: Pool, a: Action)
    requires Enabled(s, a)
    ensures a.SubmitPush? ==>
      InQueue(m, Apply(s, a).queue) == InQueue(m, s.queue) + OfJob(m, Top(s.threads[a.t]).value.job)
    ensures a.Pop? ==> InQueue(m, Apply(s, a).queue) + OfJob(m, s.queue[0]) == InQueue(m, s.queue)
    ensures !a.SubmitPush? && !a.Pop? ==> Apply(s, a).queue == s.queue
  {
    if a.SubmitPush? {
      QueuePush(m, s.queue, Top(s.threads[a.t]).value.job);
      QueueFront(m, s.queue, Top(s.threads[a.t]).value.job);
    }
    if a.Pop? {
      QueueFront(m, s.queue[1..], s.queue[0]);
      assert [s.queue[0]] + s.queue[1..] == s.queue;
    }
  }

  /** The job an action submits, moves to the queue, takes from it or has done with. */
  function Handled(s: Pool, a: Action): Option<Job>
    requires Enabled(s, a)
  {
    match a
    case SubmitCount(t, w, leaf) => Some(Job(|s.submitted|, w, leaf))
    case SubmitPush(t) => Some(Top(s.threads[t]).value.job)
    case Pop(t) => Some(s.queue[0])
    case Dec(t) => Some(Top(s.threads[t]).value.job)
    case _ => None
  }

  /** Taken over threads and queue, a job counts from its submission to its dec. */
  lemma TotalDelta(m: Measure, s: Pool, a: Action)
    requires Enabled(s, a) && (m.Counted? || m.Numbered?)
    ensures
      InQueue(m, Apply(s, a).queue) + OnThreads(m, Apply(s, a).threads)
        + (if a.Dec? then OfJob(m, Handled(s, a).value) else 0)
      == InQueue(m, s.queue) + OnThreads(m, s.threads)
        + (if a.SubmitCount? then OfJob(m, Handled(s, a).value) else 0)
  {
    hide Apply, InQueue, OnThreads, OfJob;
    ThreadsDelta(m, s, a);
    QueueDelta(m, s, a);
  }

  lemma NumDelta(s: Pool, a: Action, w: nat)
    requires Enabled(s, a)
    ensures Num(Apply(s, a), w) + (if a.Dec? then OfJob(Counted(w), Handled(s, a).value) else 0)
         == Num(s, w) + (if a.SubmitCount? then OfJob(Counted(w), Handled(s, a).value) else 0)
  {
  }

  lemma KeepsCounters(s: Pool, a: Action)
    requires CountersExact(s) && Enabled(s, a)
    ensures CountersExact(Apply(s, a))
  {
    hide Apply, InQueue, OnThreads, OfJob, Num, Handled;
    forall w: nat ensures Num(Apply(s, a), w)
        == InQueue(Counted(w), Apply(s, a).queue) + OnThreads(Counted(w), Apply(s, a).threads) {
      TotalDelta(Counted(w), s, a);
      NumDelta(s, a, w);
    }
  }

  lemma KeepsActive(s: Pool, a: Action)
    requires ActiveExact(s) && Enabled(s, a)
    ensures ActiveExact(Apply(s, a))
  {
    hide OnThreads;
    ThreadsDelta(InRun, s, a);
  }

  lemma JobsDelta(s: Pool, a: Action)
    requires Enabled(s, a)
    ensures |Apply(s, a).submitted| == |s.submitted| + (if a.SubmitCount? then 1 else 0)
    ensures a.SubmitCount? ==> Handled(s, a).value.id == |s.submitted|
    ensures Apply(s, a).finished == s.finished + (if a.Dec? then {Handled(s, a).value.id} else {})
  {
  }

  lemma KeepsJobs(s: Pool, a: Action)
    requires JobsInOnePlace(s) && Enabled(s, a)
    ensures JobsInOnePlace(Apply(s, a))
  {
    hide Apply, InQueue, OnThreads, Handled;
    var s' := Apply(s, a);
    forall id: nat ensures InQueue(Numbered(id), s'.queue) + OnThreads(Numbered(id), s'.threads)
        + (if id in s'.finished then 1 else 0) == if id < |s'.submitted| then 1 else 0 {
      TotalDelta(Numbered(id), s, a);
      JobsDelta(s, a);
      if a.Dec? {
        DecFound(s, a);
      }
    }
  }

  /** The job whose dec comes next is still on its thread. */
  lemma DecFound(s: Pool, a: Action)
    requires Enabled(s, a) && a.Dec?
    ensures Handled(s, a).Some? && OnThreads(Numbered(Handled(s, a).value.id), s.threads) >= 1
  {
    ThreadsUpdate(Numbered(Handled(s, a).value.id), s.threads, a.t, s.threads[a.t]);
  }

  lemma PendingDelta(s: Pool, a: Action, id: nat)
    requires Enabled(s, a)
    ensures OnThreads(Pending(id), Apply(s, a).threads) <= OnThreads(Pending(id), s.threads)
        + (if a.SubmitCount? && id == |s.submitted| then 1 else 0)
    ensures InQueue(Numbered(id), Apply(s, a).queue) <= InQueue(Numbered(id), s.queue)
        + (if a.SubmitPush? && id == Handled(s, a).value.id then 1 else 0)
    ensures a.SubmitPush? && id == Handled(s, a).value.id ==> OnThreads(Pending(id), s.threads) >= 1
    ensures a.Pop? ==> Handled(s, a).Some?
    ensures a.Pop? && id == Handled(s, a).value.id ==>
      InQueue(Numbered(id), Apply(s, a).queue) + 1 == InQueue(Numbered(id), s.queue)
  {
    hide InQueue, OnThreads;
    ThreadsDelta(Pending(id), s, a);
    QueueDelta(Numbered(id), s, a);
    if a.SubmitPush? {
      ThreadsUpdate(Pending(id), s.threads, a.t, s.threads[a.t]);
    }
  }

  lemma StartsAfter(s: Pool, a: Action)
    requires Enabled(s, a)
    ensures Apply(s, a).starts == s.starts + (if a.Pop? then [Handled(s, a).value.id] else [])
  {
  }

  /** What is on its way into the queue is on a thread. */
  lemma {:induction false} PendingIsPlaced(id: nat, ths: seq<Thread>)
    ensures OnThreads(Pending(id), ths) <= OnThreads(Numbered(id), ths)
    decreases |ths|
  {
    if |ths| > 0 {
      PendingIsPlaced(id, ths[..|ths| - 1]);
      PendingOnStack(id, ths[|ths| - 1].stack);
    }
  }

  lemma {:induction false} PendingOnStack(id: nat, st: seq<Frame>)
    ensures OnStack(Pending(id), st) <= OnStack(Numbered(id), st)
    decreases |st|
  {
    if |st| > 0 {
      PendingOnStack(id, st[..|st| - 1]);
    }
  }

  lemma KeepsStarts(s: Pool, a: Action)
    requires JobsInOnePlace(s) && StartedOnce(s) && Enabled(s, a)
    ensures StartedOnce(Apply(s, a))
  {
    hide Apply, InQueue, OnThreads, Handled, Enabled;
    var s' := Apply(s, a);
    StartsAfter(s, a);
    JobsDelta(s, a);
    forall i | 0 <= i < |s'.starts|
      ensures InQueue(Numbered(s'.starts[i]), s'.queue) == 0 && OnThreads(Pending(s'.starts[i]), s'.threads) == 0
        && s'.starts[i] < |s'.submitted|
    {
      PendingDelta(s, a, s'.starts[i]);
      PendingIsPlaced(s'.starts[i], s.threads);
      OnePlace(s, s'.starts[i]);
    }
    if a.Pop? {
      PendingDelta(s, a, 0);
      PendingDelta(s, a, Handled(s, a).value.id);
    }
  }

  lemma OnePlace(s: Pool, id: nat)
    requires JobsInOnePlace(s)
    ensures InQueue(Numbered(id), s.queue) + OnThreads(Numbered(id), s.threads) <= 1
    ensures id >= |s.submitted| ==> InQueue(Numbered(id), s.queue) == 0 == OnThreads(Numbered(id), s.threads)
  {
    assert InQueue(Numbered(id), s.queue) + OnThreads(Numbered(id), s.threads) + (if id in s.finished then 1 else 0)
      == if id < |s.submitted| then 1 else 0;
  }

  lemma KeepsRegistered(s: Pool, a: Action)
    requires AllRegistered(s) && Enabled(s, a)
    ensures AllRegistered(Apply(s, a))
  {
    var s' := Apply(s, a);
    forall k | 0 <= k < |s'.queue| ensures Registered(s', s'.queue[k]) {
      QueuedBefore(s, a, k);
    }
    forall t, k | 0 <= t < |s'.threads| && 0 <= k < |s'.threads[t].stack|
      ensures FrameRegistered(s', s'.threads[t].stack[k])
    {
      FrameBefore(s, a, t, k);
    }
  }

  lemma QueuedBefore(s: Pool, a: Action, k: nat)
    requires AllRegistered(s) && Enabled(s, a) && k < |Apply(s, a).queue|
    ensures Registered(Apply(s, a), Apply(s, a).queue[k])
  {
    if a.SubmitPush? {
      assert FrameRegistered(s, s.threads[a.t].stack[|s.threads[a.t].stack| - 1]);
    }
    assert Apply(s, a).queue[k] in s.queue || (a.SubmitPush? && Apply(s, a).queue[k] == Top(s.threads[a.t]).value.job);
  }

  lemma SubmittedGrows(s: Pool, a: Action)
    requires Enabled(s, a)
    ensures s.submitted <= Apply(s, a).submitted
    ensures a.SubmitCount? ==> Registered(Apply(s, a), Handled(s, a).value)
  {
  }

  lemma EnteringRegistered(s: Pool, a: Action)
    requires AllRegistered(s) && Enabled(s, a) && Entering(s, a).Some?
    ensures FrameRegistered(Apply(s, a), Entering(s, a).value)
  {
    hide Apply;
    SubmittedGrows(s, a);
    if |s.threads[a.t].stack| > 0 {
      assert FrameRegistered(s, s.threads[a.t].stack[|s.threads[a.t].stack| - 1]);
    }
  }

  lemma FrameBefore(s: Pool, a: Action, t: nat, k: nat)
    requires AllRegistered(s) && Enabled(s, a) && t < |Apply(s, a).threads| && k < |Apply(s, a).threads[t].stack|
    ensures FrameRegistered(Apply(s, a), Apply(s, a).threads[t].stack[k])
  {
    SubmittedGrows(s, a);
    if a.Stop? {
      assert FrameRegistered(s, s.threads[t].stack[k]);
    } else {
      hide Apply, Entering, Leaving, Enabled;
      StackAfter(s, a);
      if t != a.t || k < |s.threads[t].stack| - (if Leaving(s, a).Some? then 1 else 0) {
        assert FrameRegistered(s, s.threads[t].stack[k]);
      } else {
        EnteringRegistered(s, a);
      }
    }
  }

  /** Frames that are not jobs being run. */
  predicate Neutral(f: Option<Frame>) { f.Some? ==> !f.value.Executing? && !f.value.Inline? }

  /** How the acting thread's depth and flag change. */
  lemma FlagsAfter(s: Pool, a: Action)
    requires Enabled(s, a) && !a.Stop?
    ensures |Apply(s, a).threads| == |s.threads|
    ensures var th, th' := s.threads[a.t], Apply(s, a).threads[a.t];
      && th'.depth + OfOption(Running, Leaving(s, a)) == th.depth + OfOption(Running, Entering(s, a))
      && (th'.isLeaf ==>
            || (Leaving(s, a).None? && Entering(s, a).Some? && Entering(s, a).value.Executing?
              && Entering(s, a).value.job.leaf)
            || (th.isLeaf && Neutral(Leaving(s, a)) && Neutral(Entering(s, a))))
  {
  }

  lemma LeafPush(st: seq<Frame>, f: Frame)
    ensures InLeafJob(st + [f]) == if f.Executing? then f.job.leaf else !f.Inline? && InLeafJob(st)
  {
    assert (st + [f])[..|st|] == st;
  }

  lemma LeafAfter(s: Pool, a: Action)
    requires Enabled(s, a) && !a.Stop? && (s.threads[a.t].isLeaf ==> InLeafJob(s.threads[a.t].stack))
    ensures |Apply(s, a).threads| == |s.threads|
    ensures Apply(s, a).threads[a.t].isLeaf ==> InLeafJob(Apply(s, a).threads[a.t].stack)
  {
    hide Apply, Entering, Leaving;
    StackAfter(s, a);
    FlagsAfter(s, a);
    var st := s.threads[a.t].stack;
    var rest := if Leaving(s, a).Some? then st[..|st| - 1] else st;
    if Entering(s, a).Some? {
      LeafPush(rest, Entering(s, a).value);
    } else {
      assert rest + [] == rest;
    }
  }

  lemma KeepsDepths(s: Pool, a: Action)
    requires DepthsExact(s) && Enabled(s, a)
    ensures DepthsExact(Apply(s, a))
  {
    hide OnStack, InLeafJob, OfFrame;
    if !a.Stop? {
      hide Apply, Entering, Leaving;
      StackAfter(s, a);
      StackDelta(Running, s, a);
      FlagsAfter(s, a);
      LeafAfter(s, a);
    }
  }

  lemma KeepsStarted(s: Pool, a: Action)
    requires AllStarted(s) && Enabled(s, a)
    ensures AllStarted(Apply(s, a))
  {
    var s' := Apply(s, a);
    forall t, k | 0 <= t < |s'.threads| && 0 <= k < |s'.threads[t].stack|
      ensures FrameStarted(s', s'.threads[t].stack[k]) {
      StartedBefore(s, a, t, k);
    }
    forall id | id in s'.finished ensures id in s'.starts {
      FinishedBefore(s, a, id);
    }
  }

  lemma StartedBefore(s: Pool, a: Action, t: nat, k: nat)
    requires AllStarted(s) && Enabled(s, a) && t < |Apply(s, a).threads| && k < |Apply(s, a).threads[t].stack|
    ensures FrameStarted(Apply(s, a), Apply(s, a).threads[t].stack[k])
  {
    StartsAfter(s, a);
    if a.Stop? || t != a.t {
      assert FrameStarted(s, s.threads[t].stack[k]);
    } else {
      StackAfter(s, a);
      if k < |s.threads[t].stack| {
        assert FrameStarted(s, s.threads[t].stack[k]);
      }
      if |s.threads[t].stack| > 0 {
        assert FrameStarted(s, s.threads[t].stack[|s.threads[t].stack| - 1]);
      }
    }
  }

  lemma FinishedBefore(s: Pool, a: Action, id: nat)
    requires AllStarted(s) && Enabled(s, a) && id in Apply(s, a).finished
    ensures id in Apply(s, a).starts
  {
    StartsAfter(s, a);
    JobsDelta(s, a);
    if a.Dec? {
      assert FrameStarted(s, s.threads[a.t].stack[|s.threads[a.t].stack| - 1]);
    }
  }

  lemma KeepsInv(s: Pool, a: Action)
    requires Inv(s) && Enabled(s, a)
    ensures Inv(Apply(s, a))
  {
    hide Apply, Enabled, AllRegistered, CountersExact, ActiveExact, JobsInOnePlace, StartedOnce, AllStarted,
      DepthsExact;
    KeepsRegistered(s, a);
    KeepsCounters(s, a);
    KeepsActive(s, a);
    KeepsJobs(s, a);
    KeepsStarts(s, a);
    KeepsStarted(s, a);
    KeepsDepths(s, a);
  }

  // ---- Runs ----

  lemma {:induction false} NothingYet(m: Measure, ths: seq<Thread>)
    requires m != Workers && forall t :: 0 <= t < |ths| ==> ths[t].stack == [] || ths[t].stack == [Worker]
    ensures OnThreads(m, ths) == 0
    decreases |ths|
  {
    hide OnStack;
    if |ths| > 0 {
      NothingYet(m, ths[..|ths| - 1]);
      IdleStack(m, ths[|ths| - 1].stack);
    }
  }

  lemma IdleStack(m: Measure, st: seq<Frame>)
    requires m != Workers && (st == [] || st == [Worker])
    ensures OnStack(m, st) == 0
  {
    StackPush(m, [], Worker);
    assert [] + [Worker] == [Worker];
  }

  lemma InitInv(s: Pool, clients: nat)
    requires Init(s, clients)
    ensures Inv(s)
  {
    InitStacks(s, clients);
    InitCounts(s, clients);
  }

  lemma InitStacks(s: Pool, clients: nat)
    requires Init(s, clients)
    ensures AllRegistered(s) && AllStarted(s) && DepthsExact(s)
  {
    StackPush(Running, [], Worker);
    assert [] + [Worker] == [Worker];
  }

  lemma InitCounts(s: Pool, clients: nat)
    requires Init(s, clients)
    ensures CountersExact(s) && ActiveExact(s) && JobsInOnePlace(s) && StartedOnce(s)
  {
    hide OnThreads, InQueue;
    forall m: Measure | m != Workers ensures OnThreads(m, s.threads) == 0 && InQueue(m, s.queue) == 0 {
      NothingYet(m, s.threads);
      EmptyQueue(m);
    }
  }

  lemma EmptyQueue(m: Measure)
    ensures InQueue(m, []) == 0
  {
  }

  /** An interleaving: any enabled action of any thread at each step. */
  ghost predicate Run(states: seq<Pool>, actions: seq<Action>, clients: nat) {
    && |states| == |actions| + 1 && Init(states[0], clients)
    && forall i :: 0 <= i < |actions| ==>
      Enabled(states[i], actions[i]) && states[i + 1] == Apply(states[i], actions[i])
  }

  /** In every state of every interleaving the counters, active, depths and places of jobs are exact. */
  lemma {:induction false} RunKeepsInv(states: seq<Pool>, actions: seq<Action>, clients: nat, i: nat)
    requires Run(states, actions, clients) && i < |states|
    ensures Inv(states[i])
    decreases i
  {
    hide Inv, Apply, Enabled, Init;
    if i == 0 {
      InitInv(states[0], clients);
    } else {
      RunKeepsInv(states, actions, clients, i - 1);
      KeepsInv(states[i - 1], actions[i - 1]);
    }
  }

  lemma TopShare(m: Measure, s: Pool, t: nat)
    requires t < |s.threads| && Top(s.threads[t]).Some?
    ensures OfFrame(m, Top(s.threads[t]).value) <= OnStack(m, s.threads[t].stack) <= OnThreads(m, s.threads)
  {
    ThreadsUpdate(m, s.threads, t, s.threads[t]);
  }

  /** No decrement in run or dec goes below zero: the guards on depth and active in Enabled never hold a thread up. */
  lemma NeverBelowZero(s: Pool, t: nat)
    requires Inv(s) && t < |s.threads| && Top(s.threads[t]).Some?
    ensures var f := Top(s.threads[t]).value;
      && (f.Executing? || f.Inline? ==> s.threads[t].depth > 0)
      && (f.Retiring? ==> s.active > 0)
      && (f.Finished? && f.job.waiter.Some? ==> Num(s, f.job.waiter.value) > 0)
  {
    hide OnStack, OnThreads, Num, InQueue;
    var f := Top(s.threads[t]).value;
    TopShare(Running, s, t);
    TopShare(InRun, s, t);
    if f.Finished? && f.job.waiter.Some? {
      var w := f.job.waiter.value;
      TopShare(Counted(w), s, t);
      assert Num(s, w) == InQueue(Counted(w), s.queue) + OnThreads(Counted(w), s.threads);
    }
  }

  /** Where every job of a measure carries the waiter, the waiter's share is no smaller. */
  lemma {:induction false} QueueShare(s: Pool, q: seq<Job>, id: nat, w: nat)
    requires (forall k :: 0 <= k < |q| ==> Registered(s, q[k])) && id < |s.submitted| && s.submitted[id] == Some(w)
    ensures InQueue(Numbered(id), q) <= InQueue(Counted(w), q)
    decreases |q|
  {
    if |q| > 0 {
      QueueShare(s, q[..|q| - 1], id, w);
      assert Registered(s, q[|q| - 1]);
    }
  }

  lemma {:induction false} StackShare(s: Pool, st: seq<Frame>, id: nat, w: nat)
    requires (forall k :: 0 <= k < |st| ==> FrameRegistered(s, st[k])) && id < |s.submitted|
      && s.submitted[id] == Some(w)
    ensures OnStack(Numbered(id), st) <= OnStack(Counted(w), st)
    decreases |st|
  {
    if |st| > 0 {
      StackShare(s, st[..|st| - 1], id, w);
      assert FrameRegistered(s, st[|st| - 1]);
    }
  }

  lemma {:induction false} ThreadsShare(s: Pool, ths: seq<Thread>, id: nat, w: nat)
    requires forall t, k :: 0 <= t < |ths| && 0 <= k < |ths[t].stack| ==> FrameRegistered(s, ths[t].stack[k])
    requires id < |s.submitted| && s.submitted[id] == Some(w)
    ensures OnThreads(Numbered(id), ths) <= OnThreads(Counted(w), ths)
    decreases |ths|
  {
    if |ths| > 0 {
      ThreadsShare(s, ths[..|ths| - 1], id, w);
      StackShare(s, ths[|ths| - 1].stack, id, w);
    }
  }

  /** wait returns only when every job ever counted on its waiter was started, once, and has finished. */
  lemma WaitMeansFinished(s: Pool, t: nat, id: nat)
    requires Inv(s) && Enabled(s, WaitDone(t))
    requires id < |s.submitted| && s.submitted[id] == Some(Top(s.threads[t]).value.waiter)
    ensures id in s.finished && id in s.starts
    ensures forall i, j :: 0 <= i < j < |s.starts| ==> s.starts[i] != s.starts[j]
  {
    hide InQueue, OnThreads, Num;
    var w := Top(s.threads[t]).value.waiter;
    assert Num(s, w) == InQueue(Counted(w), s.queue) + OnThreads(Counted(w), s.threads);
    QueueShare(s, s.queue, id, w);
    ThreadsShare(s, s.threads, id, w);
    assert InQueue(Numbered(id), s.queue) + OnThreads(Numbered(id), s.threads)
      + (if id in s.finished then 1 else 0) == 1;
  }

  /** The same over whole interleavings. */
  lemma WaitReturnsAfterJobs(states: seq<Pool>, actions: seq<Action>, clients: nat, i: nat, id: nat)
    requires Run(states, actions, clients) && i < |actions| && actions[i].WaitDone?
    requires id < |states[i].submitted|
    requires states[i].submitted[id] == Some(Top(states[i].threads[actions[i].t]).value.waiter)
    ensures id in states[i].finished && id in states[i].starts
  {
    hide Inv;
    RunKeepsInv(states, actions, clients, i);
    WaitMeansFinished(states[i], actions[i].t, id);
  }
}
