/**
  The thread pool as atomic steps of enqueuers, workers, stoppers and the
  runtime. A critical section is one step; a notification is a step of its own,
  taken after the lock is released. Tasks are numbered in enqueue order.
 */
module ThreadPool {

  datatype Worker =
    | Ready               // about to take the lock
    | Waiting             // blocked on the condition variable
    | Taken(task: nat)    // holds a task, not yet counted as busy
    | Counted(task: nat)  // counted as busy, task running
    | Done(task: nat)     // task returned, still counted
    | Exited

  datatype Pool = Pool(
    workers: seq<Worker>,
    tasks: seq<nat>,
    stop: bool,
    stopTasks: bool,
    available: int,
    notifyOne: nat,       // enqueuers between unlocking and notify_one
    notifyAll: nat,       // stoppers between unlocking and notify_all
    stoppers: nat,        // callers of stop that have not returned
    pollers: nat,         // callers of stopTasks waiting for idleness
    clearers: nat,        // callers of stopTasks that have seen it
    enqueued: nat,
    taken: seq<nat>,
    finished: set<nat>,
    lastExit: nat)        // tasks enqueued when a worker last exited

  datatype Action =
    | Enqueue | BeginStop | BeginStopTasks
    | WakeOne(w: nat) | WakeNobody | WakeAll | SpuriousWake(w: nat)
    | Enter(w: nat) | Count(w: nat) | RunTask(w: nat) | Release(w: nat)
    | ReturnFromStop | SeeIdle | ReturnFromStopTasks

  function Initial(threads: nat): Pool {
    Pool(seq(threads, _ => Ready), [], false, false, threads, 0, 0, 0, 0, 0, 0, [], {}, 0)
  }

  predicate AllExited(s: Pool) {
    forall w :: 0 <= w < |s.workers| ==> s.workers[w] == Exited
  }

  predicate SomeWaiting(s: Pool) {
    exists w :: 0 <= w < |s.workers| && s.workers[w] == Waiting
  }

  /** Neither blocked nor gone: a worker that will look at the queue again. */
  predicate Awake(w: Worker) {
    w != Waiting && w != Exited
  }

  predicate SomeAwake(s: Pool) {
    exists w :: 0 <= w < |s.workers| && Awake(s.workers[w])
  }

  predicate Enabled(s: Pool, a: Action) {
    match a
    case Enqueue => true
    case BeginStop => true
    case BeginStopTasks => true
    case WakeOne(w) => s.notifyOne > 0 && w < |s.workers| && s.workers[w] == Waiting
    case WakeNobody => s.notifyOne > 0 && !SomeWaiting(s)
    case WakeAll => s.notifyAll > 0
    case SpuriousWake(w) => w < |s.workers| && s.workers[w] == Waiting
    case Enter(w) => w < |s.workers| && s.workers[w] == Ready
    case Count(w) => w < |s.workers| && s.workers[w].Taken?
    case RunTask(w) => w < |s.workers| && s.workers[w].Counted?
    case Release(w) => w < |s.workers| && s.workers[w].Done?
    case ReturnFromStop => s.stoppers > 0 && AllExited(s)
    case SeeIdle => s.pollers > 0 && s.available == |s.workers|
    case ReturnFromStopTasks => s.clearers > 0
  }

  function Set(s: Pool, w: nat, to: Worker): Pool
    requires w < |s.workers|
  {
    s.(workers := s.workers[w := to])
  }

  function WokenUp(w: Worker): Worker {
    if w == Waiting then Ready else w
  }

  function Next(s: Pool, a: Action): Pool
    requires Enabled(s, a)
  {
    match a
    case Enqueue => s.(tasks := s.tasks + [s.enqueued], enqueued := s.enqueued + 1, notifyOne := s.notifyOne + 1)
    case BeginStop => s.(stop := true, stopTasks := true, notifyAll := s.notifyAll + 1, stoppers := s.stoppers + 1)
    case BeginStopTasks => s.(stopTasks := true, pollers := s.pollers + 1)
    case WakeOne(w) => Set(s, w, Ready).(notifyOne := s.notifyOne - 1)
    case WakeNobody => s.(notifyOne := s.notifyOne - 1)
    case WakeAll =>
      s.(workers := seq(|s.workers|, i requires 0 <= i < |s.workers| => WokenUp(s.workers[i])), notifyAll := s.notifyAll - 1)
    case SpuriousWake(w) => Set(s, w, Ready)
    case Enter(w) =>
      if !(s.stop || s.tasks != []) then Set(s, w, Waiting)
      else if s.stop && s.tasks == [] then Set(s, w, Exited).(lastExit := s.enqueued)
      else Set(s, w, Taken(s.tasks[0])).(tasks := s.tasks[1..], taken := s.taken + [s.tasks[0]])
    case Count(w) => Set(s, w, Counted(s.workers[w].task)).(available := s.available - 1)
    case RunTask(w) => Set(s, w, Done(s.workers[w].task)).(finished := s.finished + {s.workers[w].task})
    case Release(w) => Set(s, w, Ready).(available := s.available + 1)
    case ReturnFromStop => s.(stoppers := s.stoppers - 1)
    case SeeIdle => s.(pollers := s.pollers - 1, clearers := s.clearers + 1)
    case ReturnFromStopTasks => s.(stopTasks := false, clearers := s.clearers - 1)
  }

  /** A run: every state follows from the one before by some enabled action. */
  ghost predicate IsRun(run: seq<Pool>, threads: nat) {
    && |run| > 0 && run[0] == Initial(threads)
    && forall i :: 0 <= i < |run| - 1 ==> Follows(run[i], run[i + 1])
  }

  ghost predicate Follows(s: Pool, t: Pool) {
    exists a :: Enabled(s, a) && Next(s, a) == t
  }

  // The invariant.

  function Busy(w: Worker): nat {
    if w.Counted? || w.Done? then 1 else 0
  }

  function CountBusy(ws: seq<Worker>): nat {
    if |ws| == 0 then 0 else CountBusy(ws[..|ws| - 1]) + Busy(ws[|ws| - 1])
  }

  predicate Holds(w: Worker, task: nat) {
    Carries(w) && w.task == task
  }

  /** Enqueue order is kept, and nothing is taken twice. */
  ghost predicate QueueInOrder(s: Pool) {
    s.taken + s.tasks == seq(s.enqueued, i => i)
  }

  predicate Carries(w: Worker) {
    w.Taken? || w.Counted?
  }

  ghost predicate FinishedWereTaken(s: Pool) {
    forall t :: t in s.finished ==> t < |s.taken|
  }

  /** A task carried by a worker was taken, is not finished, and is carried by no other worker. */
  ghost predicate CarriedOnce(s: Pool) {
    CarriedFresh(s) && CarriedApart(s)
  }

  ghost predicate CarriedFresh(s: Pool) {
    forall w :: 0 <= w < |s.workers| && Carries(s.workers[w]) ==>
      s.workers[w].task < |s.taken| && s.workers[w].task !in s.finished
  }

  ghost predicate CarriedApart(s: Pool) {
    forall v, w :: 0 <= v < w < |s.workers| && Carries(s.workers[v]) && Carries(s.workers[w]) ==>
      s.workers[v].task != s.workers[w].task
  }

  /** A task taken and not finished is carried by some worker. */
  ghost predicate NoneDropped(s: Pool) {
    forall t: nat :: t < |s.taken| && t !in s.finished ==> exists w :: 0 <= w < |s.workers| && Holds(s.workers[w], t)
  }

  ghost predicate TakenAccounted(s: Pool) {
    FinishedWereTaken(s) && CarriedOnce(s) && NoneDropped(s)
  }

  /** No wakeup is lost. */
  ghost predicate NoLostWakeup(s: Pool) {
    && (s.tasks != [] && SomeWaiting(s) ==> SomeAwake(s) || s.notifyOne > 0 || s.notifyAll > 0)
    && (s.stop && SomeWaiting(s) ==> s.notifyAll > 0)
  }

  ghost predicate ExitsInOrder(s: Pool) {
    && (forall w :: 0 <= w < |s.workers| && s.workers[w] == Exited ==> s.stop)
    && s.lastExit <= |s.taken| <= s.enqueued
  }

  ghost predicate Inv(s: Pool) {
    && s.available + CountBusy(s.workers) == |s.workers|
    && QueueInOrder(s) && TakenAccounted(s) && NoLostWakeup(s) && ExitsInOrder(s)
  }

  lemma {:induction false} CountUpdate(ws: seq<Worker>, w: nat, x: Worker)
    requires w < |ws|
    ensures CountBusy(ws[w := x]) + Busy(ws[w]) == CountBusy(ws) + Busy(x)
  {
    var n := |ws| - 1;
    if w < n {
      assert ws[w := x][..n] == ws[..n][w := x];
      CountUpdate(ws[..n], w, x);
    } else {
      assert ws[w := x][..n] == ws[..n];
    }
  }

  lemma {:induction false} CountWoken(ws: seq<Worker>, vs: seq<Worker>)
    requires |vs| == |ws| && forall i :: 0 <= i < |ws| ==> vs[i] == WokenUp(ws[i])
    ensures CountBusy(vs) == CountBusy(ws)
  {
    if |ws| > 0 {
      CountWoken(ws[..|ws| - 1], vs[..|ws| - 1]);
    }
  }

  lemma {:induction false} CountReady(n: nat)
    ensures CountBusy(seq(n, _ => Ready)) == 0
  {
    if n > 0 {
      assert seq(n, _ => Ready)[..n - 1] == seq(n - 1, _ => Ready);
      CountReady(n - 1);
    }
  }

  lemma InitialInv(threads: nat)
    ensures Inv(Initial(threads))
  {
    CountReady(threads);
  }

  lemma CounterKept(s: Pool, a: Action)
    requires Enabled(s, a) && s.available + CountBusy(s.workers) == |s.workers|
    ensures var t := Next(s, a); |t.workers| == |s.workers| && t.available + CountBusy(t.workers) == |t.workers|
  {
    match a
    case WakeAll => CountWoken(s.workers, Next(s, a).workers);
    case WakeOne(w) => CountUpdate(s.workers, w, Ready);
    case SpuriousWake(w) => CountUpdate(s.workers, w, Ready);
    case Enter(w) => CountUpdate(s.workers, w, Next(s, a).workers[w]);
    case Count(w) => CountUpdate(s.workers, w, Counted(s.workers[w].task));
    case RunTask(w) => CountUpdate(s.workers, w, Done(s.workers[w].task));
    case Release(w) => CountUpdate(s.workers, w, Ready);
    case _ =>
  }

  lemma QueueKept(s: Pool, a: Action)
    requires Enabled(s, a) && QueueInOrder(s)
    ensures QueueInOrder(Next(s, a)) && |s.taken| + |s.tasks| == s.enqueued
    ensures a.Enter? && s.tasks != [] ==> s.tasks[0] == |s.taken|
  {
    assert |s.taken + s.tasks| == s.enqueued;
    if a.Enter? && s.tasks != [] {
      assert (s.taken + s.tasks)[|s.taken|] == s.tasks[0];
      assert s.taken + [s.tasks[0]] + s.tasks[1..] == s.taken + s.tasks;
    } else if a.Enqueue? {
      assert s.taken + (s.tasks + [s.enqueued]) == (s.taken + s.tasks) + [s.enqueued];
    }
  }

  lemma CarriedKept(s: Pool, a: Action)
    requires Enabled(s, a) && FinishedWereTaken(s) && CarriedOnce(s)
    requires a.Enter? && s.tasks != [] ==> s.tasks[0] == |s.taken|
    ensures FinishedWereTaken(Next(s, a)) && CarriedOnce(Next(s, a))
  {
    FreshKept(s, a);
    ApartKept(s, a);
    hide CarriedFresh, CarriedApart;
  }

  lemma FreshKept(s: Pool, a: Action)
    requires Enabled(s, a) && FinishedWereTaken(s) && CarriedOnce(s)
    requires a.Enter? && s.tasks != [] ==> s.tasks[0] == |s.taken|
    ensures CarriedFresh(Next(s, a))
  {
  }

  lemma ApartKept(s: Pool, a: Action)
    requires Enabled(s, a) && CarriedOnce(s)
    requires a.Enter? && s.tasks != [] ==> s.tasks[0] == |s.taken|
    ensures CarriedApart(Next(s, a))
  {
  }

  lemma DroppedKept(s: Pool, a: Action)
    requires Enabled(s, a) && NoneDropped(s)
    requires a.Enter? && s.tasks != [] ==> s.tasks[0] == |s.taken|
    ensures NoneDropped(Next(s, a))
  {
    var t := Next(s, a);
    forall k: nat | k < |t.taken| && k !in t.finished
      ensures exists w :: 0 <= w < |t.workers| && Holds(t.workers[w], k)
    {
      if k < |s.taken| {
        var w :| 0 <= w < |s.workers| && Holds(s.workers[w], k);
        assert Holds(t.workers[w], k);
      } else {
        assert Holds(t.workers[a.w], k);
      }
    }
  }

  lemma TakenKept(s: Pool, a: Action)
    requires Enabled(s, a) && QueueInOrder(s) && TakenAccounted(s)
    ensures TakenAccounted(Next(s, a))
  {
    hide Next, QueueInOrder;
    QueueKept(s, a);
    CarriedKept(s, a);
    DroppedKept(s, a);
  }

  lemma WakeupKept(s: Pool, a: Action)
    requires Enabled(s, a) && NoLostWakeup(s) && ExitsInOrder(s)
    ensures NoLostWakeup(Next(s, a))
  {
    var t := Next(s, a);
    if SomeWaiting(t) {
      var w :| 0 <= w < |t.workers| && t.workers[w] == Waiting;
      match a
      case WakeOne(v) => assert Awake(t.workers[v]);
      case SpuriousWake(v) => assert Awake(t.workers[v]);
      case Count(v) => assert Awake(t.workers[v]);
      case RunTask(v) => assert Awake(t.workers[v]);
      case Release(v) => assert Awake(t.workers[v]);
      case Enter(v) => assert s.tasks != [] ==> Awake(t.workers[v]);
      case _ =>
    }
  }

  lemma ExitsKept(s: Pool, a: Action)
    requires Enabled(s, a) && ExitsInOrder(s) && QueueInOrder(s)
    ensures ExitsInOrder(Next(s, a))
  {
    QueueKept(s, a);
  }

  lemma InvKept(s: Pool, a: Action)
    requires Enabled(s, a) && Inv(s)
    ensures Inv(Next(s, a))
  {
    hide Next, QueueInOrder, TakenAccounted, NoLostWakeup, ExitsInOrder;
    CounterKept(s, a);
    QueueKept(s, a);
    TakenKept(s, a);
    WakeupKept(s, a);
    ExitsKept(s, a);
  }

  /** The invariant holds in every state of every run. */
  lemma {:induction false} InvAlways(run: seq<Pool>, threads: nat, i: nat)
    requires IsRun(run, threads) && i < |run|
    ensures Inv(run[i]) && |run[i].workers| == threads
  {
    hide Inv;
    if i == 0 {
      InitialInv(threads);
    } else {
      InvAlways(run, threads, i - 1);
      assert Follows(run[i - 1], run[i - 1 + 1]);
      var a :| Enabled(run[i - 1], a) && Next(run[i - 1], a) == run[i];
      InvKept(run[i - 1], a);
      WorkersKept(run[i - 1], a);
    }
  }

  lemma WorkersKept(s: Pool, a: Action)
    requires Enabled(s, a)
    ensures |Next(s, a).workers| == |s.workers|
  {
  }

  // What the invariant says.

  /** Tasks are taken in the order they were enqueued, each at most once. */
  lemma TakenInOrder(run: seq<Pool>, threads: nat, i: nat)
    requires IsRun(run, threads) && i < |run|
    ensures |run[i].taken| <= run[i].enqueued && forall k :: 0 <= k < |run[i].taken| ==> run[i].taken[k] == k
    ensures forall k :: 0 <= k < |run[i].tasks| ==> run[i].tasks[k] == |run[i].taken| + k
  {
    InvAlways(run, threads, i);
    var s := run[i];
    assert |s.taken + s.tasks| == s.enqueued;
    forall k | 0 <= k < |s.taken| ensures s.taken[k] == k {
      assert (s.taken + s.tasks)[k] == k;
    }
    forall k | 0 <= k < |s.tasks| ensures s.tasks[k] == |s.taken| + k {
      assert (s.taken + s.tasks)[|s.taken| + k] == s.tasks[k];
    }
  }

  /** While the queue holds a task, a worker is awake or a notification is
      still to come, unless every worker has exited. */
  lemma WakeupToCome(run: seq<Pool>, threads: nat, i: nat)
    requires IsRun(run, threads) && i < |run| && run[i].tasks != [] && !AllExited(run[i])
    ensures SomeAwake(run[i]) || run[i].notifyOne > 0 || run[i].notifyAll > 0
  {
    InvAlways(run, threads, i);
    var w :| 0 <= w < |run[i].workers| && run[i].workers[w] != Exited;
    assert Awake(run[i].workers[w]) || run[i].workers[w] == Waiting;
  }

  lemma {:induction false} BusyBound(ws: seq<Worker>, w: nat)
    requires w < |ws|
    ensures Busy(ws[w]) <= CountBusy(ws)
  {
    if w < |ws| - 1 {
      BusyBound(ws[..|ws| - 1], w);
    }
  }

  /** When `stopTasks` sees the counter full, no counted worker is running. */
  lemma IdleWhenSeen(run: seq<Pool>, threads: nat, i: nat, w: nat)
    requires IsRun(run, threads) && i < |run| && Enabled(run[i], SeeIdle) && w < |run[i].workers|
    ensures Busy(run[i].workers[w]) == 0
  {
    InvAlways(run, threads, i);
    BusyBound(run[i].workers, w);
  }

  /** A task popped but not yet counted escapes `stopTasks`: here it sees the
      pool idle while worker 0 is about to run task 0. */
  lemma PoppedTaskEscapes()
    ensures var s0 := Initial(1);
      && Enabled(s0, Enqueue) && var s1 := Next(s0, Enqueue);
         Enabled(s1, Enter(0)) && var s2 := Next(s1, Enter(0));
         Enabled(s2, BeginStopTasks) && var s3 := Next(s2, BeginStopTasks);
         Enabled(s3, SeeIdle) && Next(s3, SeeIdle).workers[0] == Taken(0)
  {
  }

  /** When all workers have exited, and so when `stop` returns, every task
      enqueued before the last exit has finished. */
  lemma FinishedAtExit(run: seq<Pool>, threads: nat, i: nat, task: nat)
    requires IsRun(run, threads) && i < |run| && AllExited(run[i]) && task < run[i].lastExit
    ensures task in run[i].finished
  {
    InvAlways(run, threads, i);
    assert forall w :: 0 <= w < |run[i].workers| ==> !Holds(run[i].workers[w], task);
  }

  // Progress.

  /** The steps the pool takes by itself: workers and pending notifications. */
  predicate Internal(a: Action) {
    a.WakeOne? || a.WakeNobody? || a.WakeAll? || a.Enter? || a.Count? || a.RunTask? || a.Release?
  }

  /** Nothing can stall: with no internal step left, all workers have exited, or
      all wait, the queue is empty and every enqueued task has finished. */
  lemma Quiescent(run: seq<Pool>, threads: nat, i: nat)
    requires IsRun(run, threads) && i < |run|
    requires forall a :: Internal(a) ==> !Enabled(run[i], a)
    ensures AllExited(run[i]) || (run[i].tasks == [] && !run[i].stop && run[i].available == threads)
    ensures AllExited(run[i]) || EveryTaskFinished(run[i])
    ensures forall w :: 0 <= w < |run[i].workers| ==> run[i].workers[w] == if run[i].stop then Exited else Waiting
  {
    InvAlways(run, threads, i);
    var s := run[i];
    assert !Enabled(s, WakeAll) && !Enabled(s, WakeNobody);
    forall w | 0 <= w < |s.workers| ensures s.workers[w] == Waiting || s.workers[w] == Exited {
      assert !Enabled(s, Enter(w)) && !Enabled(s, Count(w)) && !Enabled(s, RunTask(w)) && !Enabled(s, Release(w));
    }
    if SomeWaiting(s) {
      var v :| 0 <= v < |s.workers| && s.workers[v] == Waiting;
      assert !Enabled(s, WakeOne(v));
    }
    NoneBusy(s.workers);
    if !AllExited(s) {
      AllFinished(run, threads, i);
    }
  }

  ghost predicate EveryTaskFinished(s: Pool) {
    forall t: nat :: t in s.finished <==> t < s.enqueued
  }

  lemma AllFinished(run: seq<Pool>, threads: nat, i: nat)
    requires IsRun(run, threads) && i < |run| && run[i].tasks == []
    requires forall w :: 0 <= w < |run[i].workers| ==> !Carries(run[i].workers[w])
    ensures EveryTaskFinished(run[i])
  {
    InvAlways(run, threads, i);
    var s := run[i];
    assert |s.taken + s.tasks| == s.enqueued;
    forall t: nat | t < |s.taken| ensures t in s.finished {
      assert forall w :: 0 <= w < |s.workers| ==> !Holds(s.workers[w], t);
    }
  }

  lemma {:induction false} NoneBusy(ws: seq<Worker>)
    requires forall w :: 0 <= w < |ws| ==> Busy(ws[w]) == 0
    ensures CountBusy(ws) == 0
  {
    if |ws| > 0 {
      NoneBusy(ws[..|ws| - 1]);
    }
  }

  /** Steps a worker can take at most without a new task or notification. */
  function Remaining(w: Worker): nat {
    match w
    case Taken(_) => 4
    case Counted(_) => 3
    case Done(_) => 2
    case Ready => 1
    case Waiting => 0
    case Exited => 0
  }

  function TotalRemaining(ws: seq<Worker>): nat {
    if |ws| == 0 then 0 else TotalRemaining(ws[..|ws| - 1]) + Remaining(ws[|ws| - 1])
  }

  /** An upper bound on the internal steps left: a queued task costs five, a
      notification wakes one worker or all of them. */
  function Work(s: Pool): nat {
    TotalRemaining(s.workers) + 5 * |s.tasks| + 2 * s.notifyOne + WakeAllWork(|s.workers|, s.notifyAll)
  }

  function WakeAllWork(workers: nat, notifyAll: nat): nat {
    (workers + 1) * notifyAll
  }

  lemma {:induction false} RemainingUpdate(ws: seq<Worker>, w: nat, x: Worker)
    requires w < |ws|
    ensures TotalRemaining(ws[w := x]) + Remaining(ws[w]) == TotalRemaining(ws) + Remaining(x)
  {
    var n := |ws| - 1;
    if w < n {
      assert ws[w := x][..n] == ws[..n][w := x];
      RemainingUpdate(ws[..n], w, x);
    } else {
      assert ws[w := x][..n] == ws[..n];
    }
  }

  lemma {:induction false} RemainingWoken(ws: seq<Worker>, vs: seq<Worker>)
    requires |vs| == |ws| && forall i :: 0 <= i < |ws| ==> vs[i] == WokenUp(ws[i])
    ensures TotalRemaining(vs) <= TotalRemaining(ws) + |ws|
  {
    if |ws| > 0 {
      RemainingWoken(ws[..|ws| - 1], vs[..|ws| - 1]);
    }
  }

  lemma OneWakeAll(workers: nat, notifyAll: nat)
    requires notifyAll > 0
    ensures WakeAllWork(workers, notifyAll) == WakeAllWork(workers, notifyAll - 1) + workers + 1
  {
  }

  /** Every internal step uses up work. */
  lemma WorkShrinks(s: Pool, a: Action)
    requires Internal(a) && Enabled(s, a)
    ensures Work(Next(s, a)) < Work(s) && Next(s, a).stop == s.stop
  {
    hide WakeAllWork;
    match a
    case WakeAll =>
      RemainingWoken(s.workers, Next(s, a).workers);
      OneWakeAll(|s.workers|, s.notifyAll);
    case WakeOne(w) => RemainingUpdate(s.workers, w, Ready);
    case WakeNobody =>
    case _ => WorkerStepShrinks(s, a);
  }

  lemma WorkerStepShrinks(s: Pool, a: Action)
    requires (a.Enter? || a.Count? || a.RunTask? || a.Release?) && Enabled(s, a)
    ensures Work(Next(s, a)) < Work(s) && Next(s, a).stop == s.stop
  {
    hide WakeAllWork, TotalRemaining;
    RemainingUpdate(s.workers, a.w, Next(s, a).workers[a.w]);
  }

  /** After `stop` every internal step uses up work, so the pool drains: it
      cannot run on, and it cannot rest before all workers have exited. */
  lemma StopDrains(run: seq<Pool>, threads: nat, i: nat)
    requires IsRun(run, threads) && i < |run| && run[i].stop
    ensures forall a :: Internal(a) && Enabled(run[i], a) ==> Work(Next(run[i], a)) < Work(run[i]) && Next(run[i], a).stop
    ensures !AllExited(run[i]) ==> exists a :: Internal(a) && Enabled(run[i], a)
  {
    forall a | Internal(a) && Enabled(run[i], a) ensures Work(Next(run[i], a)) < Work(run[i]) && Next(run[i], a).stop {
      WorkShrinks(run[i], a);
    }
    if !AllExited(run[i]) && forall a :: Internal(a) ==> !Enabled(run[i], a) {
      Quiescent(run, threads, i);
    }
  }

  ghost predicate LeadsTo(s: Pool, t: Pool, allowed: Action -> bool) {
    exists a :: allowed(a) && Enabled(s, a) && Next(s, a) == t
  }

  ghost predicate OnlySteps(path: seq<Pool>, from: nat, allowed: Action -> bool) {
    forall i :: from <= i < |path| - 1 ==> LeadsTo(path[i], path[i + 1], allowed)
  }

  /** Left to itself the pool settles: as many internal steps as there is work
      are enough, and it comes to rest with every task finished or every worker
      exited. `run` is any run whose steps behind `i` are all internal. */
  lemma {:induction false} Settles(run: seq<Pool>, threads: nat, i: nat)
    requires IsRun(run, threads) && i < |run| && OnlySteps(run, i, Internal)
    ensures |run| - 1 - i <= Work(run[i])
    ensures var last := run[|run| - 1];
      || (exists a :: Internal(a) && Enabled(last, a))
      || AllExited(last)
      || (last.tasks == [] && EveryTaskFinished(last))
    decreases |run| - i
  {
    hide Next, Enabled, Work;
    if i == |run| - 1 {
      if forall a :: Internal(a) ==> !Enabled(run[i], a) {
        Quiescent(run, threads, i);
      }
    } else {
      assert LeadsTo(run[i], run[i + 1], Internal);
      var a :| Internal(a) && Enabled(run[i], a) && Next(run[i], a) == run[i + 1];
      WorkShrinks(run[i], a);
      Settles(run, threads, i + 1);
    }
  }

  // Tasks that `stopTasks` does not see.

  /** Everything but new tasks, and spurious wakeups only where asked for. */
  function WithoutTasks(spurious: bool): Action -> bool {
    (a: Action) => !a.Enqueue? && (spurious || !a.SpuriousWake?)
  }

  predicate SomeTaken(s: Pool) {
    exists w :: 0 <= w < |s.workers| && s.workers[w].Taken?
  }

  /** Some worker holds a task it has not been counted for, or may still take one. */
  predicate MayEscape(s: Pool) {
    SomeTaken(s) || (s.tasks != [] && !AllExited(s))
  }

  /** The wait of `stopTasks` can end while a popped task is about to run. */
  ghost predicate Escapes(s: Pool, path: seq<Pool>, spurious: bool) {
    && |path| > 0 && path[0] == s && OnlySteps(path, 0, WithoutTasks(spurious))
    && Enabled(path[|path| - 1], SeeIdle) && SomeTaken(path[|path| - 1])
  }

  /** Without a queued task that some worker can take, none becomes taken. */
  lemma EscapeNeeds(s: Pool, a: Action)
    requires !a.Enqueue? && Enabled(s, a) && MayEscape(Next(s, a))
    ensures MayEscape(s)
  {
    var t := Next(s, a);
    if SomeTaken(t) {
      var v :| 0 <= v < |t.workers| && t.workers[v].Taken?;
      if !s.workers[v].Taken? {
        assert s.workers[v] != Exited;
      }
    } else {
      var v :| 0 <= v < |t.workers| && t.workers[v] != Exited;
      assert s.workers[v] != Exited;
    }
  }

  lemma {:induction false} EscapeNeedsAlways(path: seq<Pool>, spurious: bool, i: nat)
    requires OnlySteps(path, 0, WithoutTasks(spurious)) && i < |path| && MayEscape(path[i])
    ensures MayEscape(path[0])
  {
    hide MayEscape, Next, Enabled;
    if i > 0 {
      var allowed := WithoutTasks(spurious);
      assert LeadsTo(path[i - 1], path[i - 1 + 1], allowed);
      var a :| allowed(a) && Enabled(path[i - 1], a) && Next(path[i - 1], a) == path[i];
      EscapeNeeds(path[i - 1], a);
      EscapeNeedsAlways(path, spurious, i - 1);
    }
  }

  /** A worker that is counted as busy takes its next step. */
  function ReleaseStep(s: Pool, w: nat): Action
    requires w < |s.workers|
  {
    if s.workers[w].Counted? then RunTask(w) else Release(w)
  }

  /** One step towards the escape: busy workers are released first, then a
      waiting worker is woken. */
  lemma EscapeStep(s: Pool) returns (a: Action)
    requires Inv(s) && s.pollers > 0 && MayEscape(s) && !(Enabled(s, SeeIdle) && SomeTaken(s))
    ensures Internal(a) && Enabled(s, a) && MayEscape(Next(s, a)) && Next(s, a).pollers > 0
  {
    if w :| 0 <= w < |s.workers| && Busy(s.workers[w]) > 0 {
      a := ReleaseStep(s, w);
      if SomeTaken(s) {
        var v :| 0 <= v < |s.workers| && s.workers[v].Taken?;
        assert Next(s, a).workers[v].Taken?;
      } else {
        assert Next(s, a).workers[w] != Exited;
      }
    } else {
      NoneBusy(s.workers);
      assert !SomeTaken(s);
      a := WakeStep(s);
    }
  }

  lemma WakeStep(s: Pool) returns (a: Action)
    requires NoLostWakeup(s) && s.pollers > 0 && s.tasks != [] && !AllExited(s) && !SomeTaken(s)
    requires forall w :: 0 <= w < |s.workers| ==> Busy(s.workers[w]) == 0
    ensures Internal(a) && Enabled(s, a) && MayEscape(Next(s, a)) && Next(s, a).pollers > 0
  {
    if w :| 0 <= w < |s.workers| && s.workers[w] == Ready {
      a := Enter(w);
      assert Next(s, a).workers[w].Taken?;
    } else {
      assert !SomeAwake(s);
      var w :| 0 <= w < |s.workers| && s.workers[w] != Exited;
      assert s.workers[w] == Waiting;
      a := if s.notifyOne > 0 then WakeOne(w) else WakeAll;
      assert Next(s, a).workers[w] == Ready;
    }
  }

  /** A path with one more step in front. */
  lemma StepFirst(s: Pool, a: Action, rest: seq<Pool>, allowed: Action -> bool)
    requires allowed(a) && Enabled(s, a) && |rest| > 0 && rest[0] == Next(s, a) && OnlySteps(rest, 0, allowed)
    ensures OnlySteps([s] + rest, 0, allowed)
  {
    hide Next, Enabled;
    var path := [s] + rest;
    forall i | 0 <= i < |path| - 1 ensures LeadsTo(path[i], path[i + 1], allowed) {
      if i > 0 {
        assert LeadsTo(rest[i - 1], rest[i - 1 + 1], allowed);
      }
    }
  }

  lemma {:induction false} EscapeReached(s: Pool, spurious: bool) returns (path: seq<Pool>)
    requires Inv(s) && s.pollers > 0 && MayEscape(s)
    ensures Escapes(s, path, spurious)
    decreases Work(s)
  {
    hide Inv, Next, Work, MayEscape;
    if Enabled(s, SeeIdle) && SomeTaken(s) {
      path := [s];
    } else {
      var a := EscapeStep(s);
      InvKept(s, a);
      WorkShrinks(s, a);
      var rest := EscapeReached(Next(s, a), spurious);
      StepFirst(s, a, rest, WithoutTasks(spurious));
      path := [s] + rest;
    }
  }

  /** While `stopTasks` waits, and nothing is enqueued, its wait can end with a
      popped task about to run exactly when such a task is held already, or one
      is queued and some worker has not exited; spurious wakeups do not matter. */
  lemma EscapesExactly(run: seq<Pool>, threads: nat, i: nat, spurious: bool)
    requires IsRun(run, threads) && i < |run| && run[i].pollers > 0
    ensures (exists path :: Escapes(run[i], path, spurious)) <==> MayEscape(run[i])
  {
    hide Inv, MayEscape, Next, Enabled;
    if MayEscape(run[i]) {
      InvAlways(run, threads, i);
      var path := EscapeReached(run[i], spurious);
      assert Escapes(run[i], path, spurious);
    } else if path :| Escapes(run[i], path, spurious) {
      TakenMayEscape(path[|path| - 1]);
      EscapeNeedsAlways(path, spurious, |path| - 1);
    }
  }

  lemma TakenMayEscape(s: Pool)
    requires SomeTaken(s)
    ensures MayEscape(s)
  {
  }

  // The flag that the tasks read.

  /** `stop` and `stopTasks` raise the flag, a returning `stopTasks` takes it
      down, and nothing else touches it. */
  lemma FlagChanges(s: Pool, a: Action)
    requires Enabled(s, a)
    ensures Next(s, a).stopTasks == if a.BeginStop? || a.BeginStopTasks? then true else if a.ReturnFromStopTasks? then false else s.stopTasks
  {
  }

  predicate NoClearing(a: Action) {
    !a.ReturnFromStopTasks?
  }

  /** Once raised the flag is up until some caller of `stopTasks` returns. */
  lemma {:induction false} FlagStaysUp(path: seq<Pool>, i: nat)
    requires OnlySteps(path, 0, NoClearing) && i < |path| && path[0].stopTasks
    ensures path[i].stopTasks
  {
    hide Next, Enabled;
    if i > 0 {
      FlagStaysUp(path, i - 1);
      assert LeadsTo(path[i - 1], path[i - 1 + 1], NoClearing);
      var a :| NoClearing(a) && Enabled(path[i - 1], a) && Next(path[i - 1], a) == path[i];
      FlagChanges(path[i - 1], a);
    }
  }

  // Callers of `stopTasks` that clear each other's flag.

  /** Steps other than new calls of `enqueue`, `stop` and `stopTasks`. */
  predicate NoNewCall(a: Action) {
    !a.Enqueue? && !a.BeginStop? && !a.BeginStopTasks?
  }

  /** The flag is down, or another caller is there to take it down. */
  predicate MayLoseFlag(s: Pool) {
    !s.stopTasks || s.clearers > 0 || s.pollers >= 2
  }

  /** A caller of `stopTasks` can still be waiting when the flag is down. */
  ghost predicate LosesFlag(s: Pool, path: seq<Pool>) {
    && |path| > 0 && path[0] == s && OnlySteps(path, 0, NoNewCall)
    && path[|path| - 1].pollers > 0 && !path[|path| - 1].stopTasks
  }

  lemma FlagNeeds(s: Pool, a: Action)
    requires NoNewCall(a) && Enabled(s, a) && Next(s, a).pollers > 0 && MayLoseFlag(Next(s, a))
    ensures s.pollers > 0 && MayLoseFlag(s)
  {
  }

  lemma {:induction false} FlagNeedsAlways(path: seq<Pool>, i: nat)
    requires OnlySteps(path, 0, NoNewCall) && i < |path| && path[i].pollers > 0 && MayLoseFlag(path[i])
    ensures MayLoseFlag(path[0])
  {
    hide MayLoseFlag, Next, Enabled, NoNewCall;
    if i > 0 {
      assert LeadsTo(path[i - 1], path[i - 1 + 1], NoNewCall);
      var a :| NoNewCall(a) && Enabled(path[i - 1], a) && Next(path[i - 1], a) == path[i];
      FlagNeeds(path[i - 1], a);
      FlagNeedsAlways(path, i - 1);
    }
  }

  /** One step towards a caller that takes the flag down and returns. */
  lemma FlagStep(s: Pool) returns (a: Action)
    requires Inv(s) && s.pollers > 0 && s.stopTasks && MayLoseFlag(s)
    ensures NoNewCall(a) && Enabled(s, a) && Next(s, a).pollers > 0 && MayLoseFlag(Next(s, a))
    ensures a == ReturnFromStopTasks || a == SeeIdle || Internal(a)
    ensures a == ReturnFromStopTasks ==> !Next(s, a).stopTasks
    ensures a == SeeIdle ==> Next(s, a).clearers > 0 && Next(s, a).stopTasks
    ensures Internal(a) ==> s.clearers == 0
    ensures a == SeeIdle ==> s.clearers == 0
  {
    if s.clearers > 0 {
      a := ReturnFromStopTasks;
    } else if w :| 0 <= w < |s.workers| && Busy(s.workers[w]) > 0 {
      a := ReleaseStep(s, w);
    } else {
      NoneBusy(s.workers);
      a := SeeIdle;
    }
  }

  lemma {:induction false} FlagLost(s: Pool) returns (path: seq<Pool>)
    requires Inv(s) && s.pollers > 0 && MayLoseFlag(s)
    ensures LosesFlag(s, path)
    decreases s.stopTasks, s.clearers == 0, Work(s)
  {
    hide Inv, Next, Work, MayLoseFlag, Enabled;
    if !s.stopTasks {
      path := [s];
    } else {
      var a := FlagStep(s);
      InvKept(s, a);
      if Internal(a) {
        WorkShrinks(s, a);
        CallersKept(s, a);
      }
      var rest := FlagLost(Next(s, a));
      StepFirst(s, a, rest, NoNewCall);
      path := [s] + rest;
    }
  }

  lemma CallersKept(s: Pool, a: Action)
    requires Internal(a) && Enabled(s, a)
    ensures Next(s, a).stopTasks == s.stopTasks && Next(s, a).clearers == s.clearers
  {
  }

  /** While a caller of `stopTasks` waits, and no new calls are made, it can find
      its flag taken down exactly when it is down already or another caller of
      `stopTasks` has not returned; a sole caller keeps it up. */
  lemma FlagLostExactly(run: seq<Pool>, threads: nat, i: nat)
    requires IsRun(run, threads) && i < |run| && run[i].pollers > 0
    ensures (exists path :: LosesFlag(run[i], path)) <==> MayLoseFlag(run[i])
  {
    hide Inv, Next, Enabled;
    if MayLoseFlag(run[i]) {
      InvAlways(run, threads, i);
      var path := FlagLost(run[i]);
      assert LosesFlag(run[i], path);
    } else if path :| LosesFlag(run[i], path) {
      FlagNeedsAlways(path, |path| - 1);
    }
  }
}
