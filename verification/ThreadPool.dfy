/** The thread pool without pause or priority: workers, submitters, `wait`, `purge` and `reset` as
    atomic steps. A critical section under `tasks_mutex` is one step; a thread inside a condition
    variable is asleep until a notification (or a spurious wake-up) makes it compete for the mutex. */
module ThreadPool {

  /** Tasks are numbered in the order in which they are detached. */
  type TaskId = nat

  datatype Worker =
    | Starting                 // thread created, before its first critical section
    | Executing(task: TaskId)  // inside `task()`
    | Finished                 // the task returned, before the next critical section
    | Sleeping                 // in `task_available_cv.wait`, not notified
    | Notified                 // woken, before it has the mutex again
    | Exited

  /** A thread that calls `wait` or `reset`. `Returned(upTo)`: its last `wait` returned when `upTo`
      tasks had been detached. `reset` is a `wait` followed by stopping and replacing the workers. */
  datatype Caller =
    | Idle
    | Asleep(reset: bool, threads: nat)
    | Woken(reset: bool, threads: nat)
    | Stopping(upTo: nat, threads: nat)
    | Returned(upTo: nat)

  datatype Pool = Pool(tasks: seq<TaskId>, running: int, waiting: bool,
                       workers: seq<Worker>, stop: seq<bool>, callers: seq<Caller>,
                       owed: nat, detached: nat, finished: multiset<TaskId>, purged: multiset<TaskId>)

  /** `owed` counts submitters between the unlock and the `notify_one` of `detach_task`. */
  datatype Action =
    | Detach
    | Notify(worker: nat)
    | Section(worker: nat)
    | Wake(worker: nat)
    | EndTask(worker: nat)
    | Wait(caller: nat, reset: bool, threads: nat)
    | WaitWake(caller: nat)
    | StopWorker(worker: nat)
    | Recreate(caller: nat)
    | Purge
    | SpuriousWorker(worker: nat)
    | SpuriousCaller(caller: nat)

  function Created(threads: nat, callers: nat): Pool {
    Pool([], threads, false, seq(threads, _ => Starting), seq(threads, _ => false), seq(callers, _ => Idle),
         0, 0, multiset{}, multiset{})
  }

  predicate WaitDone(p: Pool) {
    p.running == 0 && p.tasks == []
  }

  function WakeAll(callers: seq<Caller>): (r: seq<Caller>)
    ensures |r| == |callers|
  {
    seq(|callers|, i requires 0 <= i < |callers| =>
      if callers[i].Asleep? then Woken(callers[i].reset, callers[i].threads) else callers[i])
  }

  /** From the `wait` on `task_available_cv` on, with the mutex: leave, take the next task, or sleep. */
  function TakeOrSleep(p: Pool, i: nat): Pool
    requires i < |p.workers| == |p.stop|
  {
    if p.stop[i] then p.(workers := p.workers[i := Exited])
    else if p.tasks != [] then
      p.(workers := p.workers[i := Executing(p.tasks[0])], tasks := p.tasks[1..], running := p.running + 1)
    else p.(workers := p.workers[i := Sleeping])
  }

  /** The worker's critical section: count itself out, tell waiters when all is done, wait for work. */
  function WorkerSection(p: Pool, i: nat): Pool
    requires i < |p.workers| == |p.stop|
  {
    TakeOrSleep(CountedOut(p), i)
  }

  function CountedOut(p: Pool): Pool {
    var q := p.(running := p.running - 1);
    if q.waiting && WaitDone(q) then q.(callers := WakeAll(q.callers)) else q
  }

  /** The predicate of `wait`, with the mutex: return, or sleep. */
  function CheckDone(p: Pool, c: nat, reset: bool, threads: nat): Pool
    requires c < |p.callers|
  {
    if WaitDone(p) then
      p.(waiting := false,
         callers := p.callers[c := if reset then Stopping(p.detached, threads) else Returned(p.detached)])
    else p.(callers := p.callers[c := Asleep(reset, threads)])
  }

  predicate InReset(c: Caller) {
    c.Stopping? || ((c.Asleep? || c.Woken?) && c.reset)
  }

  predicate InWait(c: Caller) {
    c.Asleep? || c.Woken?
  }

  /** The action can take place. A second `reset` must not start during the first. */
  predicate Enabled(p: Pool, a: Action) {
    && |p.workers| == |p.stop|
    && match a
       case Detach => true
       case Notify(i) => p.owed > 0 && ((i < |p.workers| && p.workers[i].Sleeping?)
                                        || (forall j :: 0 <= j < |p.workers| ==> !p.workers[j].Sleeping?))
       case Section(i) => i < |p.workers| && (p.workers[i].Starting? || p.workers[i].Finished?)
       case Wake(i) => i < |p.workers| && p.workers[i].Notified?
       case EndTask(i) => i < |p.workers| && p.workers[i].Executing?
       case Wait(c, reset, threads) =>
         && c < |p.callers| && (p.callers[c].Idle? || p.callers[c].Returned?)
         && threads >= 1
         && (reset ==> forall j :: 0 <= j < |p.callers| ==> !InReset(p.callers[j]))
       case WaitWake(c) => c < |p.callers| && p.callers[c].Woken?
       case StopWorker(i) => i < |p.workers| && !p.stop[i] && exists c :: 0 <= c < |p.callers| && p.callers[c].Stopping?
       case Recreate(c) => c < |p.callers| && p.callers[c].Stopping?
                           && forall j :: 0 <= j < |p.workers| ==> p.workers[j].Exited?
       case Purge => true
       case SpuriousWorker(i) => i < |p.workers| && p.workers[i].Sleeping?
       case SpuriousCaller(c) => c < |p.callers| && p.callers[c].Asleep?
  }

  function WakeWorker(workers: seq<Worker>, i: nat): (r: seq<Worker>)
    ensures |r| == |workers|
  {
    if i < |workers| && workers[i].Sleeping? then workers[i := Notified] else workers
  }

  function Step(p: Pool, a: Action): Pool
    requires Enabled(p, a)
  {
    match a
    case Detach => p.(tasks := p.tasks + [p.detached], detached := p.detached + 1, owed := p.owed + 1)
    case Notify(i) => p.(owed := p.owed - 1, workers := WakeWorker(p.workers, i))
    case Section(i) => WorkerSection(p, i)
    case Wake(i) => TakeOrSleep(p, i)
    case EndTask(i) => p.(finished := p.finished + multiset{p.workers[i].task}, workers := p.workers[i := Finished])
    case Wait(c, reset, threads) => CheckDone(p.(waiting := true), c, reset, threads)
    case WaitWake(c) => CheckDone(p, c, p.callers[c].reset, p.callers[c].threads)
    case StopWorker(i) => p.(stop := p.stop[i := true], workers := WakeWorker(p.workers, i))
    case Recreate(c) =>
      var n := p.callers[c].threads;
      p.(running := n, workers := seq(n, _ => Starting), stop := seq(n, _ => false),
         callers := p.callers[c := Returned(p.callers[c].upTo)])
    case Purge => p.(purged := p.purged + multiset(p.tasks), tasks := [])
    case SpuriousWorker(i) => p.(workers := WakeWorker(p.workers, i))
    case SpuriousCaller(c) => p.(callers := p.callers[c := Woken(p.callers[c].reset, p.callers[c].threads)])
  }

  /** A run: every action in it can take place when its turn comes. */
  ghost predicate IsRun(p: Pool, actions: seq<Action>)
    decreases |actions|
  {
    actions != [] ==> Enabled(p, actions[0]) && IsRun(Step(p, actions[0]), actions[1..])
  }

  ghost function Run(p: Pool, actions: seq<Action>): Pool
    requires IsRun(p, actions)
    decreases |actions|
  {
    if actions == [] then p else Run(Step(p, actions[0]), actions[1..])
  }

  // ---------------------------------------------------------------------------------------------
  // Conservation and the soundness of `wait`
  // ---------------------------------------------------------------------------------------------

  predicate Busy(w: Worker) {
    w.Starting? || w.Executing? || w.Finished?
  }

  function BusyCount(workers: seq<Worker>): nat {
    if workers == [] then 0 else (if Busy(workers[0]) then 1 else 0) + BusyCount(workers[1..])
  }

  /** How many workers execute task `t`. */
  function ExecutingCount(workers: seq<Worker>, t: TaskId): nat {
    if workers == [] then 0
    else (if workers[0] == Executing(t) then 1 else 0) + ExecutingCount(workers[1..], t)
  }

  /** How often task `t` is queued, executing, finished or purged. */
  function Places(p: Pool, t: TaskId): nat {
    multiset(p.tasks)[t] + ExecutingCount(p.workers, t) + p.finished[t] + p.purged[t]
  }

  ghost predicate InOnePlace(p: Pool, t: TaskId) {
    Places(p, t) == if t < p.detached then 1 else 0
  }

  /** Task `t` will not run any more. */
  ghost predicate Over(p: Pool, t: TaskId) {
    t < p.detached && p.finished[t] + p.purged[t] == 1
  }

  ghost predicate Settled(p: Pool, c: Caller) {
    c.Returned? || c.Stopping? ==> forall t: nat :: t < c.upTo ==> Over(p, t)
  }

  /** `tasks_running` counts the workers starting or executing; every detached task is queued,
      executing, finished or purged, exactly once; and a `wait` that returned left nothing of what had
      been detached before it unfinished. */
  ghost predicate Accounts(p: Pool) {
    && |p.workers| == |p.stop|
    && p.running == BusyCount(p.workers)
    && (forall t: nat :: InOnePlace(p, t))
    && (forall c :: 0 <= c < |p.callers| ==> Settled(p, p.callers[c]))
  }

  lemma {:induction false} UpdateCounts(workers: seq<Worker>, i: nat, w: Worker)
    requires i < |workers|
    ensures BusyCount(workers[i := w]) + (if Busy(workers[i]) then 1 else 0)
         == BusyCount(workers) + (if Busy(w) then 1 else 0)
    ensures forall t: nat :: ExecutingCount(workers[i := w], t) + (if workers[i] == Executing(t) then 1 else 0)
                          == ExecutingCount(workers, t) + (if w == Executing(t) then 1 else 0)
    decreases |workers|
  {
    if i == 0 {
      assert workers[0 := w][1..] == workers[1..];
    } else {
      assert workers[i := w][1..] == workers[1..][i - 1 := w];
      UpdateCounts(workers[1..], i - 1, w);
    }
  }

  lemma {:induction false} SameCounts(workers: seq<Worker>, busy: bool)
    requires forall i :: 0 <= i < |workers| ==> !workers[i].Executing? && Busy(workers[i]) == busy
    ensures BusyCount(workers) == if busy then |workers| else 0
    ensures forall t: nat :: ExecutingCount(workers, t) == 0
    decreases |workers|
  {
    if workers != [] { SameCounts(workers[1..], busy); }
  }

  lemma {:induction false} NoneBusy(workers: seq<Worker>)
    requires BusyCount(workers) == 0
    ensures forall t: nat :: ExecutingCount(workers, t) == 0
    ensures forall i :: 0 <= i < |workers| ==> !Busy(workers[i])
    decreases |workers|
  {
    if workers != [] { NoneBusy(workers[1..]); }
  }

  /** Tasks that are over stay over while the records of finished and purged tasks are kept. */
  lemma SettledStays(p: Pool, q: Pool, c: Caller)
    requires Settled(p, c) && p.detached <= q.detached
    requires forall t: nat :: Over(p, t) ==> q.finished[t] + q.purged[t] == 1
    ensures Settled(q, c)
  {
    if c.Returned? || c.Stopping? {
      forall t: nat | t < c.upTo ensures Over(q, t) { assert Over(p, t); }
    }
  }

  /** What a step does to the accounts is settled by the workers' counts and each task's places. */
  lemma AccountsKept(p: Pool, q: Pool)
    requires Accounts(p) && |q.workers| == |q.stop| && q.running == BusyCount(q.workers)
    requires p.detached <= q.detached
    requires forall t: nat :: InOnePlace(q, t)
    requires forall t: nat :: p.finished[t] <= q.finished[t] && p.purged[t] <= q.purged[t]
    requires forall c :: 0 <= c < |q.callers| && (q.callers[c].Returned? || q.callers[c].Stopping?) ==>
               Settled(q, q.callers[c]) || (c < |p.callers| && q.callers[c] == p.callers[c])
    ensures Accounts(q)
  {
    forall t: nat | Over(p, t) ensures q.finished[t] + q.purged[t] == 1 {
      assert InOnePlace(q, t);
    }
    forall c | 0 <= c < |q.callers| ensures Settled(q, q.callers[c]) {
      if c < |p.callers| && q.callers[c] == p.callers[c] { SettledStays(p, q, p.callers[c]); }
    }
  }

  lemma AccountsTakeOrSleep(p: Pool, i: nat)
    requires i < |p.workers| && Accounts(p) && !Busy(p.workers[i])
    ensures Accounts(TakeOrSleep(p, i))
  {
    hide BusyCount, ExecutingCount;
    var q := TakeOrSleep(p, i);
    UpdateCounts(p.workers, i, q.workers[i]);
    forall t: nat ensures InOnePlace(q, t) {
      assert InOnePlace(p, t);
      if p.tasks != [] { assert p.tasks == [p.tasks[0]] + p.tasks[1..]; }
    }
    AccountsKept(p, q);
  }

  lemma AccountsCountedOut(p: Pool, i: nat)
    requires i < |p.workers| && Accounts(p) && (p.workers[i].Starting? || p.workers[i].Finished?)
    ensures Accounts(CountedOut(p).(workers := p.workers[i := Notified]))
  {
    hide BusyCount, ExecutingCount;
    UpdateCounts(p.workers, i, Notified);
    var q := CountedOut(p).(workers := p.workers[i := Notified]);
    forall t: nat ensures InOnePlace(q, t) { assert InOnePlace(p, t); }
    AccountsKept(p, q);
  }

  lemma AccountsSection(p: Pool, i: nat)
    requires i < |p.workers| && Accounts(p) && (p.workers[i].Starting? || p.workers[i].Finished?)
    ensures Accounts(WorkerSection(p, i))
  {
    AccountsCountedOut(p, i);
    var q := CountedOut(p);
    var r := q.(workers := p.workers[i := Notified]);
    AccountsTakeOrSleep(r, i);
    SectionByParts(p, i);
  }

  lemma SectionByParts(p: Pool, i: nat)
    requires i < |p.workers| == |p.stop|
    ensures WorkerSection(p, i) == TakeOrSleep(CountedOut(p).(workers := p.workers[i := Notified]), i)
  {
    var w := WorkerSection(p, i).workers[i];
    assert p.workers[i := Notified][i := w] == p.workers[i := w];
  }

  lemma AccountsCheckDone(p: Pool, c: nat, reset: bool, threads: nat)
    requires c < |p.callers| && Accounts(p)
    ensures Accounts(CheckDone(p, c, reset, threads))
  {
    hide BusyCount, ExecutingCount;
    var q := CheckDone(p, c, reset, threads);
    forall t: nat ensures InOnePlace(q, t) { assert InOnePlace(p, t); }
    if WaitDone(p) {
      NoneBusy(p.workers);
      forall t: nat | t < p.detached ensures Over(q, t) { assert InOnePlace(p, t); }
    }
    AccountsKept(p, q);
  }

  lemma AccountsWakeWorker(p: Pool, i: nat)
    requires Accounts(p)
    ensures Accounts(p.(workers := WakeWorker(p.workers, i)))
  {
    hide BusyCount, ExecutingCount;
    if i < |p.workers| { UpdateCounts(p.workers, i, Notified); }
    var q := p.(workers := WakeWorker(p.workers, i));
    forall t: nat ensures InOnePlace(q, t) { assert InOnePlace(p, t); }
    AccountsKept(p, q);
  }

  lemma AccountsEndTask(p: Pool, i: nat)
    requires Accounts(p) && Enabled(p, EndTask(i))
    ensures Accounts(Step(p, EndTask(i)))
  {
    hide BusyCount, ExecutingCount;
    UpdateCounts(p.workers, i, Finished);
    var q := Step(p, EndTask(i));
    forall t: nat ensures InOnePlace(q, t) { assert InOnePlace(p, t); }
    AccountsKept(p, q);
  }

  lemma AccountsRecreate(p: Pool, c: nat)
    requires Accounts(p) && Enabled(p, Recreate(c))
    ensures Accounts(Step(p, Recreate(c)))
  {
    hide BusyCount, ExecutingCount;
    var q := Step(p, Recreate(c));
    SameCounts(p.workers, false);
    SameCounts(q.workers, true);
    forall t: nat ensures InOnePlace(q, t) { assert InOnePlace(p, t); }
    SettledStays(p, q, p.callers[c]);
    AccountsKept(p, q);
  }

  lemma AccountsOthers(p: Pool, a: Action)
    requires Accounts(p) && Enabled(p, a) && (a.Detach? || a.Purge? || a.SpuriousCaller?)
    ensures Accounts(Step(p, a))
  {
    hide BusyCount, ExecutingCount;
    var q := Step(p, a);
    forall t: nat ensures InOnePlace(q, t) { assert InOnePlace(p, t); }
    AccountsKept(p, q);
  }

  lemma AccountsStep(p: Pool, a: Action)
    requires Accounts(p) && Enabled(p, a)
    ensures Accounts(Step(p, a))
  {
    hide TakeOrSleep, CountedOut, CheckDone, WakeWorker, BusyCount, ExecutingCount, InOnePlace, Settled;
    match a
    case Section(i) => AccountsSection(p, i);
    case Wake(i) => AccountsTakeOrSleep(p, i);
    case EndTask(i) => AccountsEndTask(p, i);
    case Wait(c, reset, threads) => AccountsWaiting(p); AccountsCheckDone(p.(waiting := true), c, reset, threads);
    case WaitWake(c) => AccountsCheckDone(p, c, p.callers[c].reset, p.callers[c].threads);
    case Recreate(c) => AccountsRecreate(p, c);
    case Notify(i) =>
      AccountsWakeWorker(p, i);
      AccountsFlags(p.(workers := WakeWorker(p.workers, i)), p.owed - 1, p.stop);
    case StopWorker(i) =>
      AccountsWakeWorker(p, i);
      AccountsFlags(p.(workers := WakeWorker(p.workers, i)), p.owed, p.stop[i := true]);
    case SpuriousWorker(i) => AccountsWakeWorker(p, i);
    case _ => AccountsOthers(p, a);
  }

  lemma AccountsWaiting(p: Pool)
    requires Accounts(p)
    ensures Accounts(p.(waiting := true))
  {
    AccountsSame(p, p.(waiting := true));
  }

  lemma AccountsFlags(p: Pool, owed: nat, stop: seq<bool>)
    requires Accounts(p) && |stop| == |p.stop|
    ensures Accounts(p.(owed := owed, stop := stop))
  {
    AccountsSame(p, p.(owed := owed, stop := stop));
  }

  lemma AccountsSame(p: Pool, q: Pool)
    requires Accounts(p) && |q.stop| == |p.stop| && q == p.(waiting := q.waiting, owed := q.owed, stop := q.stop)
    ensures Accounts(q)
  {
    forall t: nat ensures InOnePlace(q, t) { assert InOnePlace(p, t); }
    AccountsKept(p, q);
  }

  lemma AccountsCreated(threads: nat, callers: nat)
    ensures Accounts(Created(threads, callers))
  {
    SameCounts(Created(threads, callers).workers, true);
  }

  /** The queue holds the tasks detached last, oldest first. */
  ghost predicate QueuedInOrder(p: Pool) {
    |p.tasks| <= p.detached && forall i :: 0 <= i < |p.tasks| ==> p.tasks[i] == p.detached - |p.tasks| + i
  }

  lemma QueuedInOrderStep(p: Pool, a: Action)
    requires QueuedInOrder(p) && Enabled(p, a)
    ensures QueuedInOrder(Step(p, a))
  {
  }

  lemma {:induction false} QueuedInOrderRun(p: Pool, actions: seq<Action>)
    requires QueuedInOrder(p) && IsRun(p, actions)
    ensures QueuedInOrder(Run(p, actions))
    decreases |actions|
  {
    hide QueuedInOrder, Step, Enabled;
    if actions != [] {
      QueuedInOrderStep(p, actions[0]);
      QueuedInOrderRun(Step(p, actions[0]), actions[1..]);
    }
  }

  lemma {:induction false} AccountsRun(p: Pool, actions: seq<Action>)
    requires Accounts(p) && IsRun(p, actions)
    ensures Accounts(Run(p, actions))
    decreases |actions|
  {
    hide Step, Enabled, Accounts;
    if actions != [] {
      AccountsStep(p, actions[0]);
      AccountsRun(Step(p, actions[0]), actions[1..]);
    }
  }

  /** In every run, with any number of waiters, purges and resets: the count of running workers is
      right, no task is lost or run twice, and whenever a `wait` has returned all that had been
      detached before is finished or was purged. */
  lemma Conservation(threads: nat, callers: nat, actions: seq<Action>)
    requires IsRun(Created(threads, callers), actions)
    ensures var p := Run(Created(threads, callers), actions);
            && p.running == BusyCount(p.workers)
            && (forall t: nat :: Places(p, t) == if t < p.detached then 1 else 0)
            && (forall c, t: nat :: 0 <= c < |p.callers| && p.callers[c].Returned? && t < p.callers[c].upTo ==>
                 Over(p, t))
  {
    hide Step, Enabled, Created;
    AccountsCreated(threads, callers);
    AccountsRun(Created(threads, callers), actions);
    var p := Run(Created(threads, callers), actions);
    forall t: nat ensures Places(p, t) == if t < p.detached then 1 else 0 { assert InOnePlace(p, t); }
    forall c, t: nat | 0 <= c < |p.callers| && p.callers[c].Returned? && t < p.callers[c].upTo ensures Over(p, t) {
      assert Settled(p, p.callers[c]);
    }
  }

  /** Woken without a reason, a worker and a waiter go back to sleep. */
  lemma SpuriousChangesNothing(p: Pool, i: nat)
    requires |p.workers| == |p.stop|
    ensures i < |p.workers| && p.workers[i].Sleeping? && !p.stop[i] && p.tasks == [] ==>
              && Enabled(p, SpuriousWorker(i)) && Enabled(Step(p, SpuriousWorker(i)), Wake(i))
              && Step(Step(p, SpuriousWorker(i)), Wake(i)) == p
    ensures i < |p.callers| && p.callers[i].Asleep? && !WaitDone(p) ==>
              && Enabled(p, SpuriousCaller(i)) && Enabled(Step(p, SpuriousCaller(i)), WaitWake(i))
              && Step(Step(p, SpuriousCaller(i)), WaitWake(i)) == p
  {
    assert i < |p.workers| ==> p.workers[i := Notified][i := Sleeping] == p.workers[i := Sleeping];
    assert i < |p.workers| && p.workers[i].Sleeping? ==> p.workers[i := Sleeping] == p.workers;
    assert i < |p.callers| ==> p.callers[i := p.callers[i]] == p.callers;
  }

  /** A worker that was told to stop starts no further task, whatever is queued. */
  lemma {:induction false} StoppedStartsNothing(p: Pool, actions: seq<Action>, i: nat)
    requires IsRun(p, actions) && forall a <- actions :: !a.Recreate?
    requires i < |p.workers| == |p.stop| && p.stop[i]
    ensures var q := Run(p, actions);
            i < |q.workers| && (q.workers[i].Executing? ==> q.workers[i] == p.workers[i])
    decreases |actions|
  {
    hide Step, Enabled;
    if actions != [] {
      assert actions[0] in actions;
      StoppedStartsNothingNow(p, actions[0], i);
      StoppedStartsNothing(Step(p, actions[0]), actions[1..], i);
    }
  }

  lemma StoppedStartsNothingNow(p: Pool, a: Action, i: nat)
    requires Enabled(p, a) && !a.Recreate? && i < |p.workers| == |p.stop| && p.stop[i]
    ensures var q := Step(p, a);
            && i < |q.workers| == |q.stop| && q.stop[i]
            && (q.workers[i].Executing? ==> q.workers[i] == p.workers[i])
  {
    if a.Section? { StoppedExits(CountedOut(p), a.worker, i); }
    if a.Wake? { StoppedExits(p, a.worker, i); }
    hide TakeOrSleep, WakeAll, CheckDone;
  }

  lemma StoppedExits(p: Pool, k: nat, i: nat)
    requires k < |p.workers| == |p.stop| && i < |p.workers| && p.stop[i]
    ensures var q := TakeOrSleep(p, k);
            && |q.workers| == |p.workers| && q.stop == p.stop
            && q.workers[i] == if k == i then Exited else p.workers[i]
  {
  }

  /** How many of the actions are of a kind. */
  function Ended(actions: seq<Action>): nat {
    if actions == [] then 0 else (if actions[0].EndTask? then 1 else 0) + Ended(actions[1..])
  }

  function Submitted(actions: seq<Action>): nat {
    if actions == [] then 0 else (if actions[0].Detach? then 1 else 0) + Submitted(actions[1..])
  }

  /** In every run as many tasks are detached as were submitted, as many are finished as came to their end, and where
      nobody purges nothing is purged. */
  lemma {:induction false} RecordsAreRight(p: Pool, actions: seq<Action>)
    requires IsRun(p, actions)
    ensures var q := Run(p, actions);
            && q.detached == p.detached + Submitted(actions)
            && |q.finished| == |p.finished| + Ended(actions)
            && (Purge !in actions ==> q.purged == p.purged)
    decreases |actions|
  {
    hide Step, Enabled;
    if actions != [] {
      RecordsNow(p, actions[0]);
      RecordsAreRight(Step(p, actions[0]), actions[1..]);
    }
  }

  lemma RecordsNow(p: Pool, a: Action)
    requires Enabled(p, a)
    ensures var q := Step(p, a);
            && q.detached == p.detached + (if a.Detach? then 1 else 0)
            && |q.finished| == |p.finished| + (if a.EndTask? then 1 else 0)
            && (a != Purge ==> q.purged == p.purged)
  {
  }

  /** A caller's step out of `wait`, or on to the replacing of the workers. */
  predicate EndsWait(p: Pool, a: Action, c: nat)
    requires Enabled(p, a)
  {
    && (a.Wait? || a.WaitWake?) && a.caller == c
    && c < |Step(p, a).callers| && (Step(p, a).callers[c].Returned? || Step(p, a).callers[c].Stopping?)
  }

  /** The soundness of `wait`, over runs: at whatever moment it ends, all that had been detached by then is finished or
      purged, and stays so. */
  lemma WaitIsSound(threads: nat, callers: nat, before: seq<Action>, a: Action, c: nat, after: seq<Action>)
    requires IsRun(Created(threads, callers), before) && Enabled(Run(Created(threads, callers), before), a)
    requires EndsWait(Run(Created(threads, callers), before), a, c)
    requires IsRun(Step(Run(Created(threads, callers), before), a), after)
    ensures var p := Run(Created(threads, callers), before);
            forall t: nat :: t < p.detached ==> Over(Run(Step(p, a), after), t)
    ensures var p := Run(Created(threads, callers), before);
            var q := Run(Step(p, a), after);
            (forall b <- after :: b.Wait? ==> b.caller != c) ==>
              c < |q.callers| && (q.callers[c].Stopping? || q.callers[c].Returned?) && q.callers[c].upTo == p.detached
  {
    hide Step, Enabled, Created, EndsWait;
    AccountsCreated(threads, callers);
    AccountsRun(Created(threads, callers), before);
    var p := Run(Created(threads, callers), before);
    AccountsStep(p, a);
    WaitEndsUpTo(p, a, c);
    if forall b <- after :: b.Wait? ==> b.caller != c { UpToStays(Step(p, a), after, c); }
    forall t: nat | t < p.detached ensures Over(Run(Step(p, a), after), t) {
      WaitEndsDone(p, a, c, t);
      OverStays(Step(p, a), after, t);
    }
  }

  lemma WaitEndsUpTo(p: Pool, a: Action, c: nat)
    requires Enabled(p, a) && EndsWait(p, a, c)
    ensures var q := Step(p, a);
            c < |q.callers| && (q.callers[c].Stopping? || q.callers[c].Returned?) && q.callers[c].upTo == p.detached
  {
  }

  lemma {:induction false} UpToStays(p: Pool, actions: seq<Action>, c: nat)
    requires IsRun(p, actions) && forall b <- actions :: b.Wait? ==> b.caller != c
    requires c < |p.callers| && (p.callers[c].Stopping? || p.callers[c].Returned?)
    ensures var q := Run(p, actions);
            && c < |q.callers| && (q.callers[c].Stopping? || q.callers[c].Returned?)
            && q.callers[c].upTo == p.callers[c].upTo
    decreases |actions|
  {
    hide Step, Enabled;
    if actions != [] {
      assert actions[0] in actions;
      UpToStaysNow(p, actions[0], c);
      UpToStays(Step(p, actions[0]), actions[1..], c);
    }
  }

  lemma UpToStaysNow(p: Pool, a: Action, c: nat)
    requires Enabled(p, a) && (a.Wait? ==> a.caller != c)
    requires c < |p.callers| && (p.callers[c].Stopping? || p.callers[c].Returned?)
    ensures var q := Step(p, a);
            && c < |q.callers| && (q.callers[c].Stopping? || q.callers[c].Returned?)
            && q.callers[c].upTo == p.callers[c].upTo
  {
  }

  lemma WaitEndsDone(p: Pool, a: Action, c: nat, t: nat)
    requires Accounts(p) && Enabled(p, a) && EndsWait(p, a, c) && t < p.detached
    ensures Over(Step(p, a), t)
  {
    assert InOnePlace(p, t);
    NoneBusy(p.workers);
    hide BusyCount, ExecutingCount;
  }

  lemma {:induction false} OverStays(p: Pool, actions: seq<Action>, t: nat)
    requires Accounts(p) && Over(p, t) && IsRun(p, actions)
    ensures Over(Run(p, actions), t)
    decreases |actions|
  {
    hide Step, Enabled, Accounts, Over;
    if actions != [] {
      AccountsStep(p, actions[0]);
      OverStaysStep(p, actions[0], t);
      OverStays(Step(p, actions[0]), actions[1..], t);
    }
  }

  lemma OverStaysStep(p: Pool, a: Action, t: nat)
    requires Accounts(p) && Over(p, t) && Enabled(p, a) && Accounts(Step(p, a))
    ensures Over(Step(p, a), t)
  {
    var q := Step(p, a);
    assert InOnePlace(q, t);
    RecordsGrow(p, a, t);
    hide ExecutingCount, Step, BusyCount;
  }

  lemma RecordsGrow(p: Pool, a: Action, t: nat)
    requires Enabled(p, a)
    ensures var q := Step(p, a);
            p.detached <= q.detached && p.finished[t] <= q.finished[t] && p.purged[t] <= q.purged[t]
  {
  }

  /** Tasks start in the order of their submission: in every run the queued tasks are the ones detached last, oldest
      first, so every task that is executing was detached before all that are queued. */
  lemma StartsInOrder(threads: nat, callers: nat, actions: seq<Action>)
    requires IsRun(Created(threads, callers), actions)
    ensures var p := Run(Created(threads, callers), actions);
            && QueuedInOrder(p)
            && forall i, k :: 0 <= i < |p.workers| && p.workers[i].Executing? && 0 <= k < |p.tasks| ==>
                 p.workers[i].task < p.tasks[k]
  {
    hide Step, Enabled, Created, Places;
    AccountsCreated(threads, callers);
    AccountsRun(Created(threads, callers), actions);
    NothingQueued(threads, callers);
    QueuedInOrderRun(Created(threads, callers), actions);
    var p := Run(Created(threads, callers), actions);
    forall i, k | 0 <= i < |p.workers| && p.workers[i].Executing? && 0 <= k < |p.tasks|
      ensures p.workers[i].task < p.tasks[k]
    {
      ExecutingIsOlder(p, i, k);
    }
  }

  lemma NothingQueued(threads: nat, callers: nat)
    ensures QueuedInOrder(Created(threads, callers))
  {
  }

  lemma QueueIsTail(p: Pool)
    requires QueuedInOrder(p)
    ensures forall v: nat :: p.detached - |p.tasks| <= v < p.detached ==> v in p.tasks
  {
    forall v: nat | p.detached - |p.tasks| <= v < p.detached
      ensures v in p.tasks
    {
      assert p.tasks[v - (p.detached - |p.tasks|)] == v;
    }
  }

  lemma ExecutingIsOlder(p: Pool, i: nat, k: nat)
    requires Accounts(p) && QueuedInOrder(p) && i < |p.workers| && p.workers[i].Executing? && k < |p.tasks|
    ensures p.workers[i].task < p.tasks[k]
  {
    hide Settled, BusyCount;
    var t := p.workers[i].task;
    UpdateCounts(p.workers, i, Sleeping);
    assert InOnePlace(p, t);
    QueueIsTail(p);
    assert t !in multiset(p.tasks) && t !in p.tasks;
  }

  // ---------------------------------------------------------------------------------------------
  // What a `reset` does
  // ---------------------------------------------------------------------------------------------

  /** What a caller asked for last: a `wait`, or a `reset` to so many threads, which may be complete. */
  datatype Request = NoRequest | WaitRequest | ResetRequest(threads: nat, complete: bool)

  /** Read off the actions alone. */
  function LastRequest(actions: seq<Action>, c: nat): Request {
    if actions == [] then NoRequest
    else
      var n := |actions| - 1;
      var before := LastRequest(actions[..n], c);
      match actions[n]
      case Wait(d, reset, threads) =>
        if d != c then before else if reset then ResetRequest(threads, false) else WaitRequest
      case Recreate(d) => if d == c && before.ResetRequest? then before.(complete := true) else before
      case _ => before
  }

  /** The number of threads given to the constructor or, once one is complete, to the last `reset`. */
  function ThreadsAsked(threads: nat, actions: seq<Action>): nat {
    if actions == [] then threads
    else
      var n := |actions| - 1;
      if actions[n].Recreate? && LastRequest(actions[..n], actions[n].caller).ResetRequest? then
        LastRequest(actions[..n], actions[n].caller).threads
      else ThreadsAsked(threads, actions[..n])
  }

  /** A caller stands where its last request has brought it. A `reset` does not return before it is complete. */
  predicate AsAsked(c: Caller, request: Request) {
    match c
    case Idle => request.NoRequest?
    case Asleep(reset, threads) => request == if reset then ResetRequest(threads, false) else WaitRequest
    case Woken(reset, threads) => request == if reset then ResetRequest(threads, false) else WaitRequest
    case Stopping(_, threads) => request == ResetRequest(threads, false)
    case Returned(_) => request.WaitRequest? || (request.ResetRequest? && request.complete)
  }

  /** In every run there are as many workers as were asked for last, and every caller stands where its request has
      brought it: a `reset` goes on to stop the workers and to start the number it was given, a `wait` does not. */
  lemma {:induction false} WorkersAreAsked(threads: nat, callers: nat, actions: seq<Action>)
    requires IsRun(Created(threads, callers), actions)
    ensures var p := Run(Created(threads, callers), actions);
            && |p.workers| == |p.stop| == ThreadsAsked(threads, actions)
            && |p.callers| == callers
            && forall c: nat :: c < callers ==> AsAsked(p.callers[c], LastRequest(actions, c))
    decreases |actions|
  {
    hide Step, Enabled, Created, AsAsked;
    var p0 := Created(threads, callers);
    if actions == [] {
      NothingAsked(threads, callers);
    } else {
      var n := |actions| - 1;
      var before, a := actions[..n], actions[n];
      assert actions == before + [a];
      RunLast(p0, before, a);
      WorkersAreAsked(threads, callers, before);
      StepAsAsked(Run(p0, before), a, before);
    }
  }

  lemma NothingAsked(threads: nat, callers: nat)
    ensures var p := Created(threads, callers);
            |p.workers| == |p.stop| == threads && |p.callers| == callers
            && forall c: nat :: c < callers ==> AsAsked(p.callers[c], NoRequest)
  {
  }

  lemma StepAsAsked(p: Pool, a: Action, before: seq<Action>)
    requires Enabled(p, a) && forall c: nat :: c < |p.callers| ==> AsAsked(p.callers[c], LastRequest(before, c))
    ensures var q := Step(p, a);
            && |q.callers| == |p.callers|
            && |q.workers| == |q.stop|
            && |q.workers| == (if a.Recreate? && LastRequest(before, a.caller).ResetRequest? then
                                 LastRequest(before, a.caller).threads
                               else |p.workers|)
            && forall c: nat :: c < |p.callers| ==> AsAsked(q.callers[c], LastRequest(before + [a], c))
  {
    assert (before + [a])[..|before|] == before && (before + [a])[|before|] == a;
    if a.Section? { SameCallers(CountedOut(p), a.worker); }
    if a.Wake? { SameCallers(p, a.worker); }
    hide TakeOrSleep;
    var q := Step(p, a);
    if a.Recreate? { assert AsAsked(p.callers[a.caller], LastRequest(before, a.caller)); }
    forall c: nat | c < |p.callers| ensures AsAsked(q.callers[c], LastRequest(before + [a], c)) {
      assert AsAsked(p.callers[c], LastRequest(before, c));
    }
  }

  lemma SameCallers(p: Pool, i: nat)
    requires i < |p.workers| == |p.stop|
    ensures var q := TakeOrSleep(p, i);
            q.callers == p.callers && |q.workers| == |p.workers| && q.stop == p.stop
  {
  }

  lemma {:induction false} RunLast(p: Pool, done: seq<Action>, a: Action)
    requires IsRun(p, done + [a])
    ensures IsRun(p, done) && Enabled(Run(p, done), a) && Run(p, done + [a]) == Step(Run(p, done), a)
    decreases |done|
  {
    hide Step, Enabled;
    if done == [] {
      assert done + [a] == [a] && [a][1..] == [];
    } else {
      assert (done + [a])[1..] == done[1..] + [a] && (done + [a])[0] == done[0];
      RunLast(Step(p, done[0]), done[1..], a);
    }
  }

  lemma {:induction false} RunSnoc(p: Pool, done: seq<Action>, a: Action)
    requires IsRun(p, done) && Enabled(Run(p, done), a)
    ensures IsRun(p, done + [a]) && Run(p, done + [a]) == Step(Run(p, done), a)
    decreases |done|
  {
    hide Step, Enabled;
    if done == [] {
      assert done + [a] == [a] && [a][1..] == [];
    } else {
      assert (done + [a])[1..] == done[1..] + [a];
      RunSnoc(Step(p, done[0]), done[1..], a);
    }
  }

  // ---------------------------------------------------------------------------------------------
  // The pool object: each method is one of the steps above, performed in place
  // ---------------------------------------------------------------------------------------------

  class ThreadPoolObject {
    var tasks: seq<TaskId>
    var tasksRunning: int
    var waiting: bool
    var workers: seq<Worker>
    var stop: seq<bool>
    var callers: seq<Caller>
    var owed: nat
    var detached: nat
    ghost var finished: multiset<TaskId>
    ghost var purged: multiset<TaskId>

    ghost function View(): Pool
      reads this
    {
      Pool(tasks, tasksRunning, waiting, workers, stop, callers, owed, detached, finished, purged)
    }

    constructor (threads: nat, numCallers: nat)
      ensures View() == Created(threads, numCallers) && Accounts(View())
    {
      tasks, tasksRunning, waiting := [], threads, false;
      workers, stop := seq(threads, _ => Starting), seq(threads, _ => false);
      callers := seq(numCallers, _ => Idle);
      owed, detached, finished, purged := 0, 0, multiset{}, multiset{};
      AccountsCreated(threads, numCallers);
    }

    method DetachTask(task: TaskId)
      requires Accounts(View()) && task == detached
      modifies this
      ensures Accounts(View()) && View() == Step(old(View()), Detach)
    {
      AccountsStep(View(), Detach);
      tasks := tasks + [task];
      detached, owed := detached + 1, owed + 1;
    }

    /** `pop_task`. */
    method PopTask() returns (task: TaskId)
      requires tasks != []
      modifies this`tasks
      ensures [task] + tasks == old(tasks)
    {
      task := tasks[0];
      tasks := tasks[1..];
    }

    /** From the wait on `task_available_cv` on, with the mutex held. */
    method TakeOrSleepInPlace(i: nat)
      requires i < |workers| == |stop|
      modifies this`tasks, this`tasksRunning, this`workers
      ensures View() == TakeOrSleep(old(View()), i)
    {
      if stop[i] {
        workers := workers[i := Exited];
      } else if tasks != [] {
        var task := PopTask();
        tasksRunning := tasksRunning + 1;
        workers := workers[i := Executing(task)];
      } else {
        workers := workers[i := Sleeping];
      }
    }

    /** The loop body of `worker` from the lock to the unlock. */
    method WorkerSectionInPlace(i: nat)
      requires Accounts(View()) && Enabled(View(), Section(i))
      modifies this
      ensures Accounts(View()) && View() == Step(old(View()), Section(i))
    {
      AccountsStep(View(), Section(i));
      tasksRunning := tasksRunning - 1;
      if waiting && tasksRunning == 0 && tasks == [] {
        callers := WakeAll(callers);
      }
      assert View() == CountedOut(old(View()));
      TakeOrSleepInPlace(i);
    }

    /** `wait` from the lock on: raise the flag, then return or sleep. */
    method StartWait(c: nat, reset: bool, threads: nat)
      requires Accounts(View()) && Enabled(View(), Wait(c, reset, threads))
      modifies this
      ensures Accounts(View()) && View() == Step(old(View()), Wait(c, reset, threads))
    {
      AccountsStep(View(), Wait(c, reset, threads));
      waiting := true;
      CheckDoneInPlace(c, reset, threads);
    }

    method CheckDoneInPlace(c: nat, reset: bool, threads: nat)
      requires c < |callers|
      modifies this`waiting, this`callers
      ensures View() == CheckDone(old(View()), c, reset, threads)
    {
      if tasksRunning == 0 && tasks == [] {
        waiting := false;
        callers := callers[c := if reset then Stopping(detached, threads) else Returned(detached)];
      } else {
        callers := callers[c := Asleep(reset, threads)];
      }
    }

    /** `create_threads`, once the old threads have been joined. */
    method CreateThreads(c: nat)
      requires Accounts(View()) && Enabled(View(), Recreate(c))
      modifies this
      ensures Accounts(View()) && View() == Step(old(View()), Recreate(c))
    {
      AccountsStep(View(), Recreate(c));
      var n := callers[c].threads;
      tasksRunning := n;
      workers, stop := seq(n, _ => Starting), seq(n, _ => false);
      callers := callers[c := Returned(callers[c].upTo)];
    }
  }
}
