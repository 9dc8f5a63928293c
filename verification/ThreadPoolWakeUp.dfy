/** No lost wake-up: which steps of the pool can make it stall while there is work or a waiter, exactly, and that
    without them it never does. */
module ThreadPoolWakeUp {
  import opened ThreadPool

  ghost predicate NobodyWaits(p: Pool) {
    forall c :: 0 <= c < |p.callers| ==> !InWait(p.callers[c])
  }

  ghost predicate NobodyAsleep(p: Pool) {
    forall c :: 0 <= c < |p.callers| ==> !p.callers[c].Asleep?
  }

  /** A `purge` must not take away the last work that a sleeping waiter waits for. And nothing may give the pool new
      work, a task or starting workers, while a thread is inside `wait` and the shared flag is down: another waiter has
      lowered it. */
  ghost predicate Harmless(p: Pool, a: Action) {
    match a
    case Purge => p.tasks == [] || p.running > 0 || NobodyAsleep(p)
    case Detach => p.waiting || NobodyWaits(p)
    case Recreate(_) => p.waiting || NobodyWaits(p)
    case _ => true
  }

  /** The runs the claim is about. Waits may overlap, and tasks may be purged, as long as it is harmless. */
  ghost predicate IsGuardedRun(p: Pool, actions: seq<Action>)
    decreases |actions|
  {
    actions != [] ==>
      Enabled(p, actions[0]) && Harmless(p, actions[0]) && IsGuardedRun(Step(p, actions[0]), actions[1..])
  }

  predicate Awake(w: Worker) {
    Busy(w) || w.Notified?
  }

  ghost predicate SomeAwake(p: Pool) {
    exists i :: 0 <= i < |p.workers| && Awake(p.workers[i])
  }

  ghost predicate SomeStopping(p: Pool) {
    exists c :: 0 <= c < |p.callers| && p.callers[c].Stopping?
  }

  /** Work in the queue has someone who will see it: an awake worker, a submitter that still owes its
      notify, or a reset about to start new workers. */
  ghost predicate QueueIsSeen(p: Pool) {
    p.tasks != [] ==> p.owed > 0 || SomeAwake(p) || SomeStopping(p)
  }

  /** A waiter sleeps only with the flag up and while there is something to wait for; one that is awake finds the flag
      up or its wait over. */
  ghost predicate WaiterIsSeen(p: Pool, c: Caller) {
    && (c.Asleep? ==> p.waiting && !WaitDone(p))
    && (c.Woken? ==> p.waiting || WaitDone(p))
    && (InWait(c) || c.Stopping? ==> c.threads >= 1)
  }

  ghost predicate StopIsSeen(p: Pool, i: nat)
    requires i < |p.workers| == |p.stop|
  {
    && (p.stop[i] ==> !p.workers[i].Sleeping? && SomeStopping(p))
    && (p.workers[i].Exited? ==> p.stop[i])
  }

  ghost predicate OneWaiter(callers: seq<Caller>) {
    forall c, d :: 0 <= c < d < |callers| ==> !(InWait(callers[c]) && InWait(callers[d]))
  }

  ghost predicate Responsive(p: Pool) {
    && Accounts(p)
    && |p.workers| >= 1
    && QueueIsSeen(p)
    && (forall c :: 0 <= c < |p.callers| ==> WaiterIsSeen(p, p.callers[c]))
    && (forall i: nat :: i < |p.workers| ==> StopIsSeen(p, i))
  }

  lemma ResponsiveTakeOrSleep(p: Pool, i: nat)
    requires i < |p.workers| && Accounts(p) && !Busy(p.workers[i]) && !p.workers[i].Sleeping?
    requires forall c :: 0 <= c < |p.callers| ==> WaiterIsSeen(p, p.callers[c])
    requires forall k: nat :: k < |p.workers| ==> StopIsSeen(p, k)
    ensures Responsive(TakeOrSleep(p, i))
  {
    hide BusyCount, ExecutingCount, InOnePlace;
    AccountsTakeOrSleep(p, i);
    var q := TakeOrSleep(p, i);
    assert StopIsSeen(p, i);
    if p.stop[i] {
      var c :| 0 <= c < |p.callers| && p.callers[c].Stopping?;
      assert q.callers[c].Stopping?;
    } else if p.tasks != [] {
      assert Awake(q.workers[i]);
    }
    forall c | 0 <= c < |q.callers| ensures WaiterIsSeen(q, q.callers[c]) {
      assert WaiterIsSeen(p, p.callers[c]);
    }
    forall k: nat | k < |q.workers| ensures StopIsSeen(q, k) {
      assert StopIsSeen(p, k);
      SameStopping(p, q);
    }
  }

  lemma SameStopping(p: Pool, q: Pool)
    requires |p.callers| == |q.callers|
    requires forall c :: 0 <= c < |p.callers| && p.callers[c].Stopping? ==> q.callers[c].Stopping?
    ensures SomeStopping(p) ==> SomeStopping(q)
  {
    if SomeStopping(p) {
      var c :| 0 <= c < |p.callers| && p.callers[c].Stopping?;
      assert q.callers[c].Stopping?;
    }
  }

  lemma ResponsiveSection(p: Pool, i: nat)
    requires Responsive(p) && Enabled(p, Section(i))
    ensures Responsive(WorkerSection(p, i))
  {
    hide BusyCount, ExecutingCount, InOnePlace, Settled;
    AccountsCountedOut(p, i);
    SectionByParts(p, i);
    var r := CountedOut(p).(workers := p.workers[i := Notified]);
    SameStopping(p, r);
    forall c | 0 <= c < |r.callers| ensures WaiterIsSeen(r, r.callers[c]) {
      assert WaiterIsSeen(p, p.callers[c]);
    }
    forall k: nat | k < |r.workers| ensures StopIsSeen(r, k) {
      assert StopIsSeen(p, k);
    }
    ResponsiveTakeOrSleep(r, i);
  }

  lemma ResponsiveCheckDone(p: Pool, c: nat, reset: bool, threads: nat)
    requires Responsive(p) && c < |p.callers| && !p.callers[c].Stopping? && threads >= 1
    requires p.waiting || WaitDone(p)
    ensures Responsive(CheckDone(p, c, reset, threads))
  {
    hide BusyCount, ExecutingCount, InOnePlace, Settled;
    AccountsCheckDone(p, c, reset, threads);
    var q := CheckDone(p, c, reset, threads);
    SameStopping(p, q);
    AwakeStays(p, q);
    forall d | 0 <= d < |q.callers| ensures WaiterIsSeen(q, q.callers[d]) {
      assert WaiterIsSeen(p, p.callers[d]);
    }
    forall k: nat | k < |q.workers| ensures StopIsSeen(q, k) {
      assert StopIsSeen(p, k);
    }
  }

  lemma AwakeStays(p: Pool, q: Pool)
    requires |p.workers| == |q.workers|
    requires forall i :: 0 <= i < |p.workers| && Awake(p.workers[i]) ==> Awake(q.workers[i])
    ensures SomeAwake(p) ==> SomeAwake(q)
  {
    if SomeAwake(p) {
      var i :| 0 <= i < |p.workers| && Awake(p.workers[i]);
      assert Awake(q.workers[i]);
    }
  }

  lemma ResponsiveNotify(p: Pool, i: nat)
    requires Responsive(p) && Enabled(p, Notify(i))
    ensures Responsive(Step(p, Notify(i)))
  {
    hide BusyCount, ExecutingCount, InOnePlace, Settled;
    AccountsStep(p, Notify(i));
    var q := Step(p, Notify(i));
    SameStopping(p, q);
    AwakeStays(p, q);
    if i < |p.workers| && p.workers[i].Sleeping? {
      assert Awake(q.workers[i]);
    } else {
      assert StopIsSeen(p, 0);
      assert Awake(q.workers[0]) || SomeStopping(p);
    }
    forall k | 0 <= k < |p.workers|
      ensures (q.stop[k] ==> SomeStopping(p) && !q.workers[k].Sleeping?) && (q.workers[k].Exited? ==> q.stop[k])
    {
      assert StopIsSeen(p, k);
    }
    ResponsiveRest(p, q);
  }

  /** Steps that change no caller and put no worker to sleep. */
  lemma ResponsiveRest(p: Pool, q: Pool)
    requires Responsive(p) && Accounts(q) && QueueIsSeen(q)
    requires |q.workers| == |p.workers| && q.callers == p.callers && q.waiting == p.waiting
    requires WaitDone(q) ==> WaitDone(p)
    requires p.waiting || NobodyWaits(p) || WaitDone(q) == WaitDone(p)
    requires forall i :: 0 <= i < |p.workers| ==> (q.stop[i] ==> SomeStopping(p) && !q.workers[i].Sleeping?)
    requires forall i :: 0 <= i < |p.workers| ==> (q.workers[i].Exited? ==> q.stop[i])
    ensures Responsive(q)
  {
    hide BusyCount, ExecutingCount, InOnePlace, Settled, Accounts;
    SameStopping(p, q);
    forall c | 0 <= c < |q.callers| ensures WaiterIsSeen(q, q.callers[c]) {
      assert WaiterIsSeen(p, p.callers[c]);
    }
  }

  lemma ResponsiveWorkers(p: Pool, a: Action)
    requires Responsive(p) && Enabled(p, a)
    requires a.EndTask? || a.SpuriousWorker? || a.StopWorker? || (a.Detach? && Harmless(p, a))
    ensures Responsive(Step(p, a))
  {
    hide BusyCount, ExecutingCount, InOnePlace, Settled;
    AccountsStep(p, a);
    var q := Step(p, a);
    SameStopping(p, q);
    AwakeStays(p, q);
    forall i | 0 <= i < |p.workers|
      ensures (q.stop[i] ==> SomeStopping(p) && !q.workers[i].Sleeping?) && (q.workers[i].Exited? ==> q.stop[i])
    {
      assert StopIsSeen(p, i);
    }
    ResponsiveRest(p, q);
  }

  lemma ResponsiveRecreate(p: Pool, c: nat)
    requires Responsive(p) && Enabled(p, Recreate(c)) && Harmless(p, Recreate(c))
    ensures Responsive(Step(p, Recreate(c)))
  {
    hide BusyCount, ExecutingCount, InOnePlace, Settled;
    AccountsStep(p, Recreate(c));
    var q := Step(p, Recreate(c));
    assert WaiterIsSeen(p, p.callers[c]);
    assert Awake(q.workers[0]);
    forall d | 0 <= d < |q.callers| ensures WaiterIsSeen(q, q.callers[d]) {
      assert WaiterIsSeen(p, p.callers[d]);
    }
  }

  lemma ResponsiveSpuriousCaller(p: Pool, c: nat)
    requires Responsive(p) && Enabled(p, SpuriousCaller(c))
    ensures Responsive(Step(p, SpuriousCaller(c)))
  {
    hide BusyCount, ExecutingCount, InOnePlace, Settled;
    AccountsStep(p, SpuriousCaller(c));
    var q := Step(p, SpuriousCaller(c));
    SameStopping(p, q);
    AwakeStays(p, q);
    forall d | 0 <= d < |q.callers| ensures WaiterIsSeen(q, q.callers[d]) {
      assert WaiterIsSeen(p, p.callers[d]);
    }
    forall k: nat | k < |q.workers| ensures StopIsSeen(q, k) { assert StopIsSeen(p, k); }
  }

  lemma ResponsiveWaiting(p: Pool)
    requires Responsive(p)
    ensures Responsive(p.(waiting := true))
  {
    hide BusyCount, ExecutingCount, InOnePlace, Settled;
    AccountsWaiting(p);
    var q := p.(waiting := true);
    SameStopping(p, q);
    AwakeStays(p, q);
    forall d | 0 <= d < |q.callers| ensures WaiterIsSeen(q, q.callers[d]) {
      assert WaiterIsSeen(p, p.callers[d]);
    }
    forall k: nat | k < |q.workers| ensures StopIsSeen(q, k) { assert StopIsSeen(p, k); }
  }

  lemma ResponsivePurge(p: Pool)
    requires Responsive(p) && Harmless(p, Purge)
    ensures Responsive(Step(p, Purge))
  {
    hide BusyCount, ExecutingCount, InOnePlace, Settled;
    AccountsStep(p, Purge);
    var q := Step(p, Purge);
    SameStopping(p, q);
    forall d | 0 <= d < |q.callers| ensures WaiterIsSeen(q, q.callers[d]) { assert WaiterIsSeen(p, p.callers[d]); }
    forall k: nat | k < |q.workers| ensures StopIsSeen(q, k) { assert StopIsSeen(p, k); }
  }

  lemma ResponsiveStep(p: Pool, a: Action)
    requires Responsive(p) && Enabled(p, a) && Harmless(p, a)
    ensures Responsive(Step(p, a))
  {
    hide BusyCount, ExecutingCount, Accounts, QueueIsSeen, StopIsSeen, TakeOrSleep, WorkerSection, CheckDone;
    match a
    case Section(i) => ResponsiveSection(p, i);
    case Wake(i) => ResponsiveTakeOrSleep(p, i);
    case Notify(i) => ResponsiveNotify(p, i);
    case Recreate(c) => ResponsiveRecreate(p, c);
    case SpuriousCaller(c) => ResponsiveSpuriousCaller(p, c);
    case Wait(c, reset, threads) => ResponsiveWaiting(p); ResponsiveCheckDone(p.(waiting := true), c, reset, threads);
    case WaitWake(c) =>
      assert WaiterIsSeen(p, p.callers[c]);
      ResponsiveCheckDone(p, c, p.callers[c].reset, p.callers[c].threads);
    case Purge => ResponsivePurge(p);
    case _ => ResponsiveWorkers(p, a);
  }

  /** The guard is exact: a step keeps the pool responsive if and only if it is harmless. */
  lemma ResponsiveExactly(p: Pool, a: Action)
    requires Responsive(p) && Enabled(p, a)
    ensures Responsive(Step(p, a)) <==> Harmless(p, a)
  {
    hide Accounts, QueueIsSeen, StopIsSeen, CheckDone, WorkerSection, TakeOrSleep;
    if Harmless(p, a) {
      ResponsiveStep(p, a);
    } else {
      var c :| 0 <= c < |p.callers| && if a.Purge? then p.callers[c].Asleep? else InWait(p.callers[c]);
      assert WaiterIsSeen(p, p.callers[c]);
      StillWaiting(p, a, c);
      assert !WaiterIsSeen(Step(p, a), Step(p, a).callers[c]);
    }
  }

  /** After a harmful step: the waiter has nothing to wait for, or has something and the flag is down. */
  lemma StillWaiting(p: Pool, a: Action, c: nat)
    requires Responsive(p) && Enabled(p, a) && !Harmless(p, a)
    requires c < |p.callers| && if a.Purge? then p.callers[c].Asleep? else InWait(p.callers[c])
    ensures var q := Step(p, a);
            && |q.callers| == |p.callers| && q.callers[c] == p.callers[c] && q.waiting == p.waiting
            && (if a.Purge? then p.waiting && WaitDone(q) else !p.waiting && p.callers[c].Woken? && !WaitDone(q))
  {
    hide Accounts, QueueIsSeen, StopIsSeen;
    assert WaiterIsSeen(p, p.callers[c]);
    if a.Purge? {
      RunningIsCount(p);
    } else if a.Recreate? {
      assert WaiterIsSeen(p, p.callers[a.caller]);
    }
  }

  lemma RunningIsCount(p: Pool)
    requires Accounts(p)
    ensures p.running == BusyCount(p.workers) && |p.workers| == |p.stop|
  {
  }

  lemma ResponsiveCreated(threads: nat, callers: nat)
    requires threads >= 1
    ensures Responsive(Created(threads, callers))
  {
    hide BusyCount, ExecutingCount, InOnePlace;
    AccountsCreated(threads, callers);
  }

  lemma {:induction false} ResponsiveRun(p: Pool, actions: seq<Action>)
    requires Responsive(p) && IsGuardedRun(p, actions)
    ensures IsRun(p, actions) && Responsive(Run(p, actions))
    decreases |actions|
  {
    hide Step, Enabled, Responsive, Harmless;
    if actions != [] {
      ResponsiveStep(p, actions[0]);
      ResponsiveRun(Step(p, actions[0]), actions[1..]);
    }
  }

  /** No lost wake-up: in every state that such a run reaches, a non-empty queue has an awake worker, a
      submitter that still owes its notify, or a reset that will start workers; and a waiter asleep
      means there is a task queued or a worker running, and that its `waiting` flag is up. */
  lemma NoLostWakeUp(threads: nat, callers: nat, actions: seq<Action>)
    requires threads >= 1 && IsGuardedRun(Created(threads, callers), actions)
    ensures IsRun(Created(threads, callers), actions)
    ensures var p := Run(Created(threads, callers), actions);
            && (p.tasks != [] ==> p.owed > 0 || SomeAwake(p) || SomeStopping(p))
            && (forall c :: 0 <= c < |p.callers| && p.callers[c].Asleep? ==>
                  p.waiting && (p.running > 0 || p.tasks != []))
  {
    hide Step, Enabled, Created;
    ResponsiveCreated(threads, callers);
    ResponsiveRun(Created(threads, callers), actions);
    var p := Run(Created(threads, callers), actions);
    forall c | 0 <= c < |p.callers| && p.callers[c].Asleep? ensures p.waiting && (p.running > 0 || p.tasks != []) {
      assert WaiterIsSeen(p, p.callers[c]);
    }
  }

  // ---------------------------------------------------------------------------------------------
  // Progress: what is under way comes to its end
  // ---------------------------------------------------------------------------------------------

  /** Steps that threads already inside the pool take by themselves: no new submission or wait, and
      no spurious wake-up. `EndTask` among them: tasks terminate. */
  predicate Internal(a: Action) {
    a.Notify? || a.Section? || a.Wake? || a.EndTask? || a.WaitWake? || a.StopWorker? || a.Recreate?
  }

  ghost predicate Stuck(p: Pool) {
    forall a :: Internal(a) ==> !Enabled(p, a)
  }

  /** All work is over: every task finished or purged, every worker asleep, nobody waiting. */
  ghost predicate AllDone(p: Pool) {
    && p.tasks == [] && p.owed == 0
    && (forall t: nat :: t < p.detached ==> Over(p, t))
    && (forall i :: 0 <= i < |p.workers| ==> p.workers[i].Sleeping?)
    && (forall c :: 0 <= c < |p.callers| ==> p.callers[c].Idle? || p.callers[c].Returned?)
  }

  lemma StuckWorkers(p: Pool)
    requires Responsive(p) && Stuck(p)
    ensures p.owed == 0 && !SomeStopping(p)
    ensures forall i :: 0 <= i < |p.workers| ==> p.workers[i].Sleeping?
  {
    hide BusyCount, ExecutingCount, InOnePlace, Settled;
    forall i: nat | i < |p.workers| ensures p.workers[i].Sleeping? || p.workers[i].Exited? {
      assert !Enabled(p, Section(i)) && !Enabled(p, Wake(i)) && !Enabled(p, EndTask(i));
    }
    if SomeStopping(p) {
      var c :| 0 <= c < |p.callers| && p.callers[c].Stopping?;
      assert !Enabled(p, Recreate(c));
      forall i: nat | i < |p.workers| ensures p.workers[i].Exited? {
        assert !Enabled(p, StopWorker(i)) && StopIsSeen(p, i);
      }
    }
    forall i: nat | i < |p.workers| ensures p.workers[i].Sleeping? { assert StopIsSeen(p, i); }
    assert !Enabled(p, Notify(0)) && p.workers[0].Sleeping?;
  }

  /** The protocol does not deadlock: where no thread can take a step, all work is over. */
  lemma StuckMeansDone(p: Pool)
    requires Responsive(p) && Stuck(p)
    ensures AllDone(p)
  {
    hide ExecutingCount;
    StuckWorkers(p);
    SameCounts(p.workers, false);
    forall c: nat | c < |p.callers| ensures p.callers[c].Idle? || p.callers[c].Returned? {
      assert WaiterIsSeen(p, p.callers[c]);
      assert !Enabled(p, WaitWake(c));
    }
    forall t: nat | t < p.detached ensures Over(p, t) { assert InOnePlace(p, t); }
  }

  function Total<T>(s: seq<T>, weight: T -> nat): nat {
    if s == [] then 0 else weight(s[0]) + Total(s[1..], weight)
  }

  lemma {:induction false} TotalUpdate<T>(s: seq<T>, i: nat, x: T, weight: T -> nat)
    requires i < |s|
    ensures Total(s[i := x], weight) + weight(s[i]) == Total(s, weight) + weight(x)
    decreases |s|
  {
    if i == 0 {
      assert s[0 := x][1..] == s[1..];
    } else {
      assert s[i := x][1..] == s[1..][i - 1 := x];
      TotalUpdate(s[1..], i - 1, x, weight);
    }
  }

  function ResetWeight(c: Caller): nat {
    if c.Stopping? then 1 else if InReset(c) then 2 else 0
  }

  function WokenWeight(c: Caller): nat {
    if c.Woken? then 1 else 0
  }

  function UnstoppedWeight(stop: bool): nat {
    if stop then 0 else 1
  }

  function WorkerWeight(w: Worker): nat {
    match w
    case Executing(_) => 3
    case Starting => 2
    case Finished => 2
    case Notified => 1
    case Sleeping => 0
    case Exited => 0
  }

  function ResetRank(p: Pool): nat { Total(p.callers, ResetWeight) }

  function StopRank(p: Pool): nat { Total(p.stop, UnstoppedWeight) }

  function WorkRank(p: Pool): nat {
    4 * |p.tasks| + 2 * p.owed + Total(p.workers, WorkerWeight)
  }

  function WokenRank(p: Pool): nat { Total(p.callers, WokenWeight) }

  /** The ranks in lexicographic order. */
  ghost predicate Closer(q: Pool, p: Pool) {
    || ResetRank(q) < ResetRank(p)
    || (ResetRank(q) == ResetRank(p) && StopRank(q) < StopRank(p))
    || (ResetRank(q) == ResetRank(p) && StopRank(q) == StopRank(p) && WorkRank(q) < WorkRank(p))
    || (ResetRank(q) == ResetRank(p) && StopRank(q) == StopRank(p) && WorkRank(q) == WorkRank(p)
        && WokenRank(q) < WokenRank(p))
  }

  /** Waking the waiters ends no reset. */
  lemma {:induction false} WakeAllKeepsResets(callers: seq<Caller>)
    ensures Total(WakeAll(callers), ResetWeight) == Total(callers, ResetWeight)
  {
    if callers != [] {
      assert WakeAll(callers)[1..] == WakeAll(callers[1..]);
      WakeAllKeepsResets(callers[1..]);
    }
  }

  lemma TakeOrSleepRank(p: Pool, i: nat)
    requires i < |p.workers| == |p.stop|
    ensures var q := TakeOrSleep(p, i);
            ResetRank(q) == ResetRank(p) && StopRank(q) == StopRank(p)
            && WorkRank(q) + WorkerWeight(p.workers[i]) <= WorkRank(p)
  {
    hide Total;
    TotalUpdate(p.workers, i, TakeOrSleep(p, i).workers[i], WorkerWeight);
  }

  lemma CloserWorkers(p: Pool, a: Action)
    requires Enabled(p, a)
    requires a.Notify? || a.Section? || a.Wake? || a.EndTask?
    ensures Closer(Step(p, a), p)
  {
    hide Total;
    match a
    case Notify(i) => if i < |p.workers| { TotalUpdate(p.workers, i, Notified, WorkerWeight); }
    case Section(i) => WakeAllKeepsResets(p.callers); TakeOrSleepRank(CountedOut(p), i);
    case Wake(i) => TakeOrSleepRank(p, i);
    case EndTask(i) => TotalUpdate(p.workers, i, Finished, WorkerWeight);
  }

  lemma CloserCallers(p: Pool, a: Action)
    requires Enabled(p, a) && (a.WaitWake? || a.StopWorker? || a.Recreate?)
    ensures Closer(Step(p, a), p)
  {
    hide Total;
    match a
    case WaitWake(c) =>
      TotalUpdate(p.callers, c, Step(p, a).callers[c], ResetWeight);
      TotalUpdate(p.callers, c, Step(p, a).callers[c], WokenWeight);
    case StopWorker(i) => TotalUpdate(p.stop, i, true, UnstoppedWeight);
    case Recreate(c) => TotalUpdate(p.callers, c, Step(p, a).callers[c], ResetWeight);
  }

  /** Every harmless internal step comes closer to the end, in a well-founded order. */
  lemma InternalStepsCloser(p: Pool, a: Action)
    requires Responsive(p) && Enabled(p, a) && Internal(a) && Harmless(p, a)
    ensures Responsive(Step(p, a)) && Closer(Step(p, a), p)
  {
    hide Step, Enabled, Closer, Harmless;
    ResponsiveStep(p, a);
    if a.WaitWake? || a.StopWorker? || a.Recreate? { CloserCallers(p, a); } else { CloserWorkers(p, a); }
  }

  /** And where a thread can take a step, some thread can take a harmless one: only starting new workers can be harmful,
      while another waiter is awake and will find its wait over. */
  lemma HarmlessNext(p: Pool) returns (a: Action)
    requires Healthy(p) && !Stuck(p)
    ensures Internal(a) && Enabled(p, a) && Harmless(p, a)
  {
    hide Accounts;
    a :| Internal(a) && Enabled(p, a);
    if !Harmless(p, a) {
      var c :| 0 <= c < |p.callers| && InWait(p.callers[c]);
      assert Responsive(p) ==> WaiterIsSeen(p, p.callers[c]);
      a := WaitWake(c);
    }
  }

  // A purge during a reset may take away what a waiter waits for: then the reset's new workers will wake it, unless a
  // waiter that is awake lowers the flag before that.

  ghost predicate OneReset(callers: seq<Caller>) {
    forall c, d :: 0 <= c < d < |callers| ==> !(InReset(callers[c]) && InReset(callers[d]))
  }

  lemma OneResetStep(p: Pool, a: Action)
    requires OneReset(p.callers) && Enabled(p, a)
    ensures OneReset(Step(p, a).callers)
  {
    if a.Section? { SameCallers(CountedOut(p), a.worker); }
    if a.Wake? { SameCallers(p, a.worker); }
    hide TakeOrSleep;
    var q := Step(p, a);
    if !a.Wait? {
      assert |q.callers| == |p.callers|;
      assert forall c :: 0 <= c < |p.callers| && InReset(q.callers[c]) ==> InReset(p.callers[c]);
    }
  }

  /** Two resets are never under way at once. */
  lemma {:induction false} OneResetAlways(p: Pool, actions: seq<Action>)
    requires OneReset(p.callers) && IsRun(p, actions)
    ensures OneReset(Run(p, actions).callers)
    decreases |actions|
  {
    hide Step, Enabled, OneReset;
    if actions != [] {
      OneResetStep(p, actions[0]);
      OneResetAlways(Step(p, actions[0]), actions[1..]);
    }
  }

  ghost predicate NobodyWoken(p: Pool) {
    forall c :: 0 <= c < |p.callers| ==> !p.callers[c].Woken?
  }

  /** All is over, nobody was told, but a reset will start new workers. */
  ghost predicate Recovering(p: Pool) {
    && Accounts(p) && |p.workers| >= 1 && WaitDone(p)
    && SomeStopping(p) && OneReset(p.callers) && NobodyWoken(p)
    && (forall c :: 0 <= c < |p.callers| && p.callers[c].Asleep? ==> p.waiting)
    && (forall c :: 0 <= c < |p.callers| && (InWait(p.callers[c]) || p.callers[c].Stopping?) ==>
          p.callers[c].threads >= 1)
    && (forall i: nat :: i < |p.workers| ==> StopIsSeen(p, i))
  }

  lemma PurgeDuringReset(p: Pool)
    requires Responsive(p) && OneReset(p.callers) && Enabled(p, Purge)
    requires !Harmless(p, Purge) && SomeStopping(p) && NobodyWoken(p)
    ensures Recovering(Step(p, Purge))
  {
    hide BusyCount, ExecutingCount, InOnePlace, Settled, Accounts;
    AccountsStep(p, Purge);
    RunningIsCount(p);
    var q := Step(p, Purge);
    SameStopping(p, q);
    forall c | 0 <= c < |q.callers|
      ensures q.callers[c].Asleep? ==> q.waiting
      ensures InWait(q.callers[c]) || q.callers[c].Stopping? ==> q.callers[c].threads >= 1
    {
      assert WaiterIsSeen(p, p.callers[c]);
    }
    forall k: nat | k < |q.workers| ensures StopIsSeen(q, k) { assert StopIsSeen(p, k); }
  }

  lemma RecoveringStep(p: Pool, a: Action)
    requires Recovering(p) && Enabled(p, a) && Internal(a)
    ensures Harmless(p, a) && (Recovering(Step(p, a)) || (Responsive(Step(p, a)) && Calm(Step(p, a))))
  {
    hide ExecutingCount, InOnePlace, Settled, Accounts;
    AccountsStep(p, a);
    RunningIsCount(p);
    NoneBusy(p.workers);
    if a.Recreate? {
      Recovered(p, a.caller);
    } else {
      StillRecovering(p, a);
    }
  }

  lemma Recovered(p: Pool, c: nat)
    requires Recovering(p) && Enabled(p, Recreate(c)) && Accounts(Step(p, Recreate(c)))
    ensures Responsive(Step(p, Recreate(c))) && Calm(Step(p, Recreate(c)))
  {
    hide BusyCount, ExecutingCount, InOnePlace, Settled, Accounts;
    var q := Step(p, Recreate(c));
    assert Awake(q.workers[0]);
    assert InReset(p.callers[c]);
    forall d | 0 <= d < |q.callers| ensures WaiterIsSeen(q, q.callers[d]) && !InReset(q.callers[d]) {
      assert d != c ==> q.callers[d] == p.callers[d];
    }
  }

  lemma StillRecovering(p: Pool, a: Action)
    requires Recovering(p) && Enabled(p, a) && Internal(a) && !a.Recreate? && Accounts(Step(p, a))
    requires forall i :: 0 <= i < |p.workers| ==> !Busy(p.workers[i])
    ensures Recovering(Step(p, a))
  {
    hide BusyCount, ExecutingCount, InOnePlace, Settled, Accounts;
    var q := Step(p, a);
    assert q.callers == p.callers;
    SameStopping(p, q);
    forall k: nat | k < |q.workers| ensures StopIsSeen(q, k) { assert StopIsSeen(p, k); }
  }

  lemma RecoveringIsNotStuck(p: Pool)
    requires Recovering(p)
    ensures !Stuck(p)
  {
    hide ExecutingCount, InOnePlace, Settled;
    NoneBusy(p.workers);
    var c :| 0 <= c < |p.callers| && p.callers[c].Stopping?;
    if i: nat :| i < |p.workers| && !p.workers[i].Exited? {
      assert StopIsSeen(p, i);
      assert Enabled(p, Wake(i)) || Enabled(p, StopWorker(i));
    } else {
      assert Enabled(p, Recreate(c));
    }
  }

  ghost predicate Healthy(p: Pool) {
    Responsive(p) || Recovering(p)
  }

  lemma HealthySteps(p: Pool, a: Action)
    requires Healthy(p) && Enabled(p, a) && Internal(a) && Harmless(p, a)
    ensures Healthy(Step(p, a)) && Closer(Step(p, a), p)
  {
    hide Step, Enabled, Closer, Calm, Responsive, Harmless;
    if Recovering(p) {
      RecoveringStep(p, a);
      if a.WaitWake? || a.StopWorker? || a.Recreate? { CloserCallers(p, a); } else { CloserWorkers(p, a); }
    } else {
      InternalStepsCloser(p, a);
    }
  }

  /** In every state that a run of harmless steps reaches: the next step leaves the pool healthy if and only if it is
      harmless or a purge during a reset while no waiter is awake. */
  lemma HealthyExactly(threads: nat, callers: nat, actions: seq<Action>, a: Action)
    requires threads >= 1 && IsRun(Created(threads, callers), actions)
    requires IsGuardedRun(Created(threads, callers), actions)
    requires Enabled(Run(Created(threads, callers), actions), a)
    ensures var p := Run(Created(threads, callers), actions);
            Healthy(Step(p, a)) <==> Harmless(p, a) || (a.Purge? && SomeStopping(p) && NobodyWoken(p))
  {
    hide Created, Step, Enabled, Responsive, Recovering, Harmless, OneReset, NobodyWoken, SomeStopping;
    ResponsiveCreated(threads, callers);
    ResponsiveRun(Created(threads, callers), actions);
    NoResetYet(threads, callers);
    OneResetAlways(Created(threads, callers), actions);
    var p := Run(Created(threads, callers), actions);
    ResponsiveExactly(p, a);
    if !Harmless(p, a) {
      if a.Purge? && SomeStopping(p) && NobodyWoken(p) { PurgeDuringReset(p); } else { HarmIsNotRecovering(p, a); }
    }
  }

  lemma NoResetYet(threads: nat, callers: nat)
    ensures OneReset(Created(threads, callers).callers)
  {
  }

  lemma HarmIsNotRecovering(p: Pool, a: Action)
    requires Responsive(p) && Enabled(p, a) && !Harmless(p, a)
    requires a.Purge? ==> !SomeStopping(p) || !NobodyWoken(p)
    ensures !Recovering(Step(p, a))
  {
    hide Accounts, QueueIsSeen, StopIsSeen;
    if a.Purge? {
      PurgeKeepsCallers(p);
    } else {
      var c :| 0 <= c < |p.callers| && InWait(p.callers[c]);
      StillWaiting(p, a, c);
    }
  }

  ghost predicate AllInternal(actions: seq<Action>) {
    forall a <- actions :: Internal(a)
  }

  /** A way of scheduling the threads inside: what was done so far decides who goes next, some thread as long as one
      can take a step. */
  ghost predicate Schedules(p: Pool, pick: seq<Action> -> Action) {
    forall done :: IsRun(p, done) && AllInternal(done) && !Stuck(Run(p, done)) ==>
      Internal(pick(done)) && Enabled(Run(p, done), pick(done))
  }

  /** One that picks harmless steps, of which there is always one, `HarmlessNext`. */
  ghost predicate SchedulesHarmlessly(p: Pool, pick: seq<Action> -> Action) {
    forall done :: IsRun(p, done) && IsGuardedRun(p, done) && AllInternal(done) && !Stuck(Run(p, done)) ==>
      Internal(pick(done)) && Enabled(Run(p, done), pick(done)) && Harmless(Run(p, done), pick(done))
  }

  ghost predicate Picked(actions: seq<Action>, pick: seq<Action> -> Action) {
    forall k :: 0 <= k < |actions| ==> actions[k] == pick(actions[..k])
  }

  /** So, left to itself, the pool finishes everything: whatever the order of the harmless internal steps, they come to
      an end, and there all work is over. */
  lemma WorkGetsDone(p: Pool, pick: seq<Action> -> Action) returns (actions: seq<Action>)
    requires Healthy(p) && SchedulesHarmlessly(p, pick)
    ensures IsRun(p, actions) && AllInternal(actions) && Picked(actions, pick) && AllDone(Run(p, actions))
  {
    hide Healthy, SchedulesHarmlessly, AllDone;
    actions := RestGetsDone(p, pick, []);
  }

  lemma {:induction false} RestGetsDone(p: Pool, pick: seq<Action> -> Action, done: seq<Action>)
    returns (actions: seq<Action>)
    requires SchedulesHarmlessly(p, pick) && IsRun(p, done) && IsGuardedRun(p, done) && AllInternal(done)
    requires Picked(done, pick) && Healthy(Run(p, done))
    ensures IsRun(p, actions) && AllInternal(actions) && Picked(actions, pick) && AllDone(Run(p, actions))
    decreases ResetRank(Run(p, done)), StopRank(Run(p, done)), WorkRank(Run(p, done)), WokenRank(Run(p, done))
  {
    hide Step, Enabled, Responsive, Recovering, AllDone, ResetRank, StopRank, WorkRank, WokenRank, Internal, IsRun,
      Run, Stuck, Harmless, IsGuardedRun;
    var q := Run(p, done);
    if Stuck(q) {
      if Recovering(q) { RecoveringIsNotStuck(q); }
      StuckMeansDone(q);
      actions := done;
    } else {
      var a := pick(done);
      HealthySteps(q, a);
      RunSnoc(p, done, a);
      GuardedSnoc(p, done, a);
      PickedSnoc(done, a, pick);
      actions := RestGetsDone(p, pick, done + [a]);
    }
  }

  lemma {:induction false} GuardedSnoc(p: Pool, done: seq<Action>, a: Action)
    requires IsRun(p, done) && IsGuardedRun(p, done) && Enabled(Run(p, done), a) && Harmless(Run(p, done), a)
    ensures IsGuardedRun(p, done + [a])
    decreases |done|
  {
    hide Step, Enabled, Harmless;
    if done == [] {
      assert done + [a] == [a] && [a][1..] == [];
    } else {
      assert (done + [a])[1..] == done[1..] + [a];
      GuardedSnoc(Step(p, done[0]), done[1..], a);
    }
  }

  lemma PickedSnoc(done: seq<Action>, a: Action, pick: seq<Action> -> Action)
    requires Picked(done, pick) && AllInternal(done) && a == pick(done) && Internal(a)
    ensures Picked(done + [a], pick) && AllInternal(done + [a])
  {
    hide Internal;
    var all := done + [a];
    forall k | 0 <= k < |all| ensures all[k] == pick(all[..k]) {
      assert all[..k] == done[..k];
      assert done[..|done|] == done;
    }
  }

  // Where a reset does not share its wait, no internal step is harmful: then any scheduling will do.

  /** A reset under way does not share its wait: so starting the new workers is harmless. Any state without a reset is
      calm. */
  ghost predicate Calm(p: Pool) {
    (exists c :: 0 <= c < |p.callers| && InReset(p.callers[c])) ==>
      OneWaiter(p.callers) && (p.waiting || NobodyWaits(p))
  }

  lemma CalmIsHarmless(p: Pool, a: Action)
    requires Calm(p) && Enabled(p, a) && Internal(a)
    ensures Harmless(p, a)
  {
    if a.Recreate? { assert InReset(p.callers[a.caller]); }
  }

  lemma CalmStays(p: Pool, a: Action)
    requires Calm(p) && Enabled(p, a) && Internal(a)
    ensures Calm(Step(p, a))
  {
    hide TakeOrSleep;
    var q := Step(p, a);
    InternalCallers(p, a);
    if c :| 0 <= c < |q.callers| && InReset(q.callers[c]) {
      assert InReset(p.callers[c]);
      if p.waiting && !q.waiting {
        assert InWait(p.callers[a.caller]);
      }
    }
  }

  /** No internal step starts a wait or a reset; the flag goes down only when a waiter leaves. */
  lemma InternalCallers(p: Pool, a: Action)
    requires Enabled(p, a) && Internal(a)
    ensures var q := Step(p, a);
            && |q.callers| == |p.callers|
            && (forall c :: 0 <= c < |p.callers| ==>
                  (InWait(q.callers[c]) ==> InWait(p.callers[c])) && (InReset(q.callers[c]) ==> InReset(p.callers[c])))
            && (q.waiting ==> p.waiting)
            && (p.waiting && !q.waiting ==> a.WaitWake? && !InWait(q.callers[a.caller]))
  {
  }

  /** Responsive without such sharing, or recovering. */
  ghost predicate Orderly(p: Pool) {
    (Responsive(p) && Calm(p)) || Recovering(p)
  }

  lemma OrderlySteps(p: Pool, a: Action)
    requires Orderly(p) && Enabled(p, a) && Internal(a)
    ensures Harmless(p, a) && Orderly(Step(p, a))
  {
    hide Step, Enabled, Calm, Responsive, Harmless;
    if Recovering(p) {
      RecoveringStep(p, a);
    } else {
      CalmIsHarmless(p, a);
      CalmStays(p, a);
      ResponsiveStep(p, a);
    }
  }

  lemma {:induction false} OrderlyRun(p: Pool, done: seq<Action>)
    requires Orderly(p) && IsRun(p, done) && AllInternal(done)
    ensures Orderly(Run(p, done))
    decreases |done|
  {
    hide Step, Enabled, Orderly, Internal;
    if done != [] {
      assert done[0] in done;
      OrderlySteps(p, done[0]);
      OrderlyRun(Step(p, done[0]), done[1..]);
    }
  }

  /** The same for every scheduling, from a state without a shared reset. */
  lemma AnyOrderGetsDone(p: Pool, pick: seq<Action> -> Action) returns (actions: seq<Action>)
    requires Orderly(p) && Schedules(p, pick)
    ensures IsRun(p, actions) && AllInternal(actions) && Picked(actions, pick) && AllDone(Run(p, actions))
  {
    hide Step, Enabled, Responsive, Recovering, Calm, AllDone, Internal, IsRun, Run, Stuck, Harmless, IsGuardedRun;
    forall done | IsRun(p, done) && IsGuardedRun(p, done) && AllInternal(done) && !Stuck(Run(p, done))
      ensures Internal(pick(done)) && Enabled(Run(p, done), pick(done)) && Harmless(Run(p, done), pick(done))
    {
      OrderlyRun(p, done);
      OrderlySteps(Run(p, done), pick(done));
    }
    actions := WorkGetsDone(p, pick);
  }

  // ---------------------------------------------------------------------------------------------
  // What a harmful step does
  // ---------------------------------------------------------------------------------------------

  /** Asleep, and no thread inside the pool will ever notify: the flag is down, or everything is over and no reset will
      start new workers. */
  ghost predicate Stranded(p: Pool, c: nat) {
    && c < |p.callers| && p.callers[c].Asleep?
    && (!p.waiting || (WaitDone(p) && !SomeStopping(p)))
  }

  lemma StrandedStays(p: Pool, a: Action, c: nat)
    requires Accounts(p) && Stranded(p, c) && Enabled(p, a) && Internal(a)
    ensures Accounts(Step(p, a)) && Stranded(Step(p, a), c)
  {
    hide Accounts;
    AccountsStep(p, a);
    RunningIsCount(p);
    if p.waiting {
      NoneBusy(p.workers);
      QuietStep(p, a, c);
    }
  }

  /** When all is over and no reset is under way, workers only go back to sleep; a waiter that is awake leaves, and
      lowers the flag. */
  lemma QuietStep(p: Pool, a: Action, c: nat)
    requires Stranded(p, c) && p.waiting && Enabled(p, a) && Internal(a)
    requires forall i :: 0 <= i < |p.workers| ==> !Busy(p.workers[i])
    ensures Stranded(Step(p, a), c)
  {
    assert forall d :: 0 <= d < |p.callers| ==> !p.callers[d].Stopping?;
  }

  lemma {:induction false} StrandedForGood(p: Pool, later: seq<Action>, c: nat)
    requires Accounts(p) && Stranded(p, c) && IsRun(p, later) && AllInternal(later)
    ensures Stranded(Run(p, later), c)
    decreases |later|
  {
    hide Step, Enabled, Accounts, Stranded, Internal;
    if later != [] {
      assert later[0] in later;
      StrandedStays(p, later[0], c);
      StrandedForGood(Step(p, later[0]), later[1..], c);
    }
  }

  /** The waiter sleeps on whatever the threads inside the pool do. */
  ghost predicate SleepsForever(p: Pool, c: nat) {
    && c < |p.callers|
    && forall later :: IsRun(p, later) && AllInternal(later) ==>
         c < |Run(p, later).callers| && Run(p, later).callers[c].Asleep?
  }

  /** The other half, for all states: after a harmful step at most one more internal step and some waiter sleeps
      forever. After a purge without a reset none is needed. The one exception is a purge during a reset while no waiter
      is awake, `PurgeDuringReset`, from which the pool always recovers. */
  lemma HarmfulStepStrands(p: Pool, a: Action) returns (c: nat, first: seq<Action>)
    requires Responsive(p) && Enabled(p, a) && !Harmless(p, a)
    requires a.Purge? ==> !SomeStopping(p) || !NobodyWoken(p)
    ensures IsRun(Step(p, a), first) && AllInternal(first)
    ensures |first| <= 1 && (a.Purge? && !SomeStopping(p) ==> first == [])
    ensures SleepsForever(Run(Step(p, a), first), c)
  {
    hide Accounts, QueueIsSeen, StopIsSeen, Step, Enabled, Internal;
    c :| 0 <= c < |p.callers| && if a.Purge? then p.callers[c].Asleep? else InWait(p.callers[c]);
    StillWaiting(p, a, c);
    AccountsStep(p, a);
    var q := Step(p, a);
    if a.Purge? && !SomeStopping(p) {
      PurgeKeepsCallers(p);
      first := [];
      AsleepForever(q, c);
    } else if a.Purge? {
      PurgeKeepsCallers(p);
      var d :| 0 <= d < |p.callers| && p.callers[d].Woken?;
      first := [WaitWake(d)];
      RunningIsCount(q);
      FlagGoesDown(q, c, d);
      assert first[1..] == [];
      AccountsStep(q, WaitWake(d));
      AsleepForever(Step(q, WaitWake(d)), c);
    } else {
      first := [WaitWake(c)];
      RunningIsCount(q);
      BackToSleep(q, c);
      assert first[1..] == [];
      AccountsStep(q, WaitWake(c));
      AsleepForever(Step(q, WaitWake(c)), c);
    }
  }

  lemma PurgeKeepsCallers(p: Pool)
    requires Enabled(p, Purge)
    ensures Step(p, Purge).callers == p.callers
    ensures SomeStopping(Step(p, Purge)) ==> SomeStopping(p)
  {
  }

  lemma FlagGoesDown(q: Pool, c: nat, d: nat)
    requires |q.workers| == |q.stop| && c < |q.callers| && d < |q.callers|
    requires q.callers[c].Asleep? && q.callers[d].Woken? && WaitDone(q)
    ensures Enabled(q, WaitWake(d)) && Internal(WaitWake(d)) && Stranded(Step(q, WaitWake(d)), c)
  {
  }

  lemma BackToSleep(q: Pool, c: nat)
    requires |q.workers| == |q.stop| && c < |q.callers| && q.callers[c].Woken? && !q.waiting && !WaitDone(q)
    ensures Enabled(q, WaitWake(c)) && Internal(WaitWake(c)) && Stranded(Step(q, WaitWake(c)), c)
  {
  }

  lemma AsleepForever(p: Pool, c: nat)
    requires Accounts(p) && Stranded(p, c)
    ensures SleepsForever(p, c)
  {
    hide Accounts;
    forall later | IsRun(p, later) && AllInternal(later)
      ensures c < |Run(p, later).callers| && Run(p, later).callers[c].Asleep?
    {
      StrandedForGood(p, later, c);
    }
  }

  // ---------------------------------------------------------------------------------------------
  // Such steps can be reached
  // ---------------------------------------------------------------------------------------------

  /** A waiter that nobody will wake: what it waits for holds, and no thread can take a step. */
  ghost predicate WaiterStranded(p: Pool, c: nat) {
    c < |p.callers| && p.callers[c].Asleep? && WaitDone(p) && p.owed == 0
    && (forall i :: 0 <= i < |p.workers| ==> p.workers[i].Sleeping?)
    && (forall d :: 0 <= d < |p.callers| ==> !p.callers[d].Woken? && !p.callers[d].Stopping?)
  }

  /** A `purge` between a submission and its execution strands a waiter. */
  lemma PurgeStrandsWaiter() returns (actions: seq<Action>)
    ensures IsRun(Created(1, 1), actions) && WaiterStranded(Run(Created(1, 1), actions), 0)
  {
    hide IsRun, Run;
    var p0 := Pool([], 1, false, [Starting], [false], [Idle], 0, 0, multiset{}, multiset{});
    var p1 := p0.(running := 0, workers := [Sleeping]);
    var p2 := p1.(tasks := [0], owed := 1, detached := 1);
    var p3 := p2.(waiting := true, callers := [Asleep(false, 1)]);
    assert Created(1, 1) == p0;
    actions := PurgedUnnoticed(p3);
    actions := Prepend(p2, Wait(0, false, 1), p3, actions);
    actions := Prepend(p1, Detach, p2, actions);
    actions := Prepend(p0, Section(0), p1, actions);
  }

  lemma PurgedUnnoticed(p3: Pool) returns (actions: seq<Action>)
    requires p3 == Pool([0], 0, true, [Sleeping], [false], [Asleep(false, 1)], 1, 1, multiset{}, multiset{})
    ensures IsRun(p3, actions) && WaiterStranded(Run(p3, actions), 0)
  {
    hide IsRun, Run;
    var p4 := p3.(tasks := [], purged := p3.purged + multiset(p3.tasks));
    var p5 := p4.(owed := 0, workers := [Notified]);
    var p6 := p5.(workers := [Sleeping]);
    actions := NoActions(p6);
    actions := Prepend(p5, Wake(0), p6, actions);
    actions := Prepend(p4, Notify(0), p5, actions);
    actions := Prepend(p3, Purge, p4, actions);
  }

  /** Two overlapping waits: the first to return clears the flag that the second still needs. */
  lemma OverlappingWaitsStrandWaiter() returns (actions: seq<Action>)
    ensures IsRun(Created(1, 2), actions) && WaiterStranded(Run(Created(1, 2), actions), 1)
    ensures Purge !in actions
  {
    hide IsRun, Run;
    var idle, asleep, woken := Idle, Asleep(false, 1), Woken(false, 1);
    var p0 := Pool([], 1, false, [Starting], [false], [idle, idle], 0, 0, multiset{}, multiset{});
    var p1 := p0.(waiting := true, callers := [asleep, idle]);
    var p2 := p1.(callers := [asleep, asleep]);
    var p3 := p2.(running := 0, workers := [Sleeping], callers := [woken, woken]);
    var p4 := p3.(waiting := false, callers := [Returned(0), woken]);
    var p5 := p4.(tasks := [0], owed := 1, detached := 1);
    assert Created(1, 2) == p0;
    actions := SecondWaiterStranded(p5);
    actions := Prepend(p4, Detach, p5, actions);
    actions := Prepend(p3, WaitWake(0), p4, actions);
    actions := Prepend(p2, Section(0), p3, actions);
    actions := Prepend(p1, Wait(1, false, 1), p2, actions);
    actions := Prepend(p0, Wait(0, false, 1), p1, actions);
  }

  lemma SecondWaiterStranded(p5: Pool) returns (actions: seq<Action>)
    requires p5 == Pool([0], 0, false, [Sleeping], [false], [Returned(0), Woken(false, 1)], 1, 1,
                        multiset{}, multiset{})
    ensures IsRun(p5, actions) && WaiterStranded(Run(p5, actions), 1)
    ensures Purge !in actions
  {
    hide IsRun, Run;
    var p6 := p5.(owed := 0, workers := [Notified]);
    var p7 := p6.(tasks := p6.tasks[1..], running := 1, workers := [Executing(0)]);
    var p8 := p7.(callers := [Returned(0), Asleep(false, 1)]);
    actions := EndUnnoticed(p8);
    actions := Prepend(p7, WaitWake(1), p8, actions);
    actions := Prepend(p6, Wake(0), p7, actions);
    actions := Prepend(p5, Notify(0), p6, actions);
  }

  lemma EndUnnoticed(p8: Pool) returns (actions: seq<Action>)
    requires p8 == Pool([], 1, false, [Executing(0)], [false], [Returned(0), Asleep(false, 1)], 0, 1,
                        multiset{}, multiset{})
    ensures IsRun(p8, actions) && WaiterStranded(Run(p8, actions), 1)
    ensures Purge !in actions
  {
    hide IsRun, Run;
    var p9 := p8.(finished := p8.finished + multiset{0}, workers := [Finished]);
    var p10 := p9.(running := 0, workers := [Sleeping]);
    actions := NoActions(p10);
    actions := Prepend(p9, Section(0), p10, actions);
    actions := Prepend(p8, EndTask(0), p9, actions);
  }

  /** A reset whose wait is shared: it lowers the flag, and when it starts new workers, which is harmful then, the other
      waiter goes back to sleep with the flag down. No task is involved. */
  lemma SharedResetStrandsWaiter() returns (first: seq<Action>, rest: seq<Action>)
    ensures IsRun(Created(1, 2), first)
    ensures var p := Run(Created(1, 2), first);
            && Enabled(p, Recreate(0)) && !Harmless(p, Recreate(0))
            && IsRun(Step(p, Recreate(0)), rest) && WaiterStranded(Run(Step(p, Recreate(0)), rest), 1)
    ensures forall a <- first + rest :: !a.Purge? && !a.Detach?
  {
    hide IsRun, Run;
    var idle, asleep, woken := Idle, Asleep(false, 1), Woken(false, 1);
    var p0 := Pool([], 1, false, [Starting], [false], [idle, idle], 0, 0, multiset{}, multiset{});
    var p1 := p0.(waiting := true, callers := [Asleep(true, 1), idle]);
    var p2 := p1.(callers := [Asleep(true, 1), asleep]);
    var p3 := p2.(running := 0, workers := [Sleeping], callers := [Woken(true, 1), woken]);
    assert Created(1, 2) == p0;
    var stopped := ResetLeavesFirst(p3);
    first := Prepend(p2, Section(0), p3, stopped);
    first := Prepend(p1, Wait(1, false, 1), p2, first);
    first := Prepend(p0, Wait(0, true, 1), p1, first);
    rest := NewWorkerUnnoticed(Run(p0, first));
  }

  lemma ResetLeavesFirst(p3: Pool) returns (actions: seq<Action>)
    requires p3 == Pool([], 0, true, [Sleeping], [false], [Woken(true, 1), Woken(false, 1)], 0, 0,
                        multiset{}, multiset{})
    ensures IsRun(p3, actions) && forall a <- actions :: !a.Purge? && !a.Detach?
    ensures Run(p3, actions)
         == Pool([], 0, false, [Exited], [true], [Stopping(0, 1), Woken(false, 1)], 0, 0, multiset{}, multiset{})
  {
    hide IsRun, Run;
    var p4 := p3.(waiting := false, callers := [Stopping(0, 1), Woken(false, 1)]);
    var p5 := p4.(stop := [true], workers := [Notified]);
    var p6 := p5.(workers := [Exited]);
    actions := NoActions(p6);
    actions := Prepend(p5, Wake(0), p6, actions);
    assert p4.callers[0].Stopping?;
    actions := Prepend(p4, StopWorker(0), p5, actions);
    actions := Prepend(p3, WaitWake(0), p4, actions);
  }

  lemma NewWorkerUnnoticed(p6: Pool) returns (actions: seq<Action>)
    requires p6 == Pool([], 0, false, [Exited], [true], [Stopping(0, 1), Woken(false, 1)], 0, 0, multiset{}, multiset{})
    ensures Enabled(p6, Recreate(0)) && !Harmless(p6, Recreate(0))
    ensures IsRun(Step(p6, Recreate(0)), actions) && WaiterStranded(Run(Step(p6, Recreate(0)), actions), 1)
    ensures forall a <- actions :: !a.Purge? && !a.Detach?
  {
    hide IsRun, Run;
    assert InWait(p6.callers[1]);
    var p7 := p6.(running := 1, workers := [Starting], stop := [false], callers := [Returned(0), Woken(false, 1)]);
    var p8 := p7.(callers := [Returned(0), Asleep(false, 1)]);
    var p9 := p8.(running := 0, workers := [Sleeping]);
    assert Step(p6, Recreate(0)) == p7;
    actions := NoActions(p9);
    actions := Prepend(p8, Section(0), p9, actions);
    actions := Prepend(p7, WaitWake(1), p8, actions);
  }

  lemma NoActions(p: Pool) returns (actions: seq<Action>)
    ensures actions == [] && IsRun(p, actions) && Run(p, actions) == p
  {
    actions := [];
  }

  lemma Prepend(p: Pool, a: Action, q: Pool, rest: seq<Action>) returns (actions: seq<Action>)
    requires Enabled(p, a) && Step(p, a) == q && IsRun(q, rest)
    ensures actions == [a] + rest && IsRun(p, actions) && Run(p, actions) == Run(q, rest)
  {
    actions := [a] + rest;
    assert actions[1..] == rest;
  }
}
