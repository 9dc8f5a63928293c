/** The periodic scheduler on top of the pool: scheduling, stopping and the scan loop as steps on the
    state that its mutex protects, with the pool's runs, the clock and the sleeping loop explicit. */
module Scheduler {

  datatype Option<T> = None | Some(value: T)

  datatype StopPolicy = WaitForCompletion | SkipWait

  type RunId = nat

  datatype Task = Task(id: nat, policy: StopPolicy, interval: int, promise: Option<RunId>, nextExecution: int)

  /** One submission to the pool: for which task, when, and whether the pool has finished it. */
  datatype PoolRun = PoolRun(owner: nat, at: int, done: bool)

  /** A task that `StopTask` has taken out of the list; `returned` once `StopTask` has returned true. */
  datatype Stopped = Stopped(task: Task, returned: bool)

  /** Where the scan loop is: about to lock, or in one of its two waits, not notified or notified. */
  datatype Loop =
    | Awake
    | AsleepEmpty(notified: bool)
    | AsleepUntil(notified: bool, deadline: int, seen: nat)

  /** `owed` counts `Schedule` calls between their unlock and their `notify_all`. */
  datatype State = State(tasks: seq<Task>, counter: nat, stopped: seq<Stopped>, loop: Loop,
                         owed: nat, runs: seq<PoolRun>, now: int)

  datatype Action =
    | Schedule(policy: StopPolicy, interval: int)
    | Notify
    | StopBegin(id: nat)
    | StopReturn(index: nat)
    | Scan
    | Wake
    | Timeout
    | Spurious
    | Finish(run: RunId)
    | Tick(d: nat)

  const MAX_TIME: int := 0x7FFF_FFFF_FFFF_FFFF

  const INITIAL: State := State([], 0, [], Awake, 0, [], 0)

  predicate Running(t: Task, runs: seq<PoolRun>) {
    t.promise.Some? && t.promise.value < |runs| && !runs[t.promise.value].done
  }

  /** The scan's treatment of one task. */
  function ScanTask(t: Task, runs: seq<PoolRun>, now: int): (Task, seq<PoolRun>) {
    if now >= t.nextExecution then
      if Running(t, runs) then (t.(nextExecution := now + t.interval), runs)
      else (t.(promise := Some(|runs|), nextExecution := now + t.interval), runs + [PoolRun(t.id, now, false)])
    else (t, runs)
  }

  function ScanTasks(tasks: seq<Task>, runs: seq<PoolRun>, now: int): (r: (seq<Task>, seq<PoolRun>))
    ensures |r.0| == |tasks|
  {
    if tasks == [] then ([], runs)
    else
      var (t, runs1) := ScanTask(tasks[0], runs, now);
      var (rest, runs2) := ScanTasks(tasks[1..], runs1, now);
      ([t] + rest, runs2)
  }

  function NextWake(tasks: seq<Task>): int {
    if tasks == [] then MAX_TIME
    else
      var rest := NextWake(tasks[1..]);
      if tasks[0].nextExecution < rest then tasks[0].nextExecution else rest
  }

  function IndexOf(tasks: seq<Task>, id: nat): (i: nat)
    ensures i <= |tasks|
    ensures i < |tasks| ==> tasks[i].id == id
    ensures forall j :: 0 <= j < i ==> tasks[j].id != id
  {
    if tasks == [] || tasks[0].id == id then 0 else 1 + IndexOf(tasks[1..], id)
  }

  predicate Enabled(s: State, a: Action) {
    match a
    case Notify => s.owed > 0
    case StopReturn(k) => k < |s.stopped| && !s.stopped[k].returned
                          && (s.stopped[k].task.policy.WaitForCompletion? ==> !Running(s.stopped[k].task, s.runs))
    case Scan => s.loop.Awake?
    case Wake => !s.loop.Awake? && s.loop.notified
    case Timeout => s.loop.AsleepUntil? && s.now >= s.loop.deadline
    case Spurious => !s.loop.Awake?
    case Finish(r) => r < |s.runs| && !s.runs[r].done
    case _ => true
  }

  function Notified(loop: Loop): Loop {
    if loop.Awake? then loop else loop.(notified := true)
  }

  function ScanStep(s: State): State {
    if s.tasks == [] then s.(loop := AsleepEmpty(false))
    else
      var (tasks, runs) := ScanTasks(s.tasks, s.runs, s.now);
      var wake := NextWake(tasks);
      s.(tasks := tasks, runs := runs,
         loop := if wake != MAX_TIME then AsleepUntil(false, wake, s.counter) else Awake)
  }

  /** A notified loop has the mutex again and evaluates its wait predicate. */
  function WakeStep(s: State): State
    requires !s.loop.Awake?
  {
    match s.loop
    case AsleepEmpty(_) => s.(loop := if s.tasks != [] then Awake else AsleepEmpty(false))
    case AsleepUntil(_, deadline, seen) =>
      s.(loop := if seen < s.counter || s.now >= deadline then Awake else AsleepUntil(false, deadline, seen))
  }

  function Step(s: State, a: Action): State
    requires Enabled(s, a)
  {
    match a
    case Schedule(policy, interval) =>
      s.(tasks := s.tasks + [Task(s.counter, policy, interval, None, s.now)],
         counter := s.counter + 1, owed := s.owed + 1)
    case Notify => s.(owed := s.owed - 1, loop := Notified(s.loop))
    case StopBegin(id) =>
      var i := IndexOf(s.tasks, id);
      if i == |s.tasks| then s
      else s.(tasks := s.tasks[..i] + s.tasks[i + 1..], stopped := s.stopped + [Stopped(s.tasks[i], false)])
    case StopReturn(k) => s.(stopped := s.stopped[k := s.stopped[k].(returned := true)])
    case Scan => ScanStep(s)
    case Wake => WakeStep(s)
    case Timeout => s.(loop := Awake)
    case Spurious => s.(loop := Notified(s.loop))
    case Finish(r) => s.(runs := s.runs[r := s.runs[r].(done := true)])
    case Tick(d) => s.(now := s.now + d)
  }

  ghost predicate IsRun(s: State, actions: seq<Action>)
    decreases |actions|
  {
    actions != [] ==> Enabled(s, actions[0]) && IsRun(Step(s, actions[0]), actions[1..])
  }

  ghost function After(s: State, actions: seq<Action>): State
    requires IsRun(s, actions)
    decreases |actions|
  {
    if actions == [] then s else After(Step(s, actions[0]), actions[1..])
  }

  // ---------------------------------------------------------------------------------------------
  // Invariants
  // ---------------------------------------------------------------------------------------------

  /** The times at which task `id` was submitted, in order. */
  function Times(runs: seq<PoolRun>, id: nat): seq<int> {
    if runs == [] then []
    else
      var before := Times(runs[..|runs| - 1], id);
      if runs[|runs| - 1].owner == id then before + [runs[|runs| - 1].at] else before
  }

  ghost predicate Spaced(times: seq<int>, interval: int) {
    forall i, j :: 0 <= i < j < |times| && j == i + 1 ==> times[j] - times[i] >= interval
  }

  /** Every run of the task that is not finished is the one its promise refers to. */
  ghost predicate NoOverlap(t: Task, runs: seq<PoolRun>) {
    forall r: nat :: r < |runs| && runs[r].owner == t.id && !runs[r].done ==> t.promise == Some(r)
  }

  ghost predicate TaskInv(t: Task, runs: seq<PoolRun>) {
    var times := Times(runs, t.id);
    && (t.promise.Some? ==> t.promise.value < |runs| && runs[t.promise.value].owner == t.id)
    && NoOverlap(t, runs)
    && Spaced(times, t.interval)
  }

  ghost predicate NotDue(t: Task, runs: seq<PoolRun>) {
    var times := Times(runs, t.id);
    times != [] ==> t.nextExecution >= times[|times| - 1] + t.interval
  }

  ghost predicate StoppedInv(e: Stopped, runs: seq<PoolRun>) {
    TaskInv(e.task, runs)
    && (e.returned && e.task.policy.WaitForCompletion? ==> !Running(e.task, runs))
  }

  ghost predicate DistinctIds(s: State) {
    && (forall i, j :: 0 <= i < j < |s.tasks| ==> s.tasks[i].id != s.tasks[j].id)
    && (forall i :: 0 <= i < |s.tasks| ==> s.tasks[i].id < s.counter)
    && (forall k :: 0 <= k < |s.stopped| ==> s.stopped[k].task.id < s.counter)
    && (forall i, k :: 0 <= i < |s.tasks| && 0 <= k < |s.stopped| ==> s.tasks[i].id != s.stopped[k].task.id)
  }

  ghost predicate PastRuns(s: State) {
    forall r :: 0 <= r < |s.runs| ==> s.runs[r].at <= s.now && s.runs[r].owner < s.counter
  }

  /** While the loop sleeps un-notified, its deadline is at most the next execution of every task, or
      a `Schedule` that made its wake predicate true still owes its notification. */
  ghost predicate SleepInv(s: State) {
    match s.loop
    case Awake => true
    case AsleepEmpty(notified) => !notified ==> s.tasks == [] || s.owed > 0
    case AsleepUntil(notified, deadline, seen) =>
      && seen <= s.counter
      && (!notified && seen < s.counter ==> s.owed > 0)
      && (seen < s.counter || forall i :: 0 <= i < |s.tasks| ==> deadline <= s.tasks[i].nextExecution)
  }

  ghost predicate Inv(s: State) {
    && DistinctIds(s) && PastRuns(s) && SleepInv(s)
    && (forall i :: 0 <= i < |s.tasks| ==> TaskInv(s.tasks[i], s.runs) && NotDue(s.tasks[i], s.runs))
    && (forall k :: 0 <= k < |s.stopped| ==> StoppedInv(s.stopped[k], s.runs))
  }

  lemma TimesPush(runs: seq<PoolRun>, run: PoolRun, id: nat)
    ensures Times(runs + [run], id) == if run.owner == id then Times(runs, id) + [run.at] else Times(runs, id)
  {
    assert (runs + [run])[..|runs|] == runs;
  }

  lemma {:induction false} TimesFinish(runs: seq<PoolRun>, r: nat, id: nat)
    requires r < |runs|
    ensures Times(runs[r := runs[r].(done := true)], id) == Times(runs, id)
    decreases |runs|
  {
    var n := |runs| - 1;
    var after := runs[r := runs[r].(done := true)];
    if r == n {
      assert after[..n] == runs[..n];
    } else {
      assert after[..n] == runs[..n][r := runs[r].(done := true)];
      TimesFinish(runs[..n], r, id);
    }
  }

  lemma {:induction false} TimesBounded(runs: seq<PoolRun>, id: nat, now: int)
    requires forall r :: 0 <= r < |runs| ==> runs[r].at <= now
    ensures forall i :: 0 <= i < |Times(runs, id)| ==> Times(runs, id)[i] <= now
    decreases |runs|
  {
    if runs != [] { TimesBounded(runs[..|runs| - 1], id, now); }
  }

  lemma {:induction false} TimesUnknown(runs: seq<PoolRun>, id: nat)
    requires forall r :: 0 <= r < |runs| ==> runs[r].owner != id
    ensures Times(runs, id) == []
    decreases |runs|
  {
    if runs != [] { TimesUnknown(runs[..|runs| - 1], id); }
  }

  /** A run submitted for one task leaves the others as they were. */
  lemma PushElsewhere(t: Task, runs: seq<PoolRun>, run: PoolRun)
    requires TaskInv(t, runs) && run.owner != t.id
    ensures TaskInv(t, runs + [run]) && (NotDue(t, runs) ==> NotDue(t, runs + [run]))
    ensures Running(t, runs + [run]) == Running(t, runs)
  {
    TimesPush(runs, run, t.id);
  }

  /** The treatment of a task keeps its invariant, and submits only what does not overlap and is due. */
  lemma ScanTaskInv(t: Task, runs: seq<PoolRun>, now: int)
    requires TaskInv(t, runs) && NotDue(t, runs)
    requires forall r :: 0 <= r < |runs| ==> runs[r].at <= now
    ensures var (t', runs') := ScanTask(t, runs, now);
            TaskInv(t', runs') && NotDue(t', runs')
  {
    hide TaskInv, NotDue, Running;
    if now >= t.nextExecution && !Running(t, runs) {
      SubmittedInv(t, runs, now);
    } else if now >= t.nextExecution {
      PostponedInv(t, runs, now);
    }
  }

  /** A task that is submitted: the new run is the only unfinished one and keeps the distance. */
  lemma SubmittedInv(t: Task, runs: seq<PoolRun>, now: int)
    requires TaskInv(t, runs) && NotDue(t, runs) && now >= t.nextExecution && !Running(t, runs)
    ensures var t', runs' := t.(promise := Some(|runs|), nextExecution := now + t.interval),
                             runs + [PoolRun(t.id, now, false)];
            TaskInv(t', runs') && NotDue(t', runs')
  {
    hide Times;
    TimesPush(runs, PoolRun(t.id, now, false), t.id);
  }

  /** A task that is due while its run is unfinished: only its next execution moves. */
  lemma PostponedInv(t: Task, runs: seq<PoolRun>, now: int)
    requires TaskInv(t, runs) && NotDue(t, runs)
    requires forall r :: 0 <= r < |runs| ==> runs[r].at <= now
    ensures var t' := t.(nextExecution := now + t.interval); TaskInv(t', runs) && NotDue(t', runs)
  {
    hide Times;
    TimesBounded(runs, t.id, now);
  }

  /** The list of tasks under scan, relative to the runs so far. */
  ghost predicate TasksInv(tasks: seq<Task>, runs: seq<PoolRun>) {
    && (forall i, j :: 0 <= i < j < |tasks| ==> tasks[i].id != tasks[j].id)
    && (forall i :: 0 <= i < |tasks| ==> TaskInv(tasks[i], runs) && NotDue(tasks[i], runs))
  }

  lemma {:induction false} ScanTasksElsewhere(tasks: seq<Task>, runs: seq<PoolRun>, now: int, t: Task)
    requires TaskInv(t, runs) && forall i :: 0 <= i < |tasks| ==> tasks[i].id != t.id
    ensures var runs' := ScanTasks(tasks, runs, now).1;
            TaskInv(t, runs') && (NotDue(t, runs) ==> NotDue(t, runs')) && Running(t, runs') == Running(t, runs)
    decreases |tasks|
  {
    hide TaskInv, NotDue, Running;
    if tasks != [] {
      PushElsewhere(t, runs, PoolRun(tasks[0].id, now, false));
      ScanTasksElsewhere(tasks[1..], ScanTask(tasks[0], runs, now).1, now, t);
    }
  }

  lemma {:induction false} ScanTasksInv(tasks: seq<Task>, runs: seq<PoolRun>, now: int)
    requires TasksInv(tasks, runs)
    requires forall r :: 0 <= r < |runs| ==> runs[r].at <= now
    ensures var (tasks', runs') := ScanTasks(tasks, runs, now); TasksInv(tasks', runs')
    ensures forall i :: 0 <= i < |tasks| ==> ScanTasks(tasks, runs, now).0[i].id == tasks[i].id
    decreases |tasks|
  {
    hide TaskInv, NotDue, Running;
    if tasks != [] {
      ScanTaskInv(tasks[0], runs, now);
      var (t, runs1) := ScanTask(tasks[0], runs, now);
      forall i | 1 <= i < |tasks| ensures TaskInv(tasks[i], runs1) && NotDue(tasks[i], runs1) {
        PushElsewhere(tasks[i], runs, PoolRun(tasks[0].id, now, false));
      }
      ScanTasksInv(tasks[1..], runs1, now);
      ScanTasksElsewhere(tasks[1..], runs1, now, t);
    }
  }

  /** Runs that a scan adds: at the current time, for tasks in the list. */
  lemma {:induction false} ScanTasksAdds(tasks: seq<Task>, runs: seq<PoolRun>, now: int)
    ensures var runs' := ScanTasks(tasks, runs, now).1;
            && runs <= runs'
            && forall r :: |runs| <= r < |runs'| ==>
                 runs'[r].at == now && exists i :: 0 <= i < |tasks| && runs'[r].owner == tasks[i].id
    decreases |tasks|
  {
    if tasks != [] {
      var runs1 := ScanTask(tasks[0], runs, now).1;
      ScanTasksAdds(tasks[1..], runs1, now);
      var runs' := ScanTasks(tasks, runs, now).1;
      forall r | |runs| <= r < |runs'|
        ensures runs'[r].at == now && exists i :: 0 <= i < |tasks| && runs'[r].owner == tasks[i].id
      {
        if r >= |runs1| {
          var i :| 0 <= i < |tasks[1..]| && runs'[r].owner == tasks[1..][i].id;
          assert tasks[1..][i] == tasks[i + 1];
        } else {
          assert runs'[r] == runs1[r] && runs1[r].owner == tasks[0].id;
        }
      }
    }
  }

  lemma {:induction false} NextWakeIsEarliest(tasks: seq<Task>)
    ensures NextWake(tasks) <= MAX_TIME
    ensures forall i :: 0 <= i < |tasks| ==> NextWake(tasks) <= tasks[i].nextExecution
    decreases |tasks|
  {
    if tasks != [] { NextWakeIsEarliest(tasks[1..]); }
  }

  lemma {:induction false} NextWakeIsAttained(tasks: seq<Task>)
    ensures NextWake(tasks) == MAX_TIME || exists i :: 0 <= i < |tasks| && NextWake(tasks) == tasks[i].nextExecution
    decreases |tasks|
  {
    if tasks != [] {
      NextWakeIsAttained(tasks[1..]);
      if NextWake(tasks) == tasks[0].nextExecution {
      } else if NextWake(tasks) != MAX_TIME {
        var i :| 0 <= i < |tasks| - 1 && NextWake(tasks[1..]) == tasks[1..][i].nextExecution;
        assert tasks[i + 1].nextExecution == NextWake(tasks);
      }
    }
  }

  /** A scan submits nothing for a task that is not in the list. */
  lemma {:induction false} TimesElsewhere(tasks: seq<Task>, runs: seq<PoolRun>, now: int, id: nat)
    requires forall i :: 0 <= i < |tasks| ==> tasks[i].id != id
    ensures Times(ScanTasks(tasks, runs, now).1, id) == Times(runs, id)
    decreases |tasks|
  {
    hide Times, Running;
    if tasks != [] {
      TimesPush(runs, PoolRun(tasks[0].id, now, false), id);
      TimesElsewhere(tasks[1..], ScanTask(tasks[0], runs, now).1, now, id);
    }
  }

  /** What a scan must do with a task: submit it once if it is due and not running, and move on its next execution
      if it is due. */
  ghost predicate ScannedRight(t: Task, t': Task, runs: seq<PoolRun>, runs': seq<PoolRun>, now: int) {
    var due := now >= t.nextExecution;
    var submitted := due && !Running(t, runs);
    && t'.id == t.id && t'.nextExecution == (if due then now + t.interval else t.nextExecution)
    && Times(runs', t.id) == Times(runs, t.id) + (if submitted then [now] else [])
    && (if submitted then
          t'.promise.Some? && |runs| <= t'.promise.value < |runs'| && runs'[t'.promise.value].owner == t.id
        else t'.promise == t.promise)
  }

  lemma ScannedRightFirst(t: Task, runs: seq<PoolRun>, now: int)
    ensures var (t', runs') := ScanTask(t, runs, now); ScannedRight(t, t', runs, runs', now)
  {
    TimesPush(runs, PoolRun(t.id, now, false), t.id);
    assert Times(runs, t.id) + [] == Times(runs, t.id);
  }

  lemma {:induction false} ScanTasksRight(tasks: seq<Task>, runs: seq<PoolRun>, now: int, i: nat)
    requires i < |tasks| && TasksInv(tasks, runs)
    ensures var (tasks', runs') := ScanTasks(tasks, runs, now);
            ScannedRight(tasks[i], tasks'[i], runs, runs', now)
    decreases |tasks|
  {
    hide Times, NotDue, Running, NoOverlap, Spaced;
    var (t, runs1) := ScanTask(tasks[0], runs, now);
    ScanTasksAdds(tasks[1..], runs1, now);
    if i == 0 {
      ScannedRightFirst(tasks[0], runs, now);
      TimesElsewhere(tasks[1..], runs1, now, tasks[0].id);
    } else {
      forall k | 1 <= k < |tasks| ensures TaskInv(tasks[k], runs1) && NotDue(tasks[k], runs1) {
        PushElsewhere(tasks[k], runs, PoolRun(tasks[0].id, now, false));
      }
      PushElsewhere(tasks[i], runs, PoolRun(tasks[0].id, now, false));
      TimesPush(runs, PoolRun(tasks[0].id, now, false), tasks[i].id);
      ScanTasksRight(tasks[1..], runs1, now, i - 1);
    }
  }

  /** In every reachable state a scan submits each live task exactly once when it is due and has no unfinished run,
      and not at all otherwise. */
  lemma ScanSubmitsExactly(actions: seq<Action>, i: nat)
    requires IsRun(INITIAL, actions)
    requires After(INITIAL, actions).loop.Awake? && i < |After(INITIAL, actions).tasks|
    ensures var s := After(INITIAL, actions);
            var s' := Step(s, Scan);
            |s'.tasks| == |s.tasks| && ScannedRight(s.tasks[i], s'.tasks[i], s.runs, s'.runs, s.now)
  {
    InvAfter(INITIAL, actions);
    var s := After(INITIAL, actions);
    ScanTasksRight(s.tasks, s.runs, s.now, i);
  }

  /** The task is in the list, due, and was never submitted. */
  ghost predicate AwaitsFirstScan(s: State, id: nat) {
    && Times(s.runs, id) == []
    && exists i :: 0 <= i < |s.tasks| && AwaitsIn(s.tasks[i], s.now, id)
  }

  predicate AwaitsIn(t: Task, now: int, id: nat) {
    t.id == id && t.promise.None? && t.nextExecution <= now
  }

  lemma StillAwaits(s: State, a: Action, id: nat)
    requires AwaitsFirstScan(s, id) && Enabled(s, a) && a != Scan && a != StopBegin(id)
    ensures AwaitsFirstScan(Step(s, a), id)
  {
    hide Times;
    var i :| 0 <= i < |s.tasks| && AwaitsIn(s.tasks[i], s.now, id);
    var s' := Step(s, a);
    if a.Finish? { TimesFinish(s.runs, a.run, id); }
    var k := if a.StopBegin? && IndexOf(s.tasks, a.id) < i then i - 1 else i;
    assert AwaitsIn(s'.tasks[k], s'.now, id);
  }

  lemma {:induction false} StillAwaitsAfter(s: State, actions: seq<Action>, id: nat)
    requires AwaitsFirstScan(s, id) && IsRun(s, actions) && Scan !in actions && StopBegin(id) !in actions
    ensures AwaitsFirstScan(After(s, actions), id)
    decreases |actions|
  {
    hide AwaitsFirstScan, Step, Enabled;
    if actions != [] {
      assert actions[0] in actions;
      StillAwaits(s, actions[0], id);
      StillAwaitsAfter(Step(s, actions[0]), actions[1..], id);
    }
  }

  /** A scheduled task is due at once: whatever happens in between, if it is not stopped, the next scan submits it for
      the first time. */
  lemma FirstRunAtOnce(before: seq<Action>, policy: StopPolicy, interval: int, between: seq<Action>)
    requires IsRun(INITIAL, before)
    requires var s := After(INITIAL, before);
             var s1 := Step(s, Schedule(policy, interval));
             && IsRun(s1, between) && Scan !in between && StopBegin(s.counter) !in between
             && After(s1, between).loop.Awake?
    ensures var s := After(INITIAL, before);
            var s2 := After(Step(s, Schedule(policy, interval)), between);
            Times(s2.runs, s.counter) == [] && Times(Step(s2, Scan).runs, s.counter) == [s2.now]
  {
    hide Inv, AwaitsFirstScan, Times;
    InitialInv();
    InvAfter(INITIAL, before);
    var s := After(INITIAL, before);
    var s1 := Step(s, Schedule(policy, interval));
    InvSchedule(s, policy, interval);
    JustScheduled(s, policy, interval);
    InvAfter(s1, between);
    StillAwaitsAfter(s1, between, s.counter);
    NewTaskIsSubmitted(After(s1, between), s.counter);
  }

  lemma InitialInv()
    ensures Inv(INITIAL)
  {
  }

  lemma JustScheduled(s: State, policy: StopPolicy, interval: int)
    requires Inv(s)
    ensures AwaitsFirstScan(Step(s, Schedule(policy, interval)), s.counter)
  {
    hide TaskInv, NotDue, StoppedInv, SleepInv;
    TimesUnknown(s.runs, s.counter);
    var s1 := Step(s, Schedule(policy, interval));
    assert AwaitsIn(s1.tasks[|s.tasks|], s1.now, s.counter);
  }

  lemma NewTaskIsSubmitted(s: State, id: nat)
    requires Inv(s) && s.loop.Awake? && AwaitsFirstScan(s, id)
    ensures Times(s.runs, id) == [] && Times(Step(s, Scan).runs, id) == [s.now]
  {
    hide TaskInv, NotDue, StoppedInv, PastRuns, SleepInv, Times, ScanTasks;
    var i :| 0 <= i < |s.tasks| && AwaitsIn(s.tasks[i], s.now, id);
    ScanTasksRight(s.tasks, s.runs, s.now, i);
  }

  /** After a scan the loop sleeps until the earliest next execution, no earlier and no later; with no task it sleeps
      without a deadline. */
  lemma ScanSleepsExactly(s: State)
    requires s.loop.Awake?
    ensures var s' := Step(s, Scan);
            && (s'.loop.AsleepEmpty? <==> s.tasks == [])
            && (s'.loop.AsleepUntil? ==>
                  && !s'.loop.notified && s'.loop.seen == s.counter
                  && (exists i :: 0 <= i < |s'.tasks| && s'.loop.deadline == s'.tasks[i].nextExecution)
                  && (forall i :: 0 <= i < |s'.tasks| ==> s'.loop.deadline <= s'.tasks[i].nextExecution))
            && (s'.loop.Awake? ==> forall i :: 0 <= i < |s'.tasks| ==> s'.tasks[i].nextExecution >= MAX_TIME)
  {
    hide ScanTasks, NextWake;
    var tasks := ScanTasks(s.tasks, s.runs, s.now).0;
    NextWakeIsEarliest(tasks);
    NextWakeIsAttained(tasks);
  }

  lemma InvScan(s: State)
    requires Inv(s)
    ensures Inv(ScanStep(s))
  {
    hide TaskInv, NotDue, Running;
    if s.tasks != [] {
      ScanTasksInv(s.tasks, s.runs, s.now);
      ScanTasksAdds(s.tasks, s.runs, s.now);
      var (tasks, runs) := ScanTasks(s.tasks, s.runs, s.now);
      NextWakeIsEarliest(tasks);
      forall k | 0 <= k < |s.stopped| ensures StoppedInv(s.stopped[k], runs) {
        ScanTasksElsewhere(s.tasks, s.runs, s.now, s.stopped[k].task);
      }
    }
  }

  lemma InvSchedule(s: State, policy: StopPolicy, interval: int)
    requires Inv(s)
    ensures Inv(Step(s, Schedule(policy, interval)))
  {
    TimesUnknown(s.runs, s.counter);
  }

  lemma InvStopBegin(s: State, id: nat)
    requires Inv(s)
    ensures Inv(Step(s, StopBegin(id)))
  {
    hide TaskInv, NotDue, Running, StoppedInv, DistinctIds, PastRuns, SleepInv, Times;
    var i := IndexOf(s.tasks, id);
    if i < |s.tasks| {
      var s' := Step(s, StopBegin(id));
      assert StoppedInv(Stopped(s.tasks[i], false), s.runs) by { JustStopped(s.tasks[i], s.runs); }
      Removed(s.tasks, i);
      assert DistinctIds(s') by { DistinctWithout(s, i); }
      assert PastRuns(s') by { SamePast(s, s'); }
      assert SleepInv(s') by { SleepWithout(s, i); }
    }
  }

  lemma Removed(tasks: seq<Task>, i: nat)
    requires i < |tasks|
    ensures var rest := tasks[..i] + tasks[i + 1..];
            |rest| == |tasks| - 1 && forall j :: 0 <= j < |rest| ==> rest[j] == tasks[if j < i then j else j + 1]
  {
  }

  lemma JustStopped(t: Task, runs: seq<PoolRun>)
    requires TaskInv(t, runs)
    ensures StoppedInv(Stopped(t, false), runs)
  {
    hide TaskInv, Running;
  }

  lemma DistinctWithout(s: State, i: nat)
    requires DistinctIds(s) && i < |s.tasks|
    ensures DistinctIds(s.(tasks := s.tasks[..i] + s.tasks[i + 1..],
                           stopped := s.stopped + [Stopped(s.tasks[i], false)]))
  {
    Removed(s.tasks, i);
  }

  lemma SamePast(s: State, s': State)
    requires PastRuns(s) && s'.runs == s.runs && s'.now == s.now && s'.counter == s.counter
    ensures PastRuns(s')
  {
  }

  lemma SleepWithout(s: State, i: nat)
    requires SleepInv(s) && i < |s.tasks|
    ensures SleepInv(s.(tasks := s.tasks[..i] + s.tasks[i + 1..], stopped := s.stopped + [Stopped(s.tasks[i], false)]))
  {
    Removed(s.tasks, i);
  }

  lemma InvFinish(s: State, r: RunId)
    requires Inv(s) && Enabled(s, Finish(r))
    ensures Inv(Step(s, Finish(r)))
  {
    var s' := Step(s, Finish(r));
    forall i | 0 <= i < |s'.tasks| ensures TaskInv(s'.tasks[i], s'.runs) && NotDue(s'.tasks[i], s'.runs) {
      TimesFinish(s.runs, r, s.tasks[i].id);
    }
    forall k | 0 <= k < |s'.stopped| ensures StoppedInv(s'.stopped[k], s'.runs) {
      TimesFinish(s.runs, r, s.stopped[k].task.id);
    }
  }

  lemma InvStep(s: State, a: Action)
    requires Inv(s) && Enabled(s, a)
    ensures Inv(Step(s, a))
  {
    match a
    case Schedule(policy, interval) => InvSchedule(s, policy, interval);
    case StopBegin(id) => InvStopBegin(s, id);
    case Scan => InvScan(s);
    case Finish(r) => InvFinish(s, r);
    case _ => InvSimple(s, a);
  }

  lemma InvSimple(s: State, a: Action)
    requires Inv(s) && Enabled(s, a)
    requires a.Notify? || a.StopReturn? || a.Wake? || a.Timeout? || a.Spurious? || a.Tick?
    ensures Inv(Step(s, a))
  {
    hide TaskInv, NotDue, Running;
  }

  lemma {:induction false} InvAfter(s: State, actions: seq<Action>)
    requires Inv(s) && IsRun(s, actions)
    ensures Inv(After(s, actions))
    decreases |actions|
  {
    hide Step, Enabled, Inv;
    if actions != [] {
      InvStep(s, actions[0]);
      InvAfter(Step(s, actions[0]), actions[1..]);
    }
  }

  // ---------------------------------------------------------------------------------------------
  // What the scheduler guarantees
  // ---------------------------------------------------------------------------------------------

  /** In every reachable state each task, live or stopped, has at most one submitted and unfinished run. */
  lemma AtMostOneRun(actions: seq<Action>, t: Task, r1: RunId, r2: RunId)
    requires IsRun(INITIAL, actions)
    requires var s := After(INITIAL, actions);
             && (t in s.tasks || exists k :: 0 <= k < |s.stopped| && s.stopped[k].task == t)
             && r1 < |s.runs| && r2 < |s.runs|
             && s.runs[r1].owner == t.id == s.runs[r2].owner && !s.runs[r1].done && !s.runs[r2].done
    ensures r1 == r2
  {
    InvAfter(INITIAL, actions);
    var s := After(INITIAL, actions);
    if t in s.tasks {
      var i :| 0 <= i < |s.tasks| && s.tasks[i] == t;
      assert TaskInv(s.tasks[i], s.runs);
    } else {
      var k :| 0 <= k < |s.stopped| && s.stopped[k].task == t;
      assert StoppedInv(s.stopped[k], s.runs);
    }
  }

  /** Stopped tasks stay stopped, and are never submitted again. */
  lemma {:induction false} StoppedForGood(s: State, actions: seq<Action>, k: nat)
    requires Inv(s) && IsRun(s, actions) && k < |s.stopped|
    ensures var s' := After(s, actions);
            && k < |s'.stopped| && s'.stopped[k].task == s.stopped[k].task
            && (s.stopped[k].returned ==> s'.stopped[k].returned)
            && |s.runs| <= |s'.runs|
            && forall r :: |s.runs| <= r < |s'.runs| ==> s'.runs[r].owner != s.stopped[k].task.id
    decreases |actions|
  {
    hide Step, Enabled, Inv;
    if actions != [] {
      var s1 := Step(s, actions[0]);
      InvStep(s, actions[0]);
      StoppedOneStep(s, actions[0], k);
      StoppedForGood(s1, actions[1..], k);
      OwnersStay(s1, actions[1..]);
    }
  }

  lemma StoppedOneStep(s: State, a: Action, k: nat)
    requires Inv(s) && Enabled(s, a) && k < |s.stopped|
    ensures var s' := Step(s, a);
            && k < |s'.stopped| && s'.stopped[k].task == s.stopped[k].task
            && (s.stopped[k].returned ==> s'.stopped[k].returned)
            && |s.runs| <= |s'.runs|
            && forall r :: |s.runs| <= r < |s'.runs| ==> s'.runs[r].owner != s.stopped[k].task.id
  {
    hide TaskInv, NotDue, Running;
    if a.Scan? { ScanTasksAdds(s.tasks, s.runs, s.now); }
  }

  lemma {:induction false} OwnersStay(s: State, actions: seq<Action>)
    requires Inv(s) && IsRun(s, actions)
    ensures var s' := After(s, actions);
            |s.runs| <= |s'.runs| && forall r :: 0 <= r < |s.runs| ==> s'.runs[r].owner == s.runs[r].owner
    decreases |actions|
  {
    hide Inv, TaskInv, NotDue, Running;
    if actions != [] {
      InvStep(s, actions[0]);
      if actions[0].Scan? { ScanTasksAdds(s.tasks, s.runs, s.now); }
      OwnersStay(Step(s, actions[0]), actions[1..]);
    }
  }

  /** The stop guarantee: once `StopTask` has returned for a task stopped with `kWaitForCompletion`, in
      every later state all its runs are finished and were submitted before; with `kSkipWait` at most
      the one run its promise refers to is left, and none is submitted later either. */
  lemma StopGuarantee(before: seq<Action>, after: seq<Action>, k: nat)
    requires IsRun(INITIAL, before) && IsRun(After(INITIAL, before), after)
    requires k < |After(INITIAL, before).stopped| && After(INITIAL, before).stopped[k].returned
    ensures var s := After(INITIAL, before);
            var t, s' := s.stopped[k].task, After(s, after);
            && (t.policy.WaitForCompletion? ==>
                  forall r :: 0 <= r < |s'.runs| && s'.runs[r].owner == t.id ==> s'.runs[r].done && r < |s.runs|)
            && (forall r :: 0 <= r < |s'.runs| && s'.runs[r].owner == t.id && !s'.runs[r].done ==>
                  t.promise == Some(r) && r < |s.runs|)
  {
    InvAfter(INITIAL, before);
    var s := After(INITIAL, before);
    InvAfter(s, after);
    StoppedForGood(s, after, k);
    assert StoppedInv(After(s, after).stopped[k], After(s, after).runs);
  }

  /** The loop never oversleeps: asleep and not notified, with no `Schedule` still owing its
      notification, its deadline is at most the next execution of every live task (and without a
      deadline there is no live task). */
  lemma NeverOversleeps(actions: seq<Action>)
    requires IsRun(INITIAL, actions)
    ensures var s := After(INITIAL, actions);
            !s.loop.Awake? && !s.loop.notified && s.owed == 0 ==>
              if s.loop.AsleepEmpty? then s.tasks == []
              else forall i :: 0 <= i < |s.tasks| ==> s.loop.deadline <= s.tasks[i].nextExecution
  {
    InvAfter(INITIAL, actions);
  }

  lemma {:induction false} SpacedSpan(times: seq<int>, interval: int, i: nat, j: nat)
    requires Spaced(times, interval) && i <= j < |times|
    ensures times[j] - times[i] >= (j - i) * interval
    decreases j
  {
    if i < j {
      SpacedSpan(times, interval, i, j - 1);
      assert times[j] - times[j - 1] >= interval;
      assert (j - i) * interval == (j - 1 - i) * interval + interval;
    }
  }

  /** The loop never runs a task early: any k + 1 consecutive submissions of a task, live or stopped,
      span at least k intervals. */
  lemma NeverRunsEarly(actions: seq<Action>, t: Task, i: nat, k: nat)
    requires IsRun(INITIAL, actions)
    requires var s := After(INITIAL, actions);
             && (t in s.tasks || exists e :: 0 <= e < |s.stopped| && s.stopped[e].task == t)
             && i + k < |Times(s.runs, t.id)|
    ensures var times := Times(After(INITIAL, actions).runs, t.id); times[i + k] - times[i] >= k * t.interval
  {
    InvAfter(INITIAL, actions);
    hide Times, IsRun, After;
    var s := After(INITIAL, actions);
    KnownIsSpaced(s, t);
    hide Inv;
    SpacedSpan(Times(s.runs, t.id), t.interval, i, i + k);
  }

  lemma KnownIsSpaced(s: State, t: Task)
    requires Inv(s) && (t in s.tasks || exists e :: 0 <= e < |s.stopped| && s.stopped[e].task == t)
    ensures Spaced(Times(s.runs, t.id), t.interval)
  {
    hide Times, NoOverlap, Running, NotDue;
    if t in s.tasks {
      var j :| 0 <= j < |s.tasks| && s.tasks[j] == t;
      assert TaskInv(s.tasks[j], s.runs);
    } else {
      var e :| 0 <= e < |s.stopped| && s.stopped[e].task == t;
      assert StoppedInv(s.stopped[e], s.runs);
    }
  }

  // ---------------------------------------------------------------------------------------------
  // What is due is run, what was asked for is done
  // ---------------------------------------------------------------------------------------------

  /** The end of one of the two waits. */
  predicate Wakes(a: Action) {
    a.Wake? || a.Timeout?
  }

  /** Scanned now, the task is submitted now. */
  ghost predicate SubmittedBy(s: State, id: nat) {
    s.loop.Awake? && Times(Step(s, Scan).runs, id) == Times(s.runs, id) + [s.now]
  }

  /** A due task is run. In every reachable state with a live task that is due and has no unfinished run, the loop, when
      it is not awake, can be woken, at the latest once the notification that is owed has been sent; however its sleep
      ends, it is awake then, and the scan submits the task at this time. */
  lemma DueTaskIsSubmitted(actions: seq<Action>, i: nat)
    requires IsRun(INITIAL, actions) && i < |After(INITIAL, actions).tasks|
    requires var s := After(INITIAL, actions); s.tasks[i].nextExecution <= s.now && !Running(s.tasks[i], s.runs)
    ensures var s := After(INITIAL, actions);
            var id := s.tasks[i].id;
            && (s.loop.Awake? ==> SubmittedBy(s, id))
            && (!s.loop.Awake? && s.owed == 0 ==> Enabled(s, Wake) || Enabled(s, Timeout))
            && (!s.loop.Awake? && s.owed > 0 ==> Enabled(s, Notify) && Enabled(Step(s, Notify), Wake))
            && (forall a :: Wakes(a) && Enabled(s, a) ==> SubmittedBy(Step(s, a), id))
            && (!s.loop.Awake? && s.owed > 0 ==> SubmittedBy(Step(Step(s, Notify), Wake), id))
  {
    InvAfter(INITIAL, actions);
    var s := After(INITIAL, actions);
    if !s.loop.Awake? { CanWake(s, i); }
    hide Inv, Step, Times, Running;
    if s.loop.Awake? { ScanSubmits(s, i); }
    forall a | Wakes(a) && Enabled(s, a)
      ensures SubmittedBy(Step(s, a), s.tasks[i].id)
    {
      AwakeForDue(s, a, i);
      InvStep(s, a);
      ScanSubmits(Step(s, a), i);
    }
    if !s.loop.Awake? && s.owed > 0 {
      InvStep(s, Notify);
      NotifyKeepsDue(s, i);
      var s1 := Step(s, Notify);
      AwakeForDue(s1, Wake, i);
      InvStep(s1, Wake);
      ScanSubmits(Step(s1, Wake), i);
    }
  }

  lemma CanWake(s: State, i: nat)
    requires Inv(s) && i < |s.tasks| && s.tasks[i].nextExecution <= s.now && !s.loop.Awake?
    ensures if s.owed == 0 then Enabled(s, Wake) || Enabled(s, Timeout)
            else Enabled(s, Notify) && Enabled(Step(s, Notify), Wake)
  {
    hide TaskInv, NotDue, StoppedInv;
  }

  lemma NotifyKeepsDue(s: State, i: nat)
    requires i < |s.tasks| && s.owed > 0
    ensures var s1 := Step(s, Notify); s1.tasks == s.tasks && s1.runs == s.runs && s1.now == s.now
  {
  }

  lemma AwakeForDue(s: State, a: Action, i: nat)
    requires Inv(s) && i < |s.tasks| && s.tasks[i].nextExecution <= s.now && Wakes(a) && Enabled(s, a)
    ensures var s1 := Step(s, a); s1.loop.Awake? && s1.tasks == s.tasks && s1.runs == s.runs && s1.now == s.now
  {
    hide TaskInv, NotDue, StoppedInv;
  }

  lemma ScanSubmits(s: State, i: nat)
    requires Inv(s) && s.loop.Awake? && i < |s.tasks|
    requires s.tasks[i].nextExecution <= s.now && !Running(s.tasks[i], s.runs)
    ensures SubmittedBy(s, s.tasks[i].id)
  {
    hide TaskInv, NotDue, StoppedInv, Times, Running, ScanTasks, NextWake;
    ScanTasksRight(s.tasks, s.runs, s.now, i);
    ScanRuns(s);
  }

  lemma ScanRuns(s: State)
    requires s.loop.Awake?
    ensures Step(s, Scan).runs == ScanTasks(s.tasks, s.runs, s.now).1
  {
  }

  /** The loop does not scan without a reason: in every reachable state in which its sleep ends, there are tasks where
      there were none, or one was scheduled since the last scan, or the earliest next execution has come. */
  lemma SleepEndsForAReason(actions: seq<Action>, a: Action)
    requires IsRun(INITIAL, actions) && Wakes(a) && Enabled(After(INITIAL, actions), a)
    ensures var s := After(INITIAL, actions);
            Step(s, a).loop.Awake? <==> if s.loop.AsleepEmpty? then s.tasks != []
                                        else s.loop.seen < s.counter || s.loop.deadline <= s.now
  {
  }

  /** Woken without a reason, the loop goes back to the same sleep. */
  lemma SpuriousChangesNothing(s: State)
    requires !s.loop.Awake? && !s.loop.notified
    requires if s.loop.AsleepEmpty? then s.tasks == [] else s.loop.seen >= s.counter && s.now < s.loop.deadline
    ensures Enabled(s, Spurious) && Enabled(Step(s, Spurious), Wake) && Step(Step(s, Spurious), Wake) == s
  {
  }

  /** What was asked for task `id`, read off the actions alone. */
  datatype Request = NoRequest | Request(policy: StopPolicy, interval: int, stopped: bool)

  function Scheduled(actions: seq<Action>): nat {
    if actions == [] then 0
    else
      var n := |actions| - 1;
      Scheduled(actions[..n]) + if actions[n].Schedule? then 1 else 0
  }

  function Asked(actions: seq<Action>, id: nat): Request {
    if actions == [] then NoRequest
    else
      var n := |actions| - 1;
      var before := Asked(actions[..n], id);
      match actions[n]
      case Schedule(policy, interval) =>
        if Scheduled(actions[..n]) == id then Request(policy, interval, false) else before
      case StopBegin(stopped) => if stopped == id && before.Request? then before.(stopped := true) else before
      case _ => before
  }

  function Elapsed(actions: seq<Action>): nat {
    if actions == [] then 0
    else
      var n := |actions| - 1;
      Elapsed(actions[..n]) + if actions[n].Tick? then actions[n].d else 0
  }

  predicate MadeFrom(t: Task, id: nat, request: Request) {
    request.Request? && t.id == id && t.policy == request.policy && t.interval == request.interval
  }

  ghost predicate AsAsked(s: State, id: nat, request: Request) {
    match request
    case NoRequest =>
      && (forall i :: 0 <= i < |s.tasks| ==> s.tasks[i].id != id)
      && (forall k :: 0 <= k < |s.stopped| ==> s.stopped[k].task.id != id)
    case Request(_, _, stopped) =>
      if stopped then
        && (forall i :: 0 <= i < |s.tasks| ==> s.tasks[i].id != id)
        && exists k :: 0 <= k < |s.stopped| && MadeFrom(s.stopped[k].task, id, request)
      else exists i :: 0 <= i < |s.tasks| && MadeFrom(s.tasks[i], id, request)
  }

  /** In every run each scheduled task, with the policy and the interval it was scheduled with, is in the list until it
      is stopped and from then on among the stopped ones; ids are given in order; the clock has run as far as it was
      moved. */
  lemma {:induction false} TasksAreAsked(actions: seq<Action>, id: nat)
    requires IsRun(INITIAL, actions)
    ensures var s := After(INITIAL, actions);
            && s.counter == Scheduled(actions) && s.now == Elapsed(actions)
            && (Asked(actions, id).Request? <==> id < s.counter)
            && AsAsked(s, id, Asked(actions, id))
    decreases |actions|
  {
    hide Step, Enabled, AsAsked;
    if actions == [] {
      NobodyAsked(id);
    } else {
      var n := |actions| - 1;
      var before, a := actions[..n], actions[n];
      assert actions == before + [a];
      RunLast(INITIAL, before, a);
      TasksAreAsked(before, id);
      InitialInv();
      InvAfter(INITIAL, before);
      StepAsAsked(After(INITIAL, before), a, before, id);
    }
  }

  lemma NobodyAsked(id: nat)
    ensures AsAsked(INITIAL, id, NoRequest)
  {
  }

  lemma {:induction false} RunLast(s: State, done: seq<Action>, a: Action)
    requires IsRun(s, done + [a])
    ensures IsRun(s, done) && Enabled(After(s, done), a) && After(s, done + [a]) == Step(After(s, done), a)
    decreases |done|
  {
    hide Step, Enabled;
    if done == [] {
      assert done + [a] == [a] && [a][1..] == [];
    } else {
      assert (done + [a])[1..] == done[1..] + [a] && (done + [a])[0] == done[0];
      RunLast(Step(s, done[0]), done[1..], a);
    }
  }

  lemma StepAsAsked(s: State, a: Action, before: seq<Action>, id: nat)
    requires Inv(s) && Enabled(s, a) && s.counter == Scheduled(before) && s.now == Elapsed(before)
    requires (Asked(before, id).Request? <==> id < s.counter) && AsAsked(s, id, Asked(before, id))
    ensures var s' := Step(s, a);
            && s'.counter == Scheduled(before + [a]) && s'.now == Elapsed(before + [a])
            && (Asked(before + [a], id).Request? <==> id < s'.counter)
            && AsAsked(s', id, Asked(before + [a], id))
  {
    assert (before + [a])[..|before|] == before && (before + [a])[|before|] == a;
    var first, later := Asked(before, id), Asked(before + [a], id);
    var s' := Step(s, a);
    match a
    case Schedule(policy, interval) => ScheduleAsAsked(s, policy, interval, id, first, later);
    case StopBegin(stopped) => StopAsAsked(s, stopped, id, first, later);
    case Scan => ScanAsAsked(s, id, first);
    case StopReturn(_) => SameTasks(s, s', id, first);
    case _ => SameTasks(s, s', id, first);
  }

  lemma SameTasks(s: State, s': State, id: nat, request: Request)
    requires AsAsked(s, id, request) && s'.tasks == s.tasks && |s'.stopped| == |s.stopped|
    requires forall k :: 0 <= k < |s.stopped| ==> s'.stopped[k].task == s.stopped[k].task
    ensures AsAsked(s', id, request)
  {
    if request.Request? && request.stopped {
      var k :| 0 <= k < |s.stopped| && MadeFrom(s.stopped[k].task, id, request);
      assert MadeFrom(s'.stopped[k].task, id, request);
    }
  }

  lemma ScheduleAsAsked(s: State, policy: StopPolicy, interval: int, id: nat, first: Request, later: Request)
    requires Inv(s) && AsAsked(s, id, first) && (first.Request? <==> id < s.counter)
    requires later == if s.counter == id then Request(policy, interval, false) else first
    ensures AsAsked(Step(s, Schedule(policy, interval)), id, later)
  {
    hide TaskInv, NotDue, StoppedInv, SleepInv, PastRuns;
    var s' := Step(s, Schedule(policy, interval));
    var n := |s.tasks|;
    assert forall i :: 0 <= i < n ==> s'.tasks[i] == s.tasks[i];
    if s.counter == id {
      assert MadeFrom(s'.tasks[n], id, later);
    } else if later.Request? && !later.stopped {
      var i :| 0 <= i < n && MadeFrom(s.tasks[i], id, later);
      assert MadeFrom(s'.tasks[i], id, later);
    }
  }

  lemma StopAsAsked(s: State, stopped: nat, id: nat, first: Request, later: Request)
    requires Inv(s) && AsAsked(s, id, first)
    requires later == if stopped == id && first.Request? then first.(stopped := true) else first
    ensures AsAsked(Step(s, StopBegin(stopped)), id, later)
  {
    hide TaskInv, NotDue, StoppedInv, SleepInv, PastRuns;
    var i := IndexOf(s.tasks, stopped);
    if i < |s.tasks| {
      TakenOut(s, stopped, i, id, first, later);
    } else if first.Request? && first.stopped {
      var k :| 0 <= k < |s.stopped| && MadeFrom(s.stopped[k].task, id, first);
      assert MadeFrom(s.stopped[k].task, id, later);
    }
  }

  /** The state without the task at `i`, which is among the stopped ones now. */
  ghost predicate Without(s: State, s': State, i: nat) {
    && i < |s.tasks| && |s'.tasks| == |s.tasks| - 1 && |s'.stopped| == |s.stopped| + 1
    && (forall j :: 0 <= j < |s'.tasks| ==> s'.tasks[j] == s.tasks[if j < i then j else j + 1])
    && (forall k :: 0 <= k < |s.stopped| ==> s'.stopped[k] == s.stopped[k])
    && s'.stopped[|s.stopped|].task == s.tasks[i]
  }

  lemma TakenOut(s: State, stopped: nat, i: nat, id: nat, first: Request, later: Request)
    requires DistinctIds(s) && AsAsked(s, id, first) && i == IndexOf(s.tasks, stopped) < |s.tasks|
    requires later == if stopped == id && first.Request? then first.(stopped := true) else first
    ensures AsAsked(Step(s, StopBegin(stopped)), id, later)
  {
    hide AsAsked;
    Removed(s.tasks, i);
    var s' := Step(s, StopBegin(stopped));
    assert Without(s, s', i);
    assert s.tasks[i].id == stopped;
    hide Step, Without;
    if stopped == id {
      StoppedAsAsked(s, s', i, id, first, later);
    } else {
      OtherAsAsked(s, s', i, id, first);
    }
  }

  lemma StoppedAsAsked(s: State, s': State, i: nat, id: nat, first: Request, later: Request)
    requires DistinctIds(s) && AsAsked(s, id, first) && Without(s, s', i) && s.tasks[i].id == id
    requires later == if first.Request? then first.(stopped := true) else first
    ensures AsAsked(s', id, later)
  {
    if first.Request? && !first.stopped {
      var j :| 0 <= j < |s.tasks| && MadeFrom(s.tasks[j], id, first);
      assert MadeFrom(s'.stopped[|s.stopped|].task, id, later);
    }
  }

  lemma OtherAsAsked(s: State, s': State, i: nat, id: nat, request: Request)
    requires AsAsked(s, id, request) && Without(s, s', i) && s.tasks[i].id != id
    ensures AsAsked(s', id, request)
  {
    if request.Request? && !request.stopped {
      var j :| 0 <= j < |s.tasks| && MadeFrom(s.tasks[j], id, request);
      assert MadeFrom(s'.tasks[if j < i then j else j - 1], id, request);
    } else if request.Request? {
      var k :| 0 <= k < |s.stopped| && MadeFrom(s.stopped[k].task, id, request);
      assert MadeFrom(s'.stopped[k].task, id, request);
    }
  }

  lemma ScanAsAsked(s: State, id: nat, request: Request)
    requires AsAsked(s, id, request) && s.loop.Awake?
    ensures AsAsked(Step(s, Scan), id, request)
  {
    hide ScanTasks, NextWake;
    var s' := Step(s, Scan);
    ScanKeepsTasks(s.tasks, s.runs, s.now);
    if request.Request? && !request.stopped {
      var i :| 0 <= i < |s.tasks| && MadeFrom(s.tasks[i], id, request);
      assert MadeFrom(s'.tasks[i], id, request);
    } else if request.Request? {
      var k :| 0 <= k < |s.stopped| && MadeFrom(s.stopped[k].task, id, request);
      assert MadeFrom(s'.stopped[k].task, id, request);
    }
  }

  lemma {:induction false} ScanKeepsTasks(tasks: seq<Task>, runs: seq<PoolRun>, now: int)
    ensures var tasks' := ScanTasks(tasks, runs, now).0;
            forall i :: 0 <= i < |tasks| ==>
              && tasks'[i].id == tasks[i].id && tasks'[i].policy == tasks[i].policy
              && tasks'[i].interval == tasks[i].interval
    decreases |tasks|
  {
    if tasks != [] { ScanKeepsTasks(tasks[1..], ScanTask(tasks[0], runs, now).1, now); }
  }

  /** `Stop` returns: in every reachable state, for every stopped task for which it has not, it can return at once, or
      the task was stopped with `kWaitForCompletion` while its run is unfinished, and then it can once the pool has
      finished this run; and it has returned after that. */
  lemma StopReturns(actions: seq<Action>, k: nat)
    requires IsRun(INITIAL, actions)
    requires k < |After(INITIAL, actions).stopped| && !After(INITIAL, actions).stopped[k].returned
    ensures var s := After(INITIAL, actions);
            var t := s.stopped[k].task;
            if t.policy.WaitForCompletion? && Running(t, s.runs) then
              && !Enabled(s, StopReturn(k)) && s.runs[t.promise.value].owner == t.id
              && Enabled(s, Finish(t.promise.value))
              && var s1 := Step(s, Finish(t.promise.value));
                 Enabled(s1, StopReturn(k)) && Returned(Step(s1, StopReturn(k)), k)
            else Enabled(s, StopReturn(k)) && Returned(Step(s, StopReturn(k)), k)
  {
    InitialInv();
    InvAfter(INITIAL, actions);
    var s := After(INITIAL, actions);
    hide NotDue;
    assert StoppedInv(s.stopped[k], s.runs);
  }

  predicate Returned(s: State, k: nat) {
    k < |s.stopped| && s.stopped[k].returned
  }

  // ---------------------------------------------------------------------------------------------
  // The scheduler object: each method is one of the steps above, performed in place
  // ---------------------------------------------------------------------------------------------

  class PeriodicScheduler {
    var tasks: seq<Task>
    var taskCounter: nat
    var stopped: seq<Stopped>
    var loop: Loop
    var owed: nat
    var runs: seq<PoolRun>
    var now: int

    ghost function View(): State
      reads this
    {
      State(tasks, taskCounter, stopped, loop, owed, runs, now)
    }

    constructor ()
      ensures View() == INITIAL && Inv(View())
    {
      tasks, taskCounter, stopped, loop, owed, runs, now := [], 0, [], Loop.Awake, 0, [], 0;
    }

    /** `Schedule` up to its unlock; the notification is still owed. */
    method ScheduleTask(policy: StopPolicy, interval: int) returns (id: nat)
      requires Inv(View())
      modifies this
      ensures Inv(View()) && View() == Step(old(View()), Schedule(policy, interval))
      ensures id == old(taskCounter)
    {
      InvStep(View(), Schedule(policy, interval));
      id := taskCounter;
      taskCounter := taskCounter + 1;
      tasks := tasks + [Task(id, policy, interval, None, now)];
      owed := owed + 1;
    }

    /** `StopTask` up to its unlock: found exactly when the task is live, and then no longer live. */
    method StopTask(id: nat) returns (found: bool)
      requires Inv(View())
      modifies this
      ensures Inv(View()) && View() == Step(old(View()), StopBegin(id))
      ensures found <==> exists i :: 0 <= i < |old(tasks)| && old(tasks)[i].id == id
      ensures forall i :: 0 <= i < |tasks| ==> tasks[i].id != id
    {
      InvStep(View(), StopBegin(id));
      hide Inv;
      var i := FindTask(id);
      if i == |tasks| { return false; }
      stopped := stopped + [Stopped(tasks[i], false)];
      tasks := tasks[..i] + tasks[i + 1..];
      return true;
    }

    method FindTask(id: nat) returns (i: nat)
      ensures i == IndexOf(tasks, id)
    {
      i := 0;
      while i < |tasks| && tasks[i].id != id
        invariant 0 <= i <= |tasks|
        invariant forall j :: 0 <= j < i ==> tasks[j].id != id
      {
        i := i + 1;
      }
    }

    /** One turn of `ScheduleLoop` under the lock: scan every task in place, then sleep. */
    method ScanInPlace()
      requires Inv(View()) && loop.Awake?
      modifies this
      ensures Inv(View()) && View() == Step(old(View()), Scan)
    {
      hide Inv, ScanTasks, NextWake;
      InvStep(View(), Scan);
      if tasks == [] {
        loop := AsleepEmpty(false);
      } else {
        var wake := ScanTasksInPlace();
        if wake != MAX_TIME { loop := AsleepUntil(false, wake, taskCounter); }
      }
    }

    /** The scan's loop over the tasks. */
    method ScanTasksInPlace() returns (wake: int)
      modifies this`tasks, this`runs
      ensures (tasks, runs) == ScanTasks(old(tasks), old(runs), now)
      ensures wake == NextWake(tasks)
    {
      hide ScanTask, ScanTasks, NextWake;
      ghost var was, target := tasks, ScanTasks(tasks, runs, now);
      wake := MAX_TIME;
      NothingScanned(runs, now);
      assert was[0..] == was && tasks[..0] == [];
      for i := 0 to |tasks|
        invariant |tasks| == |was| && tasks[i..] == was[i..]
        invariant target.0 == tasks[..i] + ScanTasks(was[i..], runs, now).0
        invariant target.1 == ScanTasks(was[i..], runs, now).1
        invariant wake == NextWake(tasks[..i])
      {
        ghost var before, beforeRuns := tasks, runs;
        assert before[i] == before[i..][0] == was[i..][0] == was[i];
        ScanTaskInPlace(i);
        ScanNext(before[..i], was, i, beforeRuns, now);
        NextWakeSnoc(before[..i], tasks[i]);
        UpdatedAt(before, i, tasks[i]);
        assert was[i..][1..] == was[i + 1..] && before[i..][1..] == before[i + 1..];
        if tasks[i].nextExecution < wake { wake := tasks[i].nextExecution; }
      }
      NothingScanned(runs, now);
      assert tasks[..|tasks|] == tasks && was[|tasks|..] == [] && tasks + [] == tasks;
    }

    /** One task: submit it when it is due and not running, and move its next execution on when it is due. */
    method ScanTaskInPlace(i: nat)
      requires i < |tasks|
      modifies this`tasks, this`runs
      ensures |tasks| == |old(tasks)| && tasks == old(tasks)[i := tasks[i]]
      ensures (tasks[i], runs) == ScanTask(old(tasks)[i], old(runs), now)
    {
      if now >= tasks[i].nextExecution {
        var promise := tasks[i].promise;
        var isRunning := promise.Some? && promise.value < |runs| && !runs[promise.value].done;
        if !isRunning {
          runs := runs + [PoolRun(tasks[i].id, now, false)];
          tasks := tasks[i := tasks[i].(promise := Some(|runs| - 1))];
        }
        tasks := tasks[i := tasks[i].(nextExecution := now + tasks[i].interval)];
      }
    }
  }

  lemma NothingScanned(runs: seq<PoolRun>, now: int)
    ensures ScanTasks([], runs, now) == ([], runs) && NextWake([]) == MAX_TIME
  {
  }

  lemma ScanNext(scanned: seq<Task>, was: seq<Task>, i: nat, runs: seq<PoolRun>, now: int)
    requires i < |was|
    ensures var (t, after) := ScanTask(was[i], runs, now);
            && scanned + ScanTasks(was[i..], runs, now).0 == scanned + [t] + ScanTasks(was[i + 1..], after, now).0
            && ScanTasks(was[i..], runs, now).1 == ScanTasks(was[i + 1..], after, now).1
  {
    hide ScanTask;
    assert was[i..][0] == was[i] && was[i..][1..] == was[i + 1..];
  }

  lemma UpdatedAt(tasks: seq<Task>, i: nat, t: Task)
    requires i < |tasks|
    ensures tasks[i := t][..i + 1] == tasks[..i] + [t] && tasks[i := t][i + 1..] == tasks[i + 1..]
  {
  }

  lemma {:induction false} NextWakeSnoc(tasks: seq<Task>, t: Task)
    ensures NextWake(tasks + [t]) == if t.nextExecution < NextWake(tasks) then t.nextExecution else NextWake(tasks)
    decreases |tasks|
  {
    if tasks != [] {
      assert (tasks + [t])[1..] == tasks[1..] + [t];
      NextWakeSnoc(tasks[1..], t);
    } else {
      assert (tasks + [t])[1..] == [];
    }
  }
}
