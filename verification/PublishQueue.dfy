/**
 The operator's publish queue as a state machine. Each call of publishBlock makes a task that waits for the task
 before it; a task goes through the stages of _publishBlock and may fail in any of them.
 */
module PublishQueue {
  import opened Wrappers
  import opened Ledgers

  /** Queued, then cloned, checked against the latest stored block, committed to the contract, stored; then ended,
      with or without success, and settled once its cleanup has run. */
  datatype Stage =
    | Queued
    | Cloned(state: Ledger)
    | Checked(state: Ledger, blockNumber: nat)
    | Committed(state: Ledger, blockNumber: nat)
    | Ended(ok: bool)
    | Settled(ok: bool)

  /** `after` is the task in progress when this one was made, if there was one. */
  datatype Task = Task(requested: nat, after: Option<nat>, stage: Stage)

  datatype Queue = Queue(tasks: seq<Task>, inProgress: Option<nat>)

  datatype Step =
    | Enqueue(requested: nat)
    | Start(task: nat, live: Ledger)
    | Skip(task: nat)
    | Check(task: nat, latest: Option<nat>, observed: nat)
    | Commit(task: nat)
    | StoreBlock(task: nat)
    | Fail(task: nat)
    | Settle(task: nat)

  const EMPTY: Queue := Queue([], None)

  predicate IsRunning(stage: Stage) {
    stage.Cloned? || stage.Checked? || stage.Committed?
  }

  /** The task before has settled, and how. */
  predicate HasSettled(q: Queue, after: Option<nat>, ok: bool) {
    match after
    case None => ok
    case Some(p) => p < |q.tasks| && q.tasks[p].stage == Settled(ok)
  }

  predicate Can(q: Queue, step: Step) {
    match step
    case Enqueue(_) => true
    case Start(t, _) => t < |q.tasks| && q.tasks[t].stage.Queued? && HasSettled(q, q.tasks[t].after, true)
    case Skip(t) => t < |q.tasks| && q.tasks[t].stage.Queued? && HasSettled(q, q.tasks[t].after, false)
    case Check(t, _, _) => t < |q.tasks| && q.tasks[t].stage.Cloned?
    case Commit(t) => t < |q.tasks| && q.tasks[t].stage.Checked?
    case StoreBlock(t) => t < |q.tasks| && q.tasks[t].stage.Committed?
    case Fail(t) => t < |q.tasks| && IsRunning(q.tasks[t].stage)
    case Settle(t) => t < |q.tasks| && q.tasks[t].stage.Ended?
  }

  function AtStage(q: Queue, t: nat, stage: Stage): Queue
    requires t < |q.tasks|
  {
    q.(tasks := q.tasks[t := q.tasks[t].(stage := stage)])
  }

  function Do(q: Queue, step: Step): Queue
    requires Can(q, step)
  {
    match step
    case Enqueue(requested) =>
      Queue(q.tasks + [Task(requested, q.inProgress, Queued)], Some(|q.tasks|))
    case Start(t, live) => AtStage(q, t, Cloned(Clone(live)))
    case Skip(t) => AtStage(q, t, Ended(false))   // a task whose predecessor failed fails without running
    case Check(t, latest, observed) =>
      var blockNumber := if q.tasks[t].requested != 0 then q.tasks[t].requested else observed;
      if latest.Some? && blockNumber <= latest.value then AtStage(q, t, Ended(false))
      else AtStage(q, t, Checked(q.tasks[t].stage.state, blockNumber))
    case Commit(t) => AtStage(q, t, Committed(q.tasks[t].stage.state, q.tasks[t].stage.blockNumber))
    case StoreBlock(t) => AtStage(q, t, Ended(true))
    case Fail(t) => AtStage(q, t, Ended(false))
    case Settle(t) =>
      var settled := AtStage(q, t, Settled(q.tasks[t].stage.ok));
      if q.inProgress == Some(t) then settled.(inProgress := None) else settled
  }

  /** A step moves its own task only. */
  lemma OthersStay(q: Queue, step: Step)
    requires Can(q, step) && !step.Enqueue?
    ensures |Do(q, step).tasks| == |q.tasks| && step.task < |q.tasks|
    ensures forall i :: 0 <= i < |q.tasks| && i != step.task ==> Do(q, step).tasks[i] == q.tasks[i]
  {
  }

  // ----- what every interleaving keeps

  /** Tasks settle in order: whatever is past waiting has only settled tasks before it. */
  ghost predicate OneAtATime(q: Queue) {
    forall i, j :: 0 <= i < j < |q.tasks| && !q.tasks[j].stage.Queued? ==> q.tasks[i].stage.Settled?
  }

  /** Each task waits for the one before it, unless all before it had settled when it was made. */
  ghost predicate Chained(q: Queue) {
    && (forall t :: 0 <= t < |q.tasks| ==>
          match q.tasks[t].after
          case Some(p) => p == t - 1
          case None => forall i :: 0 <= i < t ==> q.tasks[i].stage.Settled?)
    && match q.inProgress
       case Some(t) => t == |q.tasks| - 1 && !q.tasks[t].stage.Settled?
       case None => forall i :: 0 <= i < |q.tasks| ==> q.tasks[i].stage.Settled?
  }

  ghost predicate Orderly(q: Queue) {
    OneAtATime(q) && Chained(q)
  }

  /** Behind a task that has not settled all are queued, each behind the one before it. */
  lemma LaterAreWaiting(q: Queue, t: nat)
    requires Orderly(q) && t < |q.tasks| && !q.tasks[t].stage.Settled?
    ensures forall j :: t < j < |q.tasks| ==> q.tasks[j].stage.Queued? && q.tasks[j].after == Some(j - 1)
    ensures q.inProgress == Some(|q.tasks| - 1)
  {
  }

  /** A task that can move on has only settled tasks before it. */
  lemma EarlierHaveSettled(q: Queue, step: Step, t: nat)
    requires Orderly(q) && Can(q, step) && !step.Enqueue? && t == step.task
    ensures t < |q.tasks| && !q.tasks[t].stage.Settled?
    ensures forall i :: 0 <= i < t ==> q.tasks[i].stage.Settled?
  {
    if q.tasks[t].stage.Queued? && t > 0 && q.tasks[t].after.Some? {
      assert q.tasks[t - 1].stage.Settled?;
    }
  }

  /** When a task has stored its block, no task is running any more. */
  lemma OthersHaveStopped(q: Queue, t: nat)
    requires Orderly(q) && Can(q, StoreBlock(t))
    ensures forall i :: 0 <= i < |Do(q, StoreBlock(t)).tasks| ==> !IsRunning(Do(q, StoreBlock(t)).tasks[i].stage)
  {
    EarlierHaveSettled(q, StoreBlock(t), t);
    LaterAreWaiting(q, t);
  }

  lemma MovingOneTask(q: Queue, t: nat, stage: Stage)
    requires Orderly(q) && t < |q.tasks| && !q.tasks[t].stage.Settled?
    requires forall i :: 0 <= i < t ==> q.tasks[i].stage.Settled?
    ensures OneAtATime(AtStage(q, t, stage))
    ensures !stage.Settled? ==> Chained(AtStage(q, t, stage))
  {
    LaterAreWaiting(q, t);
    var n := AtStage(q, t, stage);
    assert forall j :: 0 <= j < |n.tasks| ==> n.tasks[j].after == q.tasks[j].after;
  }

  lemma SettlingOneTask(q: Queue, t: nat)
    requires Orderly(q) && Can(q, Settle(t))
    ensures Orderly(Do(q, Settle(t)))
  {
    EarlierHaveSettled(q, Settle(t), t);
    LaterAreWaiting(q, t);
    MovingOneTask(q, t, Settled(q.tasks[t].stage.ok));
    var n := Do(q, Settle(t));
    assert forall j :: 0 <= j < |n.tasks| ==> n.tasks[j].after == q.tasks[j].after;
  }

  lemma StepKeepsOrder(q: Queue, step: Step)
    requires Orderly(q) && Can(q, step)
    ensures Orderly(Do(q, step))
  {
    if step.Settle? {
      SettlingOneTask(q, step.task);
    } else if !step.Enqueue? {
      hide Orderly;
      EarlierHaveSettled(q, step, step.task);
      MovingOneTask(q, step.task, Do(q, step).tasks[step.task].stage);
      MovedIsOrderly(q, step.task, Do(q, step).tasks[step.task].stage);
    }
  }

  lemma MovedIsOrderly(q: Queue, t: nat, stage: Stage)
    requires t < |q.tasks| && OneAtATime(AtStage(q, t, stage)) && Chained(AtStage(q, t, stage))
    ensures Orderly(AtStage(q, t, stage))
  {
  }

  /** At most one _publishBlock runs at a time. */
  lemma AtMostOneRuns(q: Queue, i: nat, j: nat)
    requires Orderly(q) && i < |q.tasks| && j < |q.tasks|
    requires IsRunning(q.tasks[i].stage) && IsRunning(q.tasks[j].stage)
    ensures i == j
  {
  }

  // ----- draining

  function StagesLeft(stage: Stage): nat {
    match stage
    case Queued => 5
    case Cloned(_) => 4
    case Checked(_, _) => 3
    case Committed(_, _) => 2
    case Ended(_) => 1
    case Settled(_) => 0
  }

  function WorkLeft(tasks: seq<Task>): nat {
    if tasks == [] then 0 else WorkLeft(tasks[..|tasks| - 1]) + StagesLeft(tasks[|tasks| - 1].stage)
  }

  lemma {:induction false} WorkLeftUpdated(tasks: seq<Task>, t: nat, task: Task)
    requires t < |tasks|
    ensures WorkLeft(tasks[t := task]) == WorkLeft(tasks) - StagesLeft(tasks[t].stage) + StagesLeft(task.stage)
  {
    var last := |tasks| - 1;
    if t == last {
      assert tasks[t := task][..last] == tasks[..last];
    } else {
      assert tasks[t := task][..last] == tasks[..last][t := task];
      WorkLeftUpdated(tasks[..last], t, task);
    }
  }

  /** Every step other than a new call brings the queue closer to its end. */
  lemma EveryStepCounts(q: Queue, step: Step)
    requires Can(q, step) && !step.Enqueue?
    ensures WorkLeft(Do(q, step).tasks) < WorkLeft(q.tasks)
  {
    WorkLeftUpdated(q.tasks, step.task, Do(q, step).tasks[step.task]);
  }

  /** As long as something is in progress, a task can take the step that the code takes next: it is not only failing
      that is possible. */
  lemma NeverStuck(q: Queue, live: Ledger, latest: Option<nat>, observed: nat) returns (step: Step)
    requires Orderly(q) && q.inProgress.Some?
    ensures Can(q, step) && !step.Enqueue? && !step.Fail?
  {
    var t := FirstUnsettled(q, q.inProgress.value);
    match q.tasks[t].stage
    case Queued => step := if HasSettled(q, q.tasks[t].after, true) then Start(t, live) else Skip(t);
    case Cloned(_) => step := Check(t, latest, observed);
    case Checked(_, _) => step := Commit(t);
    case Committed(_, _) => step := StoreBlock(t);
    case Ended(_) => step := Settle(t);
  }

  ghost predicate IsRun(q: Queue, steps: seq<Step>)
    decreases |steps|
  {
    steps == [] || (Can(q, steps[0]) && IsRun(Do(q, steps[0]), steps[1..]))
  }

  function After(q: Queue, steps: seq<Step>): Queue
    requires IsRun(q, steps)
    decreases |steps|
  {
    if steps == [] then q else After(Do(q, steps[0]), steps[1..])
  }

  /** In every run from an empty queue, with any calls and failures, no two publications are under way at once. */
  lemma NeverTwoAtOnce(steps: seq<Step>, i: nat, j: nat)
    requires IsRun(EMPTY, steps)
    requires var q := After(EMPTY, steps);
             i < |q.tasks| && j < |q.tasks| && IsRunning(q.tasks[i].stage) && IsRunning(q.tasks[j].stage)
    ensures i == j
  {
    RunKeepsOrder(EMPTY, steps);
    AtMostOneRuns(After(EMPTY, steps), i, j);
  }

  lemma {:induction false} RunKeepsOrder(q: Queue, steps: seq<Step>)
    requires Orderly(q) && IsRun(q, steps)
    ensures Orderly(After(q, steps))
    decreases |steps|
  {
    hide Orderly, Can, Do;
    if steps != [] {
      StepKeepsOrder(q, steps[0]);
      RunKeepsOrder(Do(q, steps[0]), steps[1..]);
    }
  }

  /** The queue drains: a run from an empty queue that nothing but a new call can extend ends with nothing in progress
      and every task settled. */
  lemma EndsDrained(steps: seq<Step>)
    requires IsRun(EMPTY, steps) && forall step :: Can(After(EMPTY, steps), step) ==> step.Enqueue?
    ensures var q := After(EMPTY, steps);
            q.inProgress.None? && forall t :: 0 <= t < |q.tasks| ==> q.tasks[t].stage.Settled?
  {
    RunKeepsOrder(EMPTY, steps);
    var q := After(EMPTY, steps);
    if q.inProgress.Some? {
      var step := NeverStuck(q, New([], 0, 0, 0), None, 0);
    }
  }

  // ----- which number is published

  /** A publication passes its check exactly if its number is newer than the latest stored one, and fails otherwise. */
  lemma CheckPassesExactlyIfNewer(q: Queue, t: nat, latest: Option<nat>, observed: nat, n: nat)
    requires Can(q, Check(t, latest, observed))
    requires n == (if q.tasks[t].requested == 0 then observed else q.tasks[t].requested)
    ensures var stage := Do(q, Check(t, latest, observed)).tasks[t].stage;
            && (stage.Checked? <==> latest.None? || latest.value < n)
            && (stage.Checked? ==> stage.blockNumber == n && stage.state == q.tasks[t].stage.state)
            && (!stage.Checked? ==> stage == Ended(false))
  {
  }

  /** The step is a check of the task that lets this number pass: it was requested, or nothing was and it was observed;
      and it is newer than the latest. */
  ghost predicate Lets(step: Step, t: nat, requested: nat, n: nat) {
    && step.Check? && step.task == t
    && (requested != 0 ==> n == requested) && (requested == 0 ==> n == step.observed)
    && (step.latest.Some? ==> step.latest.value < n)
  }

  predicate Publishes(stage: Stage, n: nat) {
    (stage.Checked? || stage.Committed?) && stage.blockNumber == n
  }

  lemma StepLets(q: Queue, step: Step, t: nat, n: nat)
    requires Can(q, step) && t < |Do(q, step).tasks| && Publishes(Do(q, step).tasks[t].stage, n)
    ensures t < |q.tasks| && Do(q, step).tasks[t].requested == q.tasks[t].requested
    ensures Publishes(q.tasks[t].stage, n) || Lets(step, t, q.tasks[t].requested, n)
  {
  }

  lemma {:induction false} RunLets(q: Queue, steps: seq<Step>, t: nat, n: nat)
    requires IsRun(q, steps)
    requires t < |After(q, steps).tasks| && Publishes(After(q, steps).tasks[t].stage, n)
    ensures (t < |q.tasks| && Publishes(q.tasks[t].stage, n)
             && q.tasks[t].requested == After(q, steps).tasks[t].requested)
            || exists i :: 0 <= i < |steps| && Lets(steps[i], t, After(q, steps).tasks[t].requested, n)
    decreases |steps|
  {
    hide Can, Do, Lets, Publishes;
    if steps != [] {
      var next := Do(q, steps[0]);
      RunLets(next, steps[1..], t, n);
      if i :| 0 <= i < |steps[1..]| && Lets(steps[1..][i], t, After(q, steps).tasks[t].requested, n) {
        assert Lets(steps[i + 1], t, After(q, steps).tasks[t].requested, n);
      } else {
        StepLets(q, steps[0], t, n);
      }
    }
  }

  /** In every run, what is committed or about to be is the number that was asked for or, if none was, the one that was
      observed when the publication was checked, and was newer then than the latest stored one. */
  lemma PublishesWhatWasAsked(steps: seq<Step>, t: nat, n: nat)
    requires IsRun(EMPTY, steps)
    requires t < |After(EMPTY, steps).tasks| && Publishes(After(EMPTY, steps).tasks[t].stage, n)
    ensures exists i :: 0 <= i < |steps| && Lets(steps[i], t, After(EMPTY, steps).tasks[t].requested, n)
  {
    RunLets(EMPTY, steps, t, n);
  }

  // ----- failures

  /** The task runs, or has run to its end. */
  predicate HasRun(stage: Stage) {
    IsRunning(stage) || stage == Ended(true) || stage == Settled(true)
  }

  /** Only a task whose predecessor has succeeded ever runs. */
  ghost predicate RunsAfterSuccess(q: Queue) {
    forall t :: 0 <= t < |q.tasks| && HasRun(q.tasks[t].stage) ==> HasSettled(q, q.tasks[t].after, true)
  }

  lemma StepRunsAfterSuccess(q: Queue, step: Step)
    requires Orderly(q) && RunsAfterSuccess(q) && Can(q, step)
    ensures RunsAfterSuccess(Do(q, step))
  {
    if step.Enqueue? {
      assert forall t :: 0 <= t < |q.tasks| ==> Do(q, step).tasks[t] == q.tasks[t];
    } else {
      EarlierHaveSettled(q, step, step.task);
      OthersStay(q, step);
      StepKeepsAfter(q, step);
      StepRunsItself(q, step);
    }
  }

  /** A task is never given another predecessor, and one that has settled stays as it is. */
  lemma StepKeepsAfter(q: Queue, step: Step)
    requires Can(q, step) && !step.Enqueue?
    ensures |Do(q, step).tasks| == |q.tasks|
    ensures forall t :: 0 <= t < |q.tasks| ==> Do(q, step).tasks[t].after == q.tasks[t].after
    ensures forall t :: 0 <= t < |q.tasks| && q.tasks[t].stage.Settled? ==> Do(q, step).tasks[t] == q.tasks[t]
  {
  }

  /** A task that has run after a step had run before it, or was started by it. */
  lemma StepRunsItself(q: Queue, step: Step)
    requires Can(q, step) && !step.Enqueue?
    ensures HasRun(Do(q, step).tasks[step.task].stage) ==>
              HasRun(q.tasks[step.task].stage) || (step.Start? && HasSettled(q, q.tasks[step.task].after, true))
  {
  }

  lemma {:induction false} RunsKeepRunningAfterSuccess(q: Queue, steps: seq<Step>)
    requires Orderly(q) && RunsAfterSuccess(q) && IsRun(q, steps)
    ensures RunsAfterSuccess(After(q, steps))
    decreases |steps|
  {
    hide Orderly, Can, Do, RunsAfterSuccess;
    if steps != [] {
      StepKeepsOrder(q, steps[0]);
      StepRunsAfterSuccess(q, steps[0]);
      RunsKeepRunningAfterSuccess(Do(q, steps[0]), steps[1..]);
    }
  }

  /** In every run: a task that waits for one that has settled has run, or still can, exactly if that one succeeded. If
      it failed, the task never runs: it is waiting or has failed. */
  lemma RunsExactlyIfPredecessorSucceeds(steps: seq<Step>, t: nat, ok: bool, live: Ledger)
    requires IsRun(EMPTY, steps)
    requires var q := After(EMPTY, steps);
             t < |q.tasks| && q.tasks[t].after.Some? && HasSettled(q, q.tasks[t].after, ok)
    ensures var q := After(EMPTY, steps);
            && (HasRun(q.tasks[t].stage) || Can(q, Start(t, live)) ==> ok)
            && (q.tasks[t].stage.Queued? ==> (Can(q, Start(t, live)) <==> ok) && (Can(q, Skip(t)) <==> !ok))
            && (!ok ==> q.tasks[t].stage in {Queued, Ended(false), Settled(false)})
  {
    RunsKeepRunningAfterSuccess(EMPTY, steps);
  }

  /** So one failure fails all that wait in a row behind it. */
  lemma {:induction false} FailurePropagates(steps: seq<Step>, p: nat, t: nat)
    requires IsRun(EMPTY, steps)
    requires var q := After(EMPTY, steps);
             && p <= t < |q.tasks| && q.tasks[p].stage == Settled(false)
             && forall i :: p < i <= t ==> q.tasks[i].after == Some(i - 1)
    ensures After(EMPTY, steps).tasks[t].stage in {Queued, Ended(false), Settled(false)}
    decreases t - p
  {
    var q := After(EMPTY, steps);
    if p < t {
      FailurePropagates(steps, p, t - 1);
      RunKeepsOrder(EMPTY, steps);
      RunsKeepRunningAfterSuccess(EMPTY, steps);
      assert !HasSettled(q, Some(t - 1), true);
    }
  }

  lemma RunOfOne(q: Queue, step: Step, rest: seq<Step>)
    requires Can(q, step) && IsRun(Do(q, step), rest)
    ensures IsRun(q, [step] + rest) && After(q, [step] + rest) == After(Do(q, step), rest)
  {
    assert ([step] + rest)[1..] == rest;
  }

  /** A run in which the first of two calls fails, and the second fails without having been started. */
  lemma SecondFailsUnstarted(live: Ledger, a: nat, b: nat)
    ensures var steps := [Enqueue(a), Enqueue(b), Start(0, live), Fail(0), Settle(0), Skip(1), Settle(1)];
            IsRun(EMPTY, steps) &&
            After(EMPTY, steps) == Queue([Task(a, None, Settled(false)), Task(b, Some(0), Settled(false))], None)
  {
    hide Clone;
    var q1 := Do(EMPTY, Enqueue(a));
    var q2 := Do(q1, Enqueue(b));
    var q3 := Do(q2, Start(0, live));
    var q4 := Do(q3, Fail(0));
    var q5 := Do(q4, Settle(0));
    var q6 := Do(q5, Skip(1));
    RunOfOne(q6, Settle(1), []);
    RunOfOne(q5, Skip(1), [Settle(1)]);
    RunOfOne(q4, Settle(0), [Skip(1), Settle(1)]);
    RunOfOne(q3, Fail(0), [Settle(0), Skip(1), Settle(1)]);
    RunOfOne(q2, Start(0, live), [Fail(0), Settle(0), Skip(1), Settle(1)]);
    RunOfOne(q1, Enqueue(b), [Start(0, live), Fail(0), Settle(0), Skip(1), Settle(1)]);
    RunOfOne(EMPTY, Enqueue(a), [Enqueue(b), Start(0, live), Fail(0), Settle(0), Skip(1), Settle(1)]);
  }

  // ----- length

  /** Without new calls no run is longer than the work that was left, so the queue drains. */
  lemma {:induction false} RunsAreBounded(q: Queue, steps: seq<Step>)
    requires IsRun(q, steps) && forall i :: 0 <= i < |steps| ==> !steps[i].Enqueue?
    ensures |steps| <= WorkLeft(q.tasks)
    decreases |steps|
  {
    hide Can, Do, WorkLeft;
    if steps != [] {
      EveryStepCounts(q, steps[0]);
      RunsAreBounded(Do(q, steps[0]), steps[1..]);
    }
  }

  lemma FirstUnsettled(q: Queue, n: nat) returns (t: nat)
    requires n < |q.tasks| && !q.tasks[n].stage.Settled?
    ensures t < |q.tasks| && !q.tasks[t].stage.Settled?
    ensures forall i :: 0 <= i < t ==> q.tasks[i].stage.Settled?
  {
    t := 0;
    while q.tasks[t].stage.Settled?
      invariant t <= n
      decreases n - t
      invariant forall i :: 0 <= i < t ==> q.tasks[i].stage.Settled?
    {
      t := t + 1;
    }
  }
}
