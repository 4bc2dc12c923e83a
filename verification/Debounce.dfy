/** Debounced resynchronisation of the catalogue.  Every filesystem event creates a task;
    a task that finds a resync pending ends, otherwise it waits two seconds, clears the
    flag and resyncs.  The bodies of the lock hold no suspension point, so entering, and
    clearing the flag with the start of the resync, are atomic steps of the event loop. */
module Debounce {
  import opened Types

  const DELAY: int := 2 * SECOND

  /** `Created`: scheduled but not yet run; `Waiting`: asleep until `wakeAt`. */
  datatype Task = Created | Waiting(wakeAt: int) | Dropped | Resynced(time: int)

  /** Tasks are numbered in the order of their events.  `starts` are the times at which
      resyncs started; `startsBefore[k]` says how many had when event `k` came. */
  datatype Loop = Loop(now: int, pending: bool, tasks: seq<Task>, starts: seq<int>, startsBefore: seq<nat>)

  const IDLE: Loop := Loop(0, false, [], [], [])

  datatype Action =
    | Pass(time: int)
    | FileEvent
    | Enter(task: nat)
    | Wake(task: nat)

  predicate Enabled(l: Loop, a: Action) {
    match a
    case Pass(time) => l.now <= time
    case FileEvent => true
    case Enter(k) => k < |l.tasks| && l.tasks[k].Created?
    case Wake(k) => k < |l.tasks| && l.tasks[k].Waiting? && l.tasks[k].wakeAt <= l.now
  }

  function Step(l: Loop, a: Action): Loop
    requires Enabled(l, a)
  {
    match a
    case Pass(time) => l.(now := time)
    case FileEvent => l.(tasks := l.tasks + [Created], startsBefore := l.startsBefore + [|l.starts|])
    case Enter(k) =>
      if l.pending then l.(tasks := l.tasks[k := Dropped])
      else l.(pending := true, tasks := l.tasks[k := Waiting(l.now + DELAY)])
    case Wake(k) =>
      l.(pending := false, tasks := l.tasks[k := Resynced(l.now)], starts := l.starts + [l.now])
  }

  /** The event loop's own state. */
  class Debouncer {
    var now: int
    var pending: bool
    var tasks: seq<Task>
    var starts: seq<int>
    ghost var startsBefore: seq<nat>

    ghost function View(): Loop
      reads this
    {
      Loop(now, pending, tasks, starts, startsBefore)
    }

    constructor ()
      ensures View() == IDLE
    {
      now := 0;
      pending := false;
      tasks := [];
      starts := [];
      startsBefore := [];
    }

    method ScheduleResync()
      modifies this
      ensures View() == Step(old(View()), FileEvent)
      ensures pending == old(pending) && tasks == old(tasks) + [Created] && starts == old(starts)
    {
      tasks := tasks + [Created];
      startsBefore := startsBefore + [|starts|];
    }

    /** The part of a task before its sleep. */
    method EnterTask(k: nat)
      requires Enabled(View(), Enter(k))
      modifies this
      ensures View() == Step(old(View()), Enter(k))
      // Either the pending resync will do, or this task will resync in two seconds.
      ensures pending && starts == old(starts)
      ensures tasks == old(tasks)[k := if old(pending) then Dropped else Waiting(old(now) + 2_000)]
    {
      if pending {
        tasks := tasks[k := Dropped];
        return;
      }
      pending := true;
      tasks := tasks[k := Waiting(now + DELAY)];
    }

    /** The part of a task after its sleep. */
    method WakeTask(k: nat)
      requires Enabled(View(), Wake(k))
      modifies this
      ensures View() == Step(old(View()), Wake(k))
      ensures !pending && tasks == old(tasks)[k := Resynced(old(now))] && starts == old(starts) + [old(now)]
    {
      pending := false;
      tasks := tasks[k := Resynced(now)];
      starts := starts + [now];
    }
  }

  ghost predicate Run(l: Loop, acts: seq<Action>)
    decreases acts
  {
    acts == [] || (Enabled(l, acts[0]) && Run(Step(l, acts[0]), acts[1..]))
  }

  ghost function After(l: Loop, acts: seq<Action>): Loop
    requires Run(l, acts)
    decreases acts
  {
    if acts == [] then l else After(Step(l, acts[0]), acts[1..])
  }

  // ---------- The invariant ----------

  /** Some task is in its wait window. */
  ghost predicate SomeoneWaits(l: Loop) {
    exists k :: 0 <= k < |l.tasks| && l.tasks[k].Waiting?
  }

  ghost predicate AtMostOneWaits(l: Loop) {
    forall k, k' :: 0 <= k < |l.tasks| && 0 <= k' < |l.tasks| && l.tasks[k].Waiting? && l.tasks[k'].Waiting? ==> k == k'
  }

  /** A resync has started since event `k`. */
  predicate Served(l: Loop, k: nat)
    requires k < |l.startsBefore|
  {
    |l.starts| > l.startsBefore[k]
  }

  predicate Spaced(starts: seq<int>) {
    forall i :: 0 < i < |starts| ==> starts[i] - starts[i - 1] >= DELAY
  }

  predicate Past(starts: seq<int>, now: int) {
    forall i :: 0 <= i < |starts| ==> starts[i] <= now
  }

  function Ended(tasks: seq<Task>): nat {
    if tasks == [] then 0 else Ended(tasks[..|tasks| - 1]) + if tasks[|tasks| - 1].Resynced? then 1 else 0
  }

  ghost predicate Good(l: Loop) {
    && |l.startsBefore| == |l.tasks|
    && (forall k :: 0 <= k < |l.tasks| ==> l.startsBefore[k] <= |l.starts|)
    && (l.pending <==> SomeoneWaits(l)) && AtMostOneWaits(l)
    // A dropped or finished task's event has been served, or the waiting task will serve it.
    && (forall k :: 0 <= k < |l.tasks| && l.tasks[k].Dropped? ==> l.pending || Served(l, k))
    && (forall k :: 0 <= k < |l.tasks| && l.tasks[k].Resynced? ==> Served(l, k))
    && Spaced(l.starts) && Past(l.starts, l.now)
    && (forall k :: 0 <= k < |l.tasks| && l.tasks[k].Waiting? && |l.starts| > 0 ==>
          l.tasks[k].wakeAt >= l.starts[|l.starts| - 1] + DELAY)
    && Ended(l.tasks) == |l.starts|
  }

  lemma {:induction false} EndedUpdate(tasks: seq<Task>, k: nat, task: Task)
    requires k < |tasks| && !tasks[k].Resynced?
    ensures Ended(tasks[k := task]) == Ended(tasks) + if task.Resynced? then 1 else 0
    decreases |tasks|
  {
    var n := |tasks| - 1;
    var tasks' := tasks[k := task];
    if k == n {
      assert tasks'[..n] == tasks[..n];
    } else {
      assert tasks'[..n] == tasks[..n][k := task];
      EndedUpdate(tasks[..n], k, task);
    }
  }

  lemma {:induction false} EndedBound(tasks: seq<Task>)
    ensures Ended(tasks) <= |tasks|
    decreases |tasks|
  {
    if tasks == [] {
    } else {
      EndedBound(tasks[..|tasks| - 1]);
    }
  }

  lemma EventKeepsGood(l: Loop)
    requires Good(l)
    ensures Good(Step(l, FileEvent))
  {
    var l' := Step(l, FileEvent);
    assert l'.tasks[..|l'.tasks| - 1] == l.tasks;
    if SomeoneWaits(l) {
      var k :| 0 <= k < |l.tasks| && l.tasks[k].Waiting?;
      assert l'.tasks[k].Waiting?;
    }
  }

  lemma EnterKeepsGood(l: Loop, k: nat)
    requires Good(l) && Enabled(l, Enter(k))
    ensures Good(Step(l, Enter(k)))
  {
    var l' := Step(l, Enter(k));
    EndedUpdate(l.tasks, k, l'.tasks[k]);
    if l.pending {
      var w :| 0 <= w < |l.tasks| && l.tasks[w].Waiting?;
      assert l'.tasks[w].Waiting?;
    } else {
      assert l'.tasks[k].Waiting?;
    }
  }

  lemma WakeKeepsGood(l: Loop, k: nat)
    requires Good(l) && Enabled(l, Wake(k))
    ensures Good(Step(l, Wake(k)))
  {
    EndedUpdate(l.tasks, k, Step(l, Wake(k)).tasks[k]);
  }

  lemma StepKeepsGood(l: Loop, a: Action)
    requires Good(l) && Enabled(l, a)
    ensures Good(Step(l, a))
  {
    match a
    case Pass(_) =>
    case FileEvent => EventKeepsGood(l);
    case Enter(k) => EnterKeepsGood(l, k);
    case Wake(k) => WakeKeepsGood(l, k);
  }

  lemma {:induction false} RunsAreGood(l: Loop, acts: seq<Action>)
    requires Good(l) && Run(l, acts)
    ensures Good(After(l, acts))
    decreases acts
  {
    if acts == [] {
    } else {
      StepKeepsGood(l, acts[0]);
      RunsAreGood(Step(l, acts[0]), acts[1..]);
    }
  }

  // ---------- What holds in every run ----------

  /** No task is left to run. */
  predicate Quiet(l: Loop) {
    forall k :: 0 <= k < |l.tasks| ==> l.tasks[k].Dropped? || l.tasks[k].Resynced?
  }

  /** In every interleaving: the flag is set exactly when one task waits; resyncs start at
      least two seconds apart and never outnumber the events; and when every task has run
      to its end, a resync has started after each event. */
  lemma DebounceLosesNothing(acts: seq<Action>)
    requires Run(IDLE, acts)
    ensures var l := After(IDLE, acts);
            && |l.startsBefore| == |l.tasks|
            && (l.pending <==> SomeoneWaits(l)) && AtMostOneWaits(l)
            && Spaced(l.starts)
            && |l.starts| <= |l.tasks|
            && (Quiet(l) ==> !l.pending && forall k :: 0 <= k < |l.tasks| ==> Served(l, k))
  {
    assert Good(IDLE);
    RunsAreGood(IDLE, acts);
    EndedBound(After(IDLE, acts).tasks);
  }

  /** Steps that are left to the tasks: entering, and waking. */
  function Remaining(tasks: seq<Task>): nat {
    if tasks == [] then 0
    else Remaining(tasks[..|tasks| - 1]) + (match tasks[|tasks| - 1]
                                            case Created => 2
                                            case Waiting(_) => 1
                                            case _ => 0)
  }

  lemma {:induction false} RemainingUpdate(tasks: seq<Task>, k: nat, task: Task)
    requires k < |tasks|
    requires (tasks[k].Created? && (task.Waiting? || task.Dropped?)) || (tasks[k].Waiting? && task.Resynced?)
    ensures Remaining(tasks[k := task]) < Remaining(tasks)
    decreases |tasks|
  {
    var n := |tasks| - 1;
    var tasks' := tasks[k := task];
    if k == n {
      assert tasks'[..n] == tasks[..n];
    } else {
      assert tasks'[..n] == tasks[..n][k := task];
      RemainingUpdate(tasks[..n], k, task);
    }
  }

  /** Without further events the tasks come to rest: a task can always move, once time has
      passed, and every move leaves fewer to make. */
  lemma TasksComeToRest(l: Loop)
    requires Good(l) && !Quiet(l)
    ensures exists time, k :: l.now <= time && 0 <= k < |l.tasks|
              && CanMove(l, time, k) && Remaining(Moved(l, time, k).tasks) < Remaining(l.tasks)
  {
    var k :| 0 <= k < |l.tasks| && !(l.tasks[k].Dropped? || l.tasks[k].Resynced?);
    var time := if l.tasks[k].Waiting? && l.tasks[k].wakeAt > l.now then l.tasks[k].wakeAt else l.now;
    assert CanMove(l, time, k);
    RemainingUpdate(l.tasks, k, Moved(l, time, k).tasks[k]);
    assert Moved(l, time, k).tasks == l.tasks[k := Moved(l, time, k).tasks[k]];
  }

  predicate CanMove(l: Loop, time: int, k: nat) {
    l.now <= time && k < |l.tasks|
    && (l.tasks[k].Created? || (l.tasks[k].Waiting? && l.tasks[k].wakeAt <= time))
  }

  function Moved(l: Loop, time: int, k: nat): Loop
    requires CanMove(l, time, k)
  {
    var l' := Step(l, Pass(time));
    Step(l', if l.tasks[k].Created? then Enter(k) else Wake(k))
  }
}
