/** What an allocation sees of the other jobs.  In every run, disciplined or not, the steps
    are a log of commands on the port set, and the scan of one job is an allocation whose
    interference is the rest of the log. */
module PortWindow {
  import opened Types
  import opened OverlayManager
  import opened VmLifecycle
  import opened Interleaving
  import opened Scenarios

  /** The Redis write a step makes; a SADD that finds the port taken is one too. */
  function CommandOf(sys: System, a: Action): seq<PortCommand>
    requires Enabled(sys, a)
  {
    match a
    case StepProvision(j, _) =>
      var pc := sys.provisions[j];
      if pc.Scanning? && pc.cursor < PORT_MAX && pc.cursor !in pc.snapshot then [Sadd(pc.cursor)] else []
    case StepStop(j, _) =>
      var job := sys.stops[j];
      if job.pc.OverlayGone? && job.port.Some? then [Srem(job.port.value)] else []
    case _ => []
  }

  ghost function PortLog(sys: System, acts: seq<Action>): seq<PortCommand>
    requires Run(sys, acts)
    decreases acts
  {
    if acts == [] then [] else CommandOf(sys, acts[0]) + PortLog(Step(sys, acts[0]), acts[1..])
  }

  lemma StepRunsCommand(sys: System, a: Action)
    requires Enabled(sys, a)
    ensures Step(sys, a).store.ports == Replay(sys.store.ports, CommandOf(sys, a))
  {
    var c := CommandOf(sys, a);
    assert c != [] ==> c[..0] == [];
    match a
    case StepProvision(j, o) => assert sys.provisions[j].Scanning? || c == [];
    case StepStop(j, _) => assert sys.stops[j].pc.OverlayGone? || c == [];
    case _ =>
  }

  /** The port set after a run is what its commands make of the set before it. */
  lemma {:induction false} RunReplaysLog(sys: System, acts: seq<Action>)
    requires Run(sys, acts)
    ensures After(sys, acts).store.ports == Replay(sys.store.ports, PortLog(sys, acts))
    decreases acts
  {
    if acts == [] {
    } else {
      StepRunsCommand(sys, acts[0]);
      RunReplaysLog(Step(sys, acts[0]), acts[1..]);
      ReplaySplits(sys.store.ports, CommandOf(sys, acts[0]), PortLog(Step(sys, acts[0]), acts[1..]));
    }
  }

  // ---------- The window of one scan ----------

  /** The ports below this one have been passed over. */
  function PassedLimit(pc: ProvisionPc): int {
    match pc
    case Scanning(_, cursor) => cursor
    case Claimed(p) => p
    case Defined(p) => p
    case DefineFailed(p) => p
    case FailedRow(p) => p
    case Up(p) => p
    case Leaked(p) => p
    case Exhausted => PORT_MAX
    case _ => PORT_MIN
  }

  /** What a job that had not begun to scan when the log began has seen. */
  ghost predicate Window(start: set<int>, log: seq<PortCommand>, pc: ProvisionPc) {
    if pc.Scanning? then Scanned(start, pc.snapshot, log, pc.cursor) && PORT_MIN <= pc.cursor <= PORT_MAX
    else AllSeenDuring(start, log, PassedLimit(pc))
  }

  lemma WindowGrows(start: set<int>, log: seq<PortCommand>, more: seq<PortCommand>, pc: ProvisionPc)
    requires Window(start, log, pc)
    ensures Window(start, log + more, pc)
  {
    forall q | SeenDuring(start, log, q) {
      StillSeen(start, log, more, q);
    }
  }

  lemma OwnStepKeepsWindow(start: set<int>, log: seq<PortCommand>, sys: System, j: JobId, o: Outcome)
    requires Enabled(sys, StepProvision(j, o)) && !sys.provisions[j].Fresh? && !sys.provisions[j].Marked?
    requires sys.store.ports == Replay(start, log) && Window(start, log, sys.provisions[j])
    ensures var a := StepProvision(j, o);
            Window(start, log + CommandOf(sys, a), Step(sys, a).provisions[j])
  {
    var (a, pc) := (StepProvision(j, o), sys.provisions[j]);
    WindowGrows(start, log, CommandOf(sys, a), pc);
    if pc.Overlaid? {
      ScanBegins(start, log);
      assert log + CommandOf(sys, a) == log;
    } else if pc.Scanning? && pc.cursor < PORT_MAX && pc.cursor !in pc.snapshot && pc.cursor in sys.store.ports {
      PassedOver(start, pc.snapshot, log, pc.cursor);
    }
  }

  predicate HasBegun(pc: ProvisionPc) {
    !pc.Fresh? && !pc.Marked?
  }

  /** The log leads to the present port set, and the job's scan has its window. */
  ghost predicate Watched(start: set<int>, log: seq<PortCommand>, sys: System, j: JobId) {
    && j in sys.provisions && HasBegun(sys.provisions[j])
    && sys.store.ports == Replay(start, log) && Window(start, log, sys.provisions[j])
  }

  lemma StepKeepsWatched(start: set<int>, log: seq<PortCommand>, sys: System, a: Action, j: JobId)
    requires Enabled(sys, a) && Watched(start, log, sys, j)
    ensures Watched(start, log + CommandOf(sys, a), Step(sys, a), j)
  {
    StepRunsCommand(sys, a);
    ReplaySplits(start, log, CommandOf(sys, a));
    if a.StepProvision? && a.job == j {
      OwnStepKeepsWindow(start, log, sys, j, a.outcome);
    } else {
      assert Step(sys, a).provisions[j] == sys.provisions[j];
      WindowGrows(start, log, CommandOf(sys, a), sys.provisions[j]);
    }
  }

  lemma {:induction false} WatchedAlong(start: set<int>, log: seq<PortCommand>, sys: System, acts: seq<Action>,
                                        j: JobId)
    requires Run(sys, acts) && Watched(start, log, sys, j)
    ensures Watched(start, log + PortLog(sys, acts), After(sys, acts), j)
    decreases acts
  {
    if acts == [] {
      assert log + PortLog(sys, acts) == log;
    } else {
      var (command, sys') := (CommandOf(sys, acts[0]), Step(sys, acts[0]));
      StepKeepsWatched(start, log, sys, acts[0], j);
      WatchedAlong(start, log + command, sys', acts[1..], j);
      LogHead(log, sys, acts);
    }
  }

  lemma LogHead(log: seq<PortCommand>, sys: System, acts: seq<Action>)
    requires acts != [] && Run(sys, acts)
    ensures log + CommandOf(sys, acts[0]) + PortLog(Step(sys, acts[0]), acts[1..]) == log + PortLog(sys, acts)
  {
  }

  /** In every run, from the moment a job is about to read the set: each port it passes
      over was in use at some moment since; the port it is about to claim is the least free
      one, and an exhausted range is full, exactly when none of the ports passed over was
      released last. */
  lemma ScanSeesEveryPort(sys: System, acts: seq<Action>, j: JobId)
    requires Run(sys, acts) && j in sys.provisions && sys.provisions[j].Overlaid?
    ensures j in After(sys, acts).provisions
    ensures var (end, pc, log) := (After(sys, acts), After(sys, acts).provisions[j], PortLog(sys, acts));
            && AllSeenDuring(sys.store.ports, log, PassedLimit(pc))
            && (pc.Scanning? && pc.cursor < PORT_MAX && pc.cursor !in end.store.ports ==>
                  (LeastFree(end.store.ports, pc.cursor) <==> NoneReleasedLast(log, pc.cursor)))
            && (pc.Exhausted? ==> (RangeFull(end.store.ports) <==> NoneReleasedLast(log, PORT_MAX)))
  {
    WatchedAlong(sys.store.ports, [], sys, acts, j);
    var (pc, log) := (After(sys, acts).provisions[j], PortLog(sys, acts));
    assert [] + log == log;
    if pc.Scanning? && pc.cursor < PORT_MAX && pc.cursor !in After(sys, acts).store.ports {
      LeastFreeIffNoneReleased(sys.store.ports, log, pc.cursor);
    }
    if pc.Exhausted? {
      RangeFullIffNoneReleased(sys.store.ports, log);
    }
  }

  // ---------- A released port that is missed ----------

  const SCAN: JobId := Job(1, 0)
  const STOP: JobId := Job(0, 0)
  const SECOND_OUTCOME: Outcome := Outcome(true, true, 1, 1, 120)

  /** Session 0 runs on the first port, with nothing stopped, and session 1's job is at
      `pc`. */
  predicate Beside(sys: System, pc: ProvisionPc) {
    && sys.store.ports == {PORT_MIN} && sys.store.rows.Keys == {0, 1} && sys.stops == map[]
    && sys.store.rows[0].state.Running? && sys.store.rows[0].port == Some(PORT_MIN)
    && SCAN in sys.provisions && sys.provisions[SCAN] == pc
  }

  function PcAt(i: nat): ProvisionPc {
    match i
    case 0 => Fresh
    case 1 => Marked
    case 2 => Overlaid
    case 3 => Scanning({PORT_MIN}, PORT_MIN)
    case _ => Scanning({PORT_MIN}, PORT_MIN + 1)
  }

  lemma ScanStep(sys: System, i: nat)
    requires Beside(sys, PcAt(i)) && i < 4
    ensures Beside(Step(sys, StepProvision(SCAN, SECOND_OUTCOME)), PcAt(i + 1))
    ensures Disciplined(sys, StepProvision(SCAN, SECOND_OUTCOME))
  {
  }

  lemma BesideFirst() returns (acts: seq<Action>)
    ensures Run(EMPTY, acts) && DisciplinedRun(EMPTY, acts) && Beside(After(EMPTY, acts), PcAt(0))
  {
    var up := BringUp(EMPTY, 0, PORT_MIN, OUTCOME);
    var picked := PickUp(After(EMPTY, up), 1);
    RunsCompose(EMPTY, up, picked);
    acts := up + picked;
  }

  /** Session 1 is about to ask for the second port. */
  lemma ScanPastFirst() returns (acts: seq<Action>)
    ensures Run(EMPTY, acts) && DisciplinedRun(EMPTY, acts) && Beside(After(EMPTY, acts), PcAt(4))
  {
    acts := BesideFirst();
    for i := 0 to 4
      invariant Run(EMPTY, acts) && DisciplinedRun(EMPTY, acts) && Beside(After(EMPTY, acts), PcAt(i))
    {
      ScanStep(After(EMPTY, acts), i);
      OneMore(EMPTY, acts, StepProvision(SCAN, SECOND_OUTCOME));
      acts := acts + [StepProvision(SCAN, SECOND_OUTCOME)];
    }
  }

  /** The allocator does not always claim the lowest free port: session 0 is stopped after
      session 1's scan has passed its port, and session 1 claims the next one although the
      first is free.  The run is disciplined. */
  lemma ScanMissesReleasedPort() returns (acts: seq<Action>)
    ensures DisciplinedRun(EMPTY, acts) && Run(EMPTY, acts)
    ensures var sys := After(EMPTY, acts);
            && SCAN in sys.provisions && sys.provisions[SCAN] == Claimed(PORT_MIN + 1)
            && sys.store.ports == {PORT_MIN + 1}
  {
    var scan := ScanPastFirst();
    var sys := After(EMPTY, scan);
    var load := BeginStop(STOP, UserStop, false);
    OneMore(EMPTY, scan, load);
    var loaded := After(EMPTY, scan + [load]);
    var stop := FinishStop(loaded, STOP, 2);
    RunsCompose(EMPTY, scan + [load], stop);
    acts := scan + [load] + stop;
    assert After(EMPTY, acts).store.ports == {};
    OneMore(EMPTY, acts, StepProvision(SCAN, SECOND_OUTCOME));
    acts := acts + [StepProvision(SCAN, SECOND_OUTCOME)];
  }
}
