/** What becomes of rows and overlay files without the discipline: no job looks at the state
    of the row it works on, so a stop may begin while a session is still queued, and two jobs
    may provision one session. */
module RowsAndFiles {
  import opened Types
  import opened OverlayManager
  import opened VmLifecycle
  import opened Interleaving
  import opened Scenarios

  // ---------- Which columns a run writes ----------

  /** No extension or activity of this session, and no sweep's mark on it. */
  predicate NoneRetimes(acts: seq<Action>, id: SessionId) {
    forall i :: 0 <= i < |acts| ==> !(acts[i].Retime? && acts[i].session == id)
  }

  /** The columns that only an extension, a post or a mark writes, once the row is there. */
  predicate SameMarks(row: Row, row': Row) {
    row'.extensionCount == row.extensionCount && row'.idleWarningAt == row.idleWarningAt
  }

  lemma StepWritesColumns(sys: System, a: Action, id: SessionId)
    requires Enabled(sys, a) && id in sys.store.rows
    ensures id in Step(sys, a).store.rows
    ensures var (row, row') := (sys.store.rows[id], Step(sys, a).store.rows[id]);
            && row'.user == row.user && row'.maxExtensions == row.maxExtensions && row'.createdAt == row.createdAt
            && (!(a.Retime? && a.session == id) ==> SameMarks(row, row'))
  {
  }

  /** In every run, disciplined or not, a session keeps its user, its maximum and its time of
      creation, and neither provisioning nor a stop touches what extensions and idle warnings
      have written. */
  lemma {:induction false} RunsKeepColumns(sys: System, acts: seq<Action>, id: SessionId)
    requires Run(sys, acts) && id in sys.store.rows
    ensures id in After(sys, acts).store.rows
    ensures var (row, row') := (sys.store.rows[id], After(sys, acts).store.rows[id]);
            && row'.user == row.user && row'.maxExtensions == row.maxExtensions && row'.createdAt == row.createdAt
            && (NoneRetimes(acts, id) ==> SameMarks(row, row'))
    decreases acts
  {
    if acts == [] {
    } else {
      StepWritesColumns(sys, acts[0], id);
      assert forall i :: 0 <= i < |acts[1..]| ==> acts[1..][i] == acts[i + 1];
      RunsKeepColumns(Step(sys, acts[0]), acts[1..], id);
    }
  }

  // ---------- Rows that have ended ----------

  const FIRST: JobId := Job(0, 0)

  predicate Ended(sys: System, id: SessionId) {
    id in sys.store.rows && !Active(sys.store.rows[id].state)
  }

  predicate RunningIn(sys: System, id: SessionId) {
    id in sys.store.rows && sys.store.rows[id].state.Running?
  }

  /** A commit that takes a row back into an active state without looking at it: the first
      one of a provisioning, its hand-over, and the first one of a stop. */
  predicate Revives(sys: System, a: Action)
    requires Enabled(sys, a)
  {
    Ended(sys, Subject(a)) &&
    match a
    case StepProvision(j, _) => sys.provisions[j].Fresh? || sys.provisions[j].Defined?
    case StepStop(j, _) => sys.stops[j].pc.Loaded?
    case _ => false
  }

  lemma EndedRowReentersIff(sys: System, a: Action, id: SessionId)
    requires Enabled(sys, a) && Ended(sys, id)
    ensures id in Step(sys, a).store.rows
    ensures Ended(Step(sys, a), id) <==> !(id == Subject(a) && Revives(sys, a))
  {
  }

  /** No step takes an ended row back. */
  ghost predicate StayEnded(sys: System, acts: seq<Action>)
    requires Run(sys, acts)
    decreases acts
  {
    acts == [] ||
    ((forall id :: Ended(sys, id) ==> Ended(Step(sys, acts[0]), id)) && StayEnded(Step(sys, acts[0]), acts[1..]))
  }

  ghost predicate NoneRevives(sys: System, acts: seq<Action>)
    requires Run(sys, acts)
    decreases acts
  {
    acts == [] || (!Revives(sys, acts[0]) && NoneRevives(Step(sys, acts[0]), acts[1..]))
  }

  /** In every run, disciplined or not: sessions that have ended stay so, exactly when none of
      those three commits falls on an ended row. */
  lemma {:induction false} EndedRowsStayIff(sys: System, acts: seq<Action>)
    requires Run(sys, acts)
    ensures StayEnded(sys, acts) <==> NoneRevives(sys, acts)
    decreases acts
  {
    if acts == [] {
    } else {
      var (a, id) := (acts[0], Subject(acts[0]));
      forall x | Ended(sys, x)
        ensures Ended(Step(sys, a), x) <==> !(x == id && Revives(sys, a))
      {
        EndedRowReentersIff(sys, a, x);
      }
      EndedRowsStayIff(Step(sys, a), acts[1..]);
    }
  }

  /** Session 0 has been picked up by a worker, and then stopped before the job's first step. */
  predicate StoppedEarly(sys: System) {
    && sys.provisions == map[FIRST := Fresh] && sys.store.ports == {} && sys.store.rows.Keys == {0}
    && sys.store.rows[0].state == VMState.Stopped && sys.store.rows[0].stopReason == Some(UserStop)
  }

  lemma StoppedWhileQueued() returns (acts: seq<Action>)
    ensures Run(EMPTY, acts) && StoppedEarly(After(EMPTY, acts))
  {
    var picked := PickUp(EMPTY, 0);
    OneMore(EMPTY, picked, BeginStop(FIRST, UserStop, false));
    var begun := picked + [BeginStop(FIRST, UserStop, false)];
    var sys := After(EMPTY, begun);
    StopAlone(sys, FIRST, 0, 6);
    StepsMakeStop(sys.store, 0, UserStop, false, 0, NoFault);
    RunsCompose(EMPTY, begun, StopSteps(FIRST, 0, 6));
    acts := begun + StopSteps(FIRST, 0, 6);
  }

  lemma StoppedComesUp(sys: System) returns (acts: seq<Action>)
    requires StoppedEarly(sys)
    ensures Run(sys, acts)
    ensures var end := After(sys, acts);
            RunningIn(end, 0) && end.store.rows[0].stopReason == Some(UserStop)
              && end.store.rows[0].port == Some(PORT_MIN)
  {
    var n := ProvisionAlone(sys, FIRST, OUTCOME);
    StepsMakeProvision(sys.store, 0, OUTCOME);
    assert LeastFree(sys.store.ports, PORT_MIN);
    acts := ProvisionSteps(FIRST, OUTCOME, n);
  }

  /** A session that is stopped while it is still queued is brought up all the same. */
  lemma StoppedSessionRuns() returns (stop: seq<Action>, rest: seq<Action>)
    ensures Run(EMPTY, stop) && Run(EMPTY, stop + rest)
    ensures Ended(After(EMPTY, stop), 0) && After(EMPTY, stop).store.rows[0].stopReason == Some(UserStop)
    ensures RunningIn(After(EMPTY, stop + rest), 0)
  {
    stop := StoppedWhileQueued();
    rest := StoppedComesUp(After(EMPTY, stop));
    RunsCompose(EMPTY, stop, rest);
  }

  // ---------- Overlay files of running rows ----------

  /** Every running row has its overlay file. */
  ghost predicate RunningHaveFiles(sys: System) {
    forall id :: RunningIn(sys, id) ==> sys.store.rows[id].overlay == Some(Qcow2(id)) && Qcow2(id) in sys.store.overlays
  }

  /** What a job would have to check: a failed define and a stop, that they remove no running
      row's file; a hand-over, that the file is still there. */
  predicate SparesFiles(sys: System, a: Action)
    requires Enabled(sys, a)
  {
    match a
    case StepProvision(j, _) =>
      && (sys.provisions[j].FailedRow? ==> !RunningIn(sys, j.session))
      && (sys.provisions[j].Defined? ==> Qcow2(j.session) in sys.store.overlays)
    case StepStop(j, _) =>
      var job := sys.stops[j];
      job.pc.Undefined? && job.overlay.Some? ==> !RunningIn(sys, job.overlay.value.session)
    case _ => true
  }

  lemma StepKeepsFilesIff(sys: System, a: Action)
    requires RunningHaveFiles(sys) && Enabled(sys, a)
    ensures RunningHaveFiles(Step(sys, a)) <==> SparesFiles(sys, a)
  {
    var (sys', id) := (Step(sys, a), Subject(a));
    forall x | x != id
      ensures RunningIn(sys', x) <==> RunningIn(sys, x)
      ensures RunningIn(sys, x) ==> sys'.store.rows[x] == sys.store.rows[x]
    {
    }
    match a {
      case StepProvision(j, o) => ProvisionKeepsFilesIff(sys, j, o);
      case StepStop(j, now) => StopKeepsFilesIff(sys, j, now);
      case _ =>
    }
  }

  lemma ProvisionKeepsFilesIff(sys: System, j: JobId, o: Outcome)
    requires RunningHaveFiles(sys) && Enabled(sys, StepProvision(j, o))
    ensures RunningHaveFiles(Step(sys, StepProvision(j, o))) <==> SparesFiles(sys, StepProvision(j, o))
  {
    var sys' := Step(sys, StepProvision(j, o));
    if sys.provisions[j].FailedRow? && RunningIn(sys, j.session) {
      assert RunningIn(sys', j.session) && Qcow2(j.session) !in sys'.store.overlays;
    }
    if sys.provisions[j].Defined? {
      assert RunningIn(sys', j.session);
    }
  }

  lemma StopKeepsFilesIff(sys: System, j: JobId, now: int)
    requires RunningHaveFiles(sys) && Enabled(sys, StepStop(j, now))
    ensures RunningHaveFiles(Step(sys, StepStop(j, now))) <==> SparesFiles(sys, StepStop(j, now))
  {
    var (sys', job) := (Step(sys, StepStop(j, now)), sys.stops[j]);
    if job.pc.Undefined? && job.overlay.Some? && RunningIn(sys, job.overlay.value.session) {
      assert RunningIn(sys', job.overlay.value.session);
    }
  }

  ghost predicate AlwaysHaveFiles(sys: System, acts: seq<Action>)
    requires Run(sys, acts)
    decreases acts
  {
    RunningHaveFiles(sys) && (acts == [] || AlwaysHaveFiles(Step(sys, acts[0]), acts[1..]))
  }

  ghost predicate AllSpareFiles(sys: System, acts: seq<Action>)
    requires Run(sys, acts)
    decreases acts
  {
    acts == [] || (SparesFiles(sys, acts[0]) && AllSpareFiles(Step(sys, acts[0]), acts[1..]))
  }

  lemma {:induction false} FilesAlongIff(sys: System, acts: seq<Action>)
    requires RunningHaveFiles(sys) && Run(sys, acts)
    ensures AlwaysHaveFiles(sys, acts) <==> AllSpareFiles(sys, acts)
    decreases acts
  {
    if acts == [] {
    } else {
      StepKeepsFilesIff(sys, acts[0]);
      if RunningHaveFiles(Step(sys, acts[0])) {
        FilesAlongIff(Step(sys, acts[0]), acts[1..]);
      }
    }
  }

  /** In every run, disciplined or not: running rows always have their overlay file, exactly
      when every job spares them. */
  lemma RunningRowsKeepFilesIff(acts: seq<Action>)
    requires Run(EMPTY, acts)
    ensures AlwaysHaveFiles(EMPTY, acts) <==> AllSpareFiles(EMPTY, acts)
  {
    FilesAlongIff(EMPTY, acts);
  }

  // ---------- Two provisionings of one session ----------

  const SECOND: JobId := Job(0, 1)
  const REFUSED: Outcome := Outcome(true, false, 1, 1, 120)

  /** The first job defines its domain; the second fails at that and marks the row; the first
      hands over; the second removes the file. */
  function FirstAt(i: nat): ProvisionPc {
    match i
    case 0 => Fresh
    case 1 => Marked
    case 2 => Overlaid
    case 3 => Scanning({}, PORT_MIN)
    case 4 => Claimed(PORT_MIN)
    case _ => if i <= 12 then Defined(PORT_MIN) else Up(PORT_MIN)
  }

  function SecondAt(i: nat): ProvisionPc {
    match i
    case 6 => Marked
    case 7 => Overlaid
    case 8 => Scanning({PORT_MIN}, PORT_MIN)
    case 9 => Scanning({PORT_MIN}, PORT_MIN + 1)
    case 10 => Claimed(PORT_MIN + 1)
    case 11 => DefineFailed(PORT_MIN + 1)
    case 12 => FailedRow(PORT_MIN + 1)
    case 13 => FailedRow(PORT_MIN + 1)
    case 14 => Leaked(PORT_MIN + 1)
    case _ => Fresh
  }

  function MoveAt(i: nat): Action {
    if i < 5 || i == 12 then StepProvision(FIRST, OUTCOME) else StepProvision(SECOND, REFUSED)
  }

  predicate Racing(sys: System, i: nat) {
    && sys.store.rows.Keys == {0} && sys.provisions.Keys == {FIRST, SECOND}
    && sys.provisions[FIRST] == FirstAt(i) && sys.provisions[SECOND] == SecondAt(i)
    && sys.store.ports == (if i < 4 then {} else if i < 10 then {PORT_MIN} else {PORT_MIN, PORT_MIN + 1})
    && (i == 13 ==> sys.store.rows[0].state.Running?)
  }

  lemma RaceStep(sys: System, i: nat)
    requires Racing(sys, i) && i < 13
    ensures Enabled(sys, MoveAt(i)) && Racing(Step(sys, MoveAt(i)), i + 1)
  {
  }

  /** A running row loses its file to a second provisioning of its session. */
  lemma SecondProvisionTakesFile() returns (acts: seq<Action>)
    ensures Run(EMPTY, acts)
    ensures RunningIn(After(EMPTY, acts), 0) && Qcow2(0) !in After(EMPTY, acts).store.overlays
  {
    acts := PickUp(EMPTY, 0);
    OneMore(EMPTY, acts, BeginProvision(SECOND));
    acts := acts + [BeginProvision(SECOND)];
    for i := 0 to 13
      invariant Run(EMPTY, acts) && Racing(After(EMPTY, acts), i)
    {
      RaceStep(After(EMPTY, acts), i);
      OneMore(EMPTY, acts, MoveAt(i));
      acts := acts + [MoveAt(i)];
    }
    OneMore(EMPTY, acts, MoveAt(13));
    acts := acts + [MoveAt(13)];
  }

  // ---------- The discipline is enough ----------

  lemma DisciplinedStepRevivesNone(sys: System, a: Action)
    requires Good(sys) && Enabled(sys, a) && Disciplined(sys, a)
    ensures !Revives(sys, a) && SparesFiles(sys, a)
  {
    if Subject(a) in sys.store.rows {
      GoodEverywhere(sys, Subject(a));
    }
  }

  /** Disciplined runs revive no row and take no running row's file. */
  lemma {:induction false} DisciplinedRunsKeepRowsAndFiles(sys: System, acts: seq<Action>)
    requires Good(sys) && DisciplinedRun(sys, acts)
    ensures Run(sys, acts) && NoneRevives(sys, acts) && AllSpareFiles(sys, acts)
    decreases acts
  {
    if acts == [] {
    } else {
      DisciplinedStepRevivesNone(sys, acts[0]);
      StepKeepsGood(sys, acts[0]);
      DisciplinedRunsKeepRowsAndFiles(Step(sys, acts[0]), acts[1..]);
    }
  }
}
