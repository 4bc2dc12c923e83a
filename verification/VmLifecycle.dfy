/** The session lifecycle.  A provisioning job and a stopping job are sequences of
    atomic steps (one commit, Redis command, file or hypervisor call each) on the
    shared store.  `Lab` holds the same store in mutable fields; its methods run a
    whole job in place. */
module VmLifecycle {
  import opened Types
  import opened OverlayManager
  import opened LibvirtClient

  datatype Store = Store(
    rows: map<SessionId, Row>,
    ports: set<int>,
    overlays: set<OverlayPath>,
    domains: map<DomainName, DomainState>)

  /** How the calls into qemu-img and the hypervisor turn out, and the values drawn
      from the clock, the token generator and the policy. */
  datatype Outcome = Outcome(overlayOk: bool, defineOk: bool, token: Token, now: int, sessionMinutes: int)

  // ---------- Launching ----------

  datatype Refusal = MaintenanceActive | OneVmPerStudent | AtCapacity | OsUnavailable | IndexViolation

  function ActiveRows(rows: map<SessionId, Row>): set<SessionId> {
    set id | id in rows && Active(rows[id].state)
  }

  function ActiveRowsOf(rows: map<SessionId, Row>, user: User): set<SessionId> {
    set id | id in rows && rows[id].user == user && Active(rows[id].state)
  }

  /** The checks made for students only. */
  function RefuseUser(rows: map<SessionId, Row>, user: User, maintenance: bool): Option<Refusal> {
    if user.Student? && maintenance then Some(MaintenanceActive)
    else if user.Student? && ActiveRowsOf(rows, user) != {} then Some(OneVmPerStudent)
    else None
  }

  function RefuseCapacity(rows: map<SessionId, Row>, cap: int): Option<Refusal> {
    if |ActiveRows(rows)| >= cap then Some(AtCapacity) else None
  }

  /** The catalogue check and the insert; `indexed` says whether the table has the partial
      unique index on the users of active rows. */
  function RefuseInsert(rows: map<SessionId, Row>, user: User, osAvailable: bool, indexed: bool): Option<Refusal> {
    if !osAvailable then Some(OsUnavailable)
    else if indexed && ActiveRowsOf(rows, user) != {} then Some(IndexViolation)
    else None
  }

  /** The user has a session that has not ended. */
  ghost predicate Busy(rows: map<SessionId, Row>, user: User) {
    exists id :: id in rows && rows[id].user == user && rows[id].state in {Queued, Provisioning, Running, Stopping}
  }

  /** The sessions of all users that have not ended. */
  ghost function Unfinished(rows: map<SessionId, Row>): set<SessionId> {
    set id | id in rows && rows[id].state in {Queued, Provisioning, Running, Stopping}
  }

  lemma BusyIff(rows: map<SessionId, Row>, user: User)
    ensures Busy(rows, user) <==> ActiveRowsOf(rows, user) != {}
    ensures Unfinished(rows) == ActiveRows(rows)
  {
    if Busy(rows, user) {
      var id :| id in rows && rows[id].user == user && rows[id].state in {Queued, Provisioning, Running, Stopping};
      assert id in ActiveRowsOf(rows, user);
    }
    if ActiveRowsOf(rows, user) != {} {
      var id :| id in ActiveRowsOf(rows, user);
      assert rows[id].state in {Queued, Provisioning, Running, Stopping};
    }
  }

  // ---------- Provisioning ----------

  /** Where a provisioning job is.  The last four are final: the VM is up, its define
      failed and the job cleaned up, or an exception left the row in `provisioning`. */
  datatype ProvisionPc =
    | Fresh
    | Marked
    | Overlaid
    | Scanning(snapshot: set<int>, cursor: int)
    | Claimed(port: int)
    | Defined(port: int)
    | DefineFailed(port: int)
    | FailedRow(port: int)
    | Up(port: int)
    | Leaked(port: int)
    | NoOverlay
    | Exhausted
  {
    predicate Final() {
      Up? || Leaked? || NoOverlay? || Exhausted?
    }
  }

  function RunningRow(row: Row, id: SessionId, port: int, o: Outcome): Row {
    row.(domain := Some(Knpodly(id)),
         overlay := Some(Qcow2(id)),
         port := Some(port),
         token := Some(o.token),
         state := Running,
         startedAt := Some(o.now),
         expiresAt := Some(o.now + o.sessionMinutes * MINUTE),
         lastActivityAt := Some(o.now))
  }

  function ProvisionStep(s: Store, id: SessionId, pc: ProvisionPc, o: Outcome): (Store, ProvisionPc)
    requires id in s.rows
  {
    match pc
    case Fresh => (s.(rows := s.rows[id := s.rows[id].(state := Provisioning)]), Marked)
    case Marked => if o.overlayOk then (s.(overlays := s.overlays + {Qcow2(id)}), Overlaid) else (s, NoOverlay)
    case Overlaid => (s, Scanning(s.ports, PORT_MIN))
    case Scanning(snapshot, cursor) =>
      if cursor >= PORT_MAX then (s, Exhausted)
      else if cursor in snapshot || cursor in s.ports then (s, Scanning(snapshot, cursor + 1))
      else (s.(ports := s.ports + {cursor}), Claimed(cursor))
    case Claimed(port) =>
      if o.defineOk then (s.(domains := s.domains[Knpodly(id) := On]), Defined(port)) else (s, DefineFailed(port))
    case Defined(port) => (s.(rows := s.rows[id := RunningRow(s.rows[id], id, port, o)]), Up(port))
    case DefineFailed(port) => (s.(rows := s.rows[id := s.rows[id].(state := Failed)]), FailedRow(port))
    case FailedRow(port) => (s.(overlays := s.overlays - {Qcow2(id)}), Leaked(port))
    case Up(_) | Leaked(_) | NoOverlay | Exhausted => (s, pc)
  }

  /** What one step of a provisioning job writes.  Only the hand-over, once the domain is
      defined, fills in the row, and it writes eight columns: an extension made while the
      session was queued is kept. */
  lemma ProvisionStepWrites(s: Store, id: SessionId, pc: ProvisionPc, o: Outcome)
    requires id in s.rows
    ensures var ((s', pc'), row) := (ProvisionStep(s, id, pc, o), s.rows[id]);
            && id in s'.rows && s'.rows == s.rows[id := s'.rows[id]]
            && (s'.rows[id] != row.(state := s'.rows[id].state) ==> pc.Defined?)
            && (pc.Defined? ==>
                  && s'.rows[id] == Row(row.user, Running, Some(Knpodly(id)), Some(Qcow2(id)), Some(pc.port),
                                        Some(o.token), Some(o.now), Some(o.now + o.sessionMinutes * 60_000),
                                        row.extensionCount, row.maxExtensions, Some(o.now), row.idleWarningAt,
                                        row.stoppedAt, row.stopReason, row.createdAt)
                  && pc' == Up(pc.port))
            && s'.rows[id].state == (match pc
                                     case Fresh => Provisioning
                                     case Defined(_) => Running
                                     case DefineFailed(_) => Failed
                                     case _ => row.state)
            && (s'.ports == s.ports || (pc'.Claimed? && pc'.port !in s.ports && s'.ports == s.ports + {pc'.port}))
  {
  }

  function Distance(pc: ProvisionPc): nat {
    match pc
    case Fresh => 2000
    case Marked => 1999
    case Overlaid => 1998
    case Scanning(_, c) => if c < PORT_MIN then 1997 else if c >= PORT_MAX then 5 else 5 + PORT_MAX - c
    case Claimed(_) => 4
    case Defined(_) => 3
    case DefineFailed(_) => 3
    case FailedRow(_) => 2
    case Up(_) | Leaked(_) | NoOverlay | Exhausted => 0
  }

  ghost predicate Proper(pc: ProvisionPc) {
    pc.Scanning? ==> PORT_MIN <= pc.cursor <= PORT_MAX
  }

  /** The job run to its end with no other client in between. */
  function RunProvision(s: Store, id: SessionId, pc: ProvisionPc, o: Outcome): (r: (Store, ProvisionPc))
    requires id in s.rows && Proper(pc)
    ensures r.1.Final()
    decreases Distance(pc)
  {
    if pc.Final() then (s, pc)
    else
      var (s', pc') := ProvisionStep(s, id, pc, o);
      RunProvision(s', id, pc', o)
  }

  /** What a whole call does when no other client runs: everything of the session is in
      place; or its define fails and the row is failed, the overlay gone, the port still
      taken; or it gets no overlay or no port and the row stays in `provisioning`. */
  ghost function ProvisionSession(s: Store, id: SessionId, o: Outcome): (Store, ProvisionPc)
    requires id in s.rows
  {
    var stuck := s.rows[id := s.rows[id].(state := Provisioning)];
    if !o.overlayOk then (s.(rows := stuck), NoOverlay)
    else if RangeFull(s.ports) then (s.(rows := stuck, overlays := s.overlays + {Qcow2(id)}), Exhausted)
    else
      LeastFreeExists(s.ports, PORT_MIN);
      var p :| LeastFree(s.ports, p);
      if o.defineOk then
        (Store(s.rows[id := RunningRow(s.rows[id], id, p, o)],
               s.ports + {p},
               s.overlays + {Qcow2(id)},
               s.domains[Knpodly(id) := On]),
         Up(p))
      else
        (Store(s.rows[id := s.rows[id].(state := Failed)],
               s.ports + {p},
               s.overlays - {Qcow2(id)},
               s.domains),
         Leaked(p))
  }

  lemma LeastFreeExists(ports: set<int>, from: int)
    requires PORT_MIN <= from <= PORT_MAX && forall q :: PORT_MIN <= q < from ==> q in ports
    requires !RangeFull(ports)
    ensures exists p :: LeastFree(ports, p)
    decreases PORT_MAX - from
  {
    if from !in ports && from < PORT_MAX {
      assert LeastFree(ports, from);
    } else if from < PORT_MAX {
      LeastFreeExists(ports, from + 1);
    }
  }

  /** Alone, the scan claims the least free port. */
  lemma {:induction false} ScanClaimsLeast(s: Store, id: SessionId, cursor: int, p: int, o: Outcome)
    requires id in s.rows && PORT_MIN <= cursor <= p && LeastFree(s.ports, p)
    ensures RunProvision(s, id, Scanning(s.ports, cursor), o)
         == RunProvision(s.(ports := s.ports + {p}), id, Claimed(p), o)
    decreases p - cursor
  {
    if cursor == p {
    } else {
      ScanClaimsLeast(s, id, cursor + 1, p, o);
    }
  }

  /** Alone, the scan gives up only on a full range. */
  lemma {:induction false} ScanExhausts(s: Store, id: SessionId, cursor: int, o: Outcome)
    requires id in s.rows && PORT_MIN <= cursor <= PORT_MAX && RangeFull(s.ports)
    ensures RunProvision(s, id, Scanning(s.ports, cursor), o) == (s, Exhausted)
    decreases PORT_MAX - cursor
  {
    if cursor == PORT_MAX {
    } else {
      ScanExhausts(s, id, cursor + 1, o);
    }
  }

  /** The job's steps, run alone, have the effect of the call. */
  lemma StepsMakeProvision(s: Store, id: SessionId, o: Outcome)
    requires id in s.rows
    ensures RunProvision(s, id, Fresh, o) == ProvisionSession(s, id, o)
  {
    var s1 := s.(rows := s.rows[id := s.rows[id].(state := Provisioning)]);
    var s2 := s1.(overlays := s.overlays + {Qcow2(id)});
    assert RunProvision(s, id, Fresh, o) == RunProvision(s1, id, Marked, o);
    if !o.overlayOk {
      assert RunProvision(s1, id, Marked, o) == RunProvision(s1, id, NoOverlay, o);
    } else {
      assert RunProvision(s1, id, Marked, o) == RunProvision(s2, id, Overlaid, o);
      assert RunProvision(s2, id, Overlaid, o) == RunProvision(s2, id, Scanning(s2.ports, PORT_MIN), o);
      if RangeFull(s.ports) {
        ScanExhausts(s2, id, PORT_MIN, o);
      } else {
        LeastFreeExists(s.ports, PORT_MIN);
        var p :| LeastFree(s.ports, p);
        ScanClaimsLeast(s2, id, PORT_MIN, p, o);
        ClaimedEnd(s, s2.(ports := s.ports + {p}), id, p, o);
      }
    }
  }

  /** The end of a job that has claimed its port. */
  lemma ClaimedEnd(s: Store, s3: Store, id: SessionId, p: int, o: Outcome)
    requires id in s.rows && o.overlayOk && LeastFree(s.ports, p)
    requires s3 == Store(s.rows[id := s.rows[id].(state := Provisioning)], s.ports + {p}, s.overlays + {Qcow2(id)},
                         s.domains)
    ensures RunProvision(s3, id, Claimed(p), o) == ProvisionSession(s, id, o)
  {
    if o.defineOk {
      var s4 := s3.(domains := s.domains[Knpodly(id) := On]);
      var s5 := s4.(rows := s4.rows[id := RunningRow(s4.rows[id], id, p, o)]);
      assert RunProvision(s3, id, Claimed(p), o) == RunProvision(s4, id, Defined(p), o);
      assert RunProvision(s4, id, Defined(p), o) == RunProvision(s5, id, Up(p), o);
      assert s5.rows == s.rows[id := RunningRow(s.rows[id], id, p, o)];
    } else {
      var s4 := s3.(rows := s3.rows[id := s3.rows[id].(state := Failed)]);
      var s5 := s4.(overlays := s4.overlays - {Qcow2(id)});
      assert RunProvision(s3, id, Claimed(p), o) == RunProvision(s3, id, DefineFailed(p), o);
      assert RunProvision(s3, id, DefineFailed(p), o) == RunProvision(s4, id, FailedRow(p), o);
      assert RunProvision(s4, id, FailedRow(p), o) == RunProvision(s5, id, Leaked(p), o);
      assert s5.overlays == s.overlays - {Qcow2(id)};
      assert s5.rows == s.rows[id := s.rows[id].(state := Failed)];
    }
  }

  // ---------- Stopping ----------

  datatype StopPc = Loaded | MarkedStopping | SwitchedOffPc | Undefined | OverlayGone | Released | Finished

  /** The columns a stop reads when it loads the row, and where it is. */
  datatype StopJob = StopJob(
    domain: Option<DomainName>,
    overlay: Option<OverlayPath>,
    port: Option<int>,
    reason: StopReason,
    force: bool,
    pc: StopPc)

  function LoadStop(row: Row, reason: StopReason, force: bool): StopJob {
    StopJob(row.domain, row.overlay, row.port, reason, force, Loaded)
  }

  function StoppedRow(row: Row, reason: StopReason, now: int): Row {
    row.(state := if reason == SessionExpired then Expired else VMState.Stopped,
         stoppedAt := Some(now),
         stopReason := Some(reason))
  }

  function StopStep(s: Store, id: SessionId, job: StopJob, now: int): (Store, StopJob)
    requires id in s.rows
  {
    match job.pc
    case Loaded =>
      (s.(rows := s.rows[id := s.rows[id].(state := Stopping)]), job.(pc := MarkedStopping))
    case MarkedStopping =>
      (if job.domain.Some? then s.(domains := SwitchedOff(s.domains, job.domain.value)) else s,
       job.(pc := SwitchedOffPc))
    case SwitchedOffPc =>
      (if job.domain.Some? then s.(domains := s.domains - {job.domain.value}) else s, job.(pc := Undefined))
    case Undefined =>
      (if job.overlay.Some? then s.(overlays := s.overlays - {job.overlay.value}) else s, job.(pc := OverlayGone))
    case OverlayGone =>
      (if job.port.Some? then s.(ports := s.ports - {job.port.value}) else s, job.(pc := Released))
    case Released =>
      (s.(rows := s.rows[id := StoppedRow(s.rows[id], job.reason, now)]), job.(pc := Finished))
    case Finished => (s, job)
  }

  /** The call that raises, if any; the steps before it have taken effect. */
  datatype StopFault = NoFault | AtShutdown | AtUndefine | AtOverlay | AtRelease | AtCommit

  /** For several stops, the call that raises in each, if any. */
  type Faults = map<SessionId, StopFault>

  function FaultFor(faults: Faults, id: SessionId): StopFault {
    if id in faults then faults[id] else NoFault
  }

  function StepsBefore(fault: StopFault): nat {
    match fault
    case AtShutdown => 1
    case AtUndefine => 2
    case AtOverlay => 3
    case AtRelease => 4
    case AtCommit => 5
    case NoFault => 6
  }

  /** The first `steps` steps of a stop job with no other client in between. */
  function RunStop(s: Store, id: SessionId, job: StopJob, now: int, steps: nat): (Store, StopJob)
    requires id in s.rows
    decreases steps
  {
    if steps == 0 then (s, job)
    else
      var (s', job') := StopStep(s, id, job, now);
      RunStop(s', id, job', now, steps - 1)
  }

  function Freed<T>(held: Option<T>): set<T> {
    if held.Some? then {held.value} else {}
  }

  /** What a whole call does: only this row changes, and exactly its port, overlay file
      and domain are given up, as far as the call gets. */
  function StopSession(s: Store, id: SessionId, reason: StopReason, now: int, fault: StopFault): Store
    requires id in s.rows
  {
    var row := s.rows[id];
    var steps := StepsBefore(fault);
    Store(s.rows[id := if steps == 6 then StoppedRow(row, reason, now) else row.(state := Stopping)],
          if steps >= 5 then s.ports - Freed(row.port) else s.ports,
          if steps >= 4 then s.overlays - Freed(row.overlay) else s.overlays,
          if steps >= 3 then s.domains - Freed(row.domain)
          else if steps == 2 && row.domain.Some? then SwitchedOff(s.domains, row.domain.value)
          else s.domains)
  }

  /** The last of `steps` steps is taken from the store the others reach. */
  lemma {:induction false} RunStopUnfold(s: Store, id: SessionId, job: StopJob, now: int, steps: nat)
    requires id in s.rows && steps > 0
    ensures var (before, j) := RunStop(s, id, job, now, steps - 1);
            id in before.rows && RunStop(s, id, job, now, steps) == StopStep(before, id, j, now)
    decreases steps
  {
    var (s', job') := StopStep(s, id, job, now);
    if steps == 1 {
      assert RunStop(s', id, job', now, 0) == (s', job');
    } else {
      RunStopUnfold(s', id, job', now, steps - 1);
    }
  }

  /** From where the first `k` steps lead, one more step leads to where `k + 1` do. */
  lemma NextStopStep(s: Store, id: SessionId, reason: StopReason, force: bool, now: int, k: nat)
    requires id in s.rows && 1 <= k < 6
    ensures var job := LoadStop(s.rows[id], reason, force);
            StopStep(StopSession(s, id, reason, now, FaultAfter(k)), id, job.(pc := PcAfter(k)), now) ==
            (StopSession(s, id, reason, now, FaultAfter(k + 1)), job.(pc := PcAfter(k + 1)))
  {
    var row := s.rows[id];
    var job := LoadStop(row, reason, force);
    var (a, b) := (StopStep(StopSession(s, id, reason, now, FaultAfter(k)), id, job.(pc := PcAfter(k)), now).0,
                   StopSession(s, id, reason, now, FaultAfter(k + 1)));
    assert a.rows == b.rows && a.ports == b.ports && a.overlays == b.overlays && a.domains == b.domains;
  }

  /** The job's steps, run alone up to the one that raises, have the effect of the call. */
  lemma StepsMakeStop(s: Store, id: SessionId, reason: StopReason, force: bool, now: int, fault: StopFault)
    requires id in s.rows
    ensures RunStop(s, id, LoadStop(s.rows[id], reason, force), now, StepsBefore(fault)).0
         == StopSession(s, id, reason, now, fault)
  {
    var job := LoadStop(s.rows[id], reason, force);
    RunStopUnfold(s, id, job, now, 1);
    for k := 1 to StepsBefore(fault)
      invariant RunStop(s, id, job, now, k) == (StopSession(s, id, reason, now, FaultAfter(k)), job.(pc := PcAfter(k)))
    {
      RunStopUnfold(s, id, job, now, k + 1);
      NextStopStep(s, id, reason, force, now, k);
    }
  }

  /** A stop in which nothing raises, whatever its reason: the row ends as `expired` if the
      session expired and as `stopped` otherwise, with the reason and the time; no other
      column and no other row changes; and the port, the file and the domain that the row
      named are given up, and nothing else is. */
  lemma StopEnds(s: Store, id: SessionId, reason: StopReason, force: bool, now: int)
    requires id in s.rows
    ensures var (s', row) := (RunStop(s, id, LoadStop(s.rows[id], reason, force), now, 6).0, s.rows[id]);
            && id in s'.rows
            && (s'.rows[id].state == Expired <==> reason == SessionExpired)
            && (s'.rows[id].state == VMState.Stopped <==> reason in {UserStop, IdleTimeout, ForceStop, Error})
            && s'.rows == s.rows[id := row.(state := s'.rows[id].state, stoppedAt := Some(now),
                                            stopReason := Some(reason))]
            && (forall p :: p in s'.ports <==> p in s.ports && row.port != Some(p))
            && (forall f :: f in s'.overlays <==> f in s.overlays && row.overlay != Some(f))
            && (forall d :: d in s'.domains <==> d in s.domains && row.domain != Some(d))
            && (forall d :: d in s'.domains ==> s'.domains[d] == s.domains[d])
  {
    StepsMakeStop(s, id, reason, force, now, NoFault);
  }

  /** A stop that raises leaves the row as it was, but `stopping`, and its port in use
      unless only the last commit failed. */
  lemma StopSticks(s: Store, id: SessionId, reason: StopReason, force: bool, now: int, fault: StopFault)
    requires id in s.rows && fault != NoFault
    ensures var (s', row) := (RunStop(s, id, LoadStop(s.rows[id], reason, force), now, StepsBefore(fault)).0,
                              s.rows[id]);
            && s'.rows == s.rows[id := row.(state := Stopping)]
            && (forall p :: p in s'.ports <==> p in s.ports && (fault == AtCommit ==> row.port != Some(p)))
            && (forall f :: f in s'.overlays <==>
                  f in s.overlays && (fault in {AtRelease, AtCommit} ==> row.overlay != Some(f)))
            && (forall d :: d in s'.domains <==>
                  d in s.domains && (fault in {AtOverlay, AtRelease, AtCommit} ==> row.domain != Some(d)))
            && (forall d :: d in s'.domains ==>
                  s'.domains[d] == if fault == AtUndefine && row.domain == Some(d) then ShutOff else s.domains[d])
  {
    StepsMakeStop(s, id, reason, force, now, fault);
  }

  function FaultAfter(steps: nat): StopFault
    requires 1 <= steps <= 6
    ensures StepsBefore(FaultAfter(steps)) == steps
  {
    if steps == 1 then AtShutdown
    else if steps == 2 then AtUndefine
    else if steps == 3 then AtOverlay
    else if steps == 4 then AtRelease
    else if steps == 5 then AtCommit
    else NoFault
  }

  function PcAfter(steps: nat): StopPc
    requires 1 <= steps <= 6
  {
    if steps == 1 then MarkedStopping
    else if steps == 2 then SwitchedOffPc
    else if steps == 3 then Undefined
    else if steps == 4 then OverlayGone
    else if steps == 5 then Released
    else Finished
  }

  // ---------- Extensions and activity ----------

  /** An extension writes absolute values computed from the row it loaded, which may be
      older than the row it writes to, and only those that differ from what it loaded;
      `None` is the refusal. */
  function ExtendRow(loaded: Row, row: Row, now: int, minutes: int): Option<Row> {
    if loaded.extensionCount >= loaded.maxExtensions then None
    else
      var base := if loaded.expiresAt.Some? then loaded.expiresAt.value else now;
      var until := Some(base + minutes * MINUTE);
      Some(row.(expiresAt := if loaded.expiresAt == until then row.expiresAt else until,
                extensionCount := loaded.extensionCount + 1))
  }

  function ActiveRow(row: Row, now: int): Row {
    row.(lastActivityAt := Some(now), idleWarningAt := None)
  }

  // ---------- The mutable lab ----------

  class Lab {
    var rows: map<SessionId, Row>
    var events: seq<Event>
    const redis: PortRegistry
    const disk: OverlayDirectory
    const libvirt: FakeLibvirtClient

    function View(): Store
      reads this, redis, disk, libvirt
    {
      Store(rows, redis.inUse, disk.files, libvirt.domains)
    }

    constructor ()
      ensures fresh(redis) && fresh(disk) && fresh(libvirt)
      ensures View() == Store(map[], {}, {}, map[]) && events == []
    {
      rows := map[];
      events := [];
      redis := new PortRegistry();
      disk := new OverlayDirectory();
      libvirt := new FakeLibvirtClient();
    }

    /** The whole launch, run with no other launch in between.  A success means every
        check passed on the rows found, and inserts exactly one queued row. */
    method LaunchVm(user: User, id: SessionId, maintenance: bool, osAvailable: bool, indexed: bool, policy: Policy,
                    now: int)
      returns (refused: Option<Refusal>)
      requires id !in rows
      modifies this
      ensures events == old(events)
      ensures refused.Some? ==> rows == old(rows)
      ensures refused.None? ==>
        rows == old(rows)[id := Row(user, Queued, None, None, None, None, None, None, 0, policy.maxExtensions,
                                    None, None, None, None, now)]
      // Each refusal, and the success, exactly when nothing before it stands in the way.
      ensures refused == Some(MaintenanceActive) <==> user.Student? && maintenance
      ensures refused == Some(OneVmPerStudent) <==> user.Student? && !maintenance && Busy(old(rows), user)
      ensures var passed := user.Staff? || (!maintenance && !Busy(old(rows), user));
              var room := |Unfinished(old(rows))| < policy.maxConcurrent;
              && (refused == Some(AtCapacity) <==> passed && !room)
              && (refused == Some(OsUnavailable) <==> passed && room && !osAvailable)
              && (refused == Some(IndexViolation) <==>
                    passed && room && osAvailable && indexed && Busy(old(rows), user))
              && (refused.None? <==> passed && room && osAvailable && !(indexed && Busy(old(rows), user)))
      ensures refused == (match RefuseUser(old(rows), user, maintenance)
                          case Some(why) => Some(why)
                          case None => match RefuseCapacity(old(rows), policy.maxConcurrent)
                                       case Some(why) => Some(why)
                                       case None => RefuseInsert(old(rows), user, osAvailable, indexed))
    {
      BusyIff(rows, user);
      if user.Student? {
        if maintenance {
          return Some(MaintenanceActive);
        }
        if ActiveRowsOf(rows, user) != {} {
          return Some(OneVmPerStudent);
        }
      }
      if |ActiveRows(rows)| >= policy.maxConcurrent {
        return Some(AtCapacity);
      }
      if !osAvailable {
        return Some(OsUnavailable);
      }
      if indexed && ActiveRowsOf(rows, user) != {} {
        return Some(IndexViolation);
      }
      rows := rows[id := NewRow(user, policy.maxExtensions, now)];
      refused := None;
    }

    /** Called by the worker: overlay, port, domain, then the running row.  `up` is
        false when an exception is raised. */
    method ProvisionVm(id: SessionId, o: Outcome) returns (up: bool)
      requires id in rows
      modifies this, redis, disk, libvirt
      ensures events == old(events)
      ensures var (s, pc) := ProvisionSession(old(View()), id, o);
              View() == s && up == pc.Up?
      // The hand-over writes these columns and no other.
      ensures up ==>
        && old(redis.inUse) < redis.inUse && rows[id].port.Some? && rows[id].port.value !in old(redis.inUse)
        && rows == old(rows)[id := old(rows[id]).(
             domain := Some(Knpodly(id)), overlay := Some(Qcow2(id)), port := rows[id].port, token := Some(o.token),
             state := Running, startedAt := Some(o.now), expiresAt := Some(o.now + o.sessionMinutes * 60_000),
             lastActivityAt := Some(o.now))]
      ensures !up ==>
        rows == old(rows)[id := old(rows[id]).(state := rows[id].state)] && rows[id].state in {Provisioning, Failed}
    {
      rows := rows[id := rows[id].(state := Provisioning)];
      var path := disk.CreateOverlay(id, o.overlayOk);
      if path.None? {
        return false;
      }
      ghost var ports := redis.inUse;
      var port, mine := redis.AllocateVncPort(_ => []);
      assert port.Some? ==> mine[..0] == [] && LeastFree(ports, port.value);
      if port.None? {
        return false;
      }
      libvirt.DefineAndStart(Knpodly(id), o.defineOk);
      if !o.defineOk {
        rows := rows[id := rows[id].(state := Failed)];
        disk.DestroyOverlay(path.value);
        return false;
      }
      rows := rows[id := rows[id].(domain := Some(Knpodly(id)),
                                   overlay := path,
                                   port := port,
                                   token := Some(o.token),
                                   state := Running,
                                   startedAt := Some(o.now),
                                   expiresAt := Some(o.now + o.sessionMinutes * MINUTE),
                                   lastActivityAt := Some(o.now))];
      up := true;
    }

    /** The hypervisor part of a stop, from the loaded row; `false` when a call raised. */
    method RemoveDomain(session: Row, force: bool, fault: StopFault) returns (ok: bool)
      modifies libvirt
      ensures ok == (StepsBefore(fault) >= 3)
      ensures libvirt.domains ==
              if ok then old(libvirt.domains) - Freed(session.domain)
              else if fault == AtUndefine && session.domain.Some?
              then SwitchedOff(old(libvirt.domains), session.domain.value)
              else old(libvirt.domains)
    {
      if fault == AtShutdown {
        return false;
      }
      if session.domain.Some? {
        if force {
          libvirt.ForceDestroy(session.domain.value);
        } else {
          libvirt.GracefulShutdown(session.domain.value);
        }
      }
      if fault == AtUndefine {
        return false;
      }
      if session.domain.Some? {
        libvirt.Undefine(session.domain.value);
      }
      ok := true;
    }

    /** The file and port part of a stop. */
    method FreeOverlayAndPort(session: Row, fault: StopFault) returns (ok: bool)
      requires StepsBefore(fault) >= 3
      modifies redis, disk
      ensures ok == (StepsBefore(fault) >= 5)
      ensures disk.files == if fault == AtOverlay then old(disk.files) else old(disk.files) - Freed(session.overlay)
      ensures redis.inUse == if ok then old(redis.inUse) - Freed(session.port) else old(redis.inUse)
    {
      if fault == AtOverlay {
        return false;
      }
      if session.overlay.Some? {
        disk.DestroyOverlay(session.overlay.value);
      }
      if fault == AtRelease {
        return false;
      }
      if session.port.Some? {
        redis.ReleaseVncPort(session.port.value);
      }
      ok := true;
    }

    /** Tears a session down.  `ok` is false when a call raised; the row then stays
        `stopping`. */
    method StopVm(id: SessionId, reason: StopReason, force: bool, now: int, fault: StopFault) returns (ok: bool)
      requires id in rows
      modifies this, redis, disk, libvirt
      ensures events == old(events)
      ensures View() == StopSession(old(View()), id, reason, now, fault)
      ensures ok == (fault == NoFault)
      // Only an expiry ends in `expired`, and only these columns are written.
      ensures ok ==> rows == old(rows)[id := old(rows[id]).(
                state := if reason == SessionExpired then Expired else VMState.Stopped,
                stoppedAt := Some(now), stopReason := Some(reason))]
      ensures !ok ==> rows == old(rows)[id := old(rows[id]).(state := Stopping)]
    {
      var session := rows[id];
      rows := rows[id := session.(state := Stopping)];
      ok := RemoveDomain(session, force, fault);
      if !ok {
        return;
      }
      ok := FreeOverlayAndPort(session, fault);
      if !ok || fault == AtCommit {
        return false;
      }
      rows := rows[id := rows[id].(state := if reason == SessionExpired then Expired else VMState.Stopped,
                                   stoppedAt := Some(now),
                                   stopReason := Some(reason))];
    }

    /** `false` is the refusal of a session without extensions left. */
    method ExtendSession(id: SessionId, now: int, policy: Policy) returns (ok: bool)
      requires id in rows
      modifies this
      ensures events == old(events)
      ensures var extended := ExtendRow(old(rows[id]), old(rows[id]), now, policy.extensionMinutes);
              ok == extended.Some? && rows == if ok then old(rows)[id := extended.value] else old(rows)
      // An extension is granted while one is left, and puts the expiry off by its minutes.
      ensures ok <==> old(rows[id]).extensionCount < old(rows[id]).maxExtensions
      ensures ok ==>
        && rows[id].expiresAt.Some?
        && rows[id].expiresAt.value - policy.extensionMinutes * 60_000 ==
           (match old(rows[id]).expiresAt case Some(was) => was case None => now)
        && rows[id].extensionCount == old(rows[id]).extensionCount + 1
        && rows == old(rows)[id := old(rows[id]).(expiresAt := rows[id].expiresAt,
                                                  extensionCount := rows[id].extensionCount)]
      ensures !ok ==> rows == old(rows)
    {
      var session := rows[id];
      if session.extensionCount >= session.maxExtensions {
        return false;
      }
      var base := if session.expiresAt.Some? then session.expiresAt.value else now;
      rows := rows[id := session.(expiresAt := Some(base + policy.extensionMinutes * MINUTE),
                                  extensionCount := session.extensionCount + 1)];
      ok := true;
    }

    method RecordActivity(id: SessionId, now: int)
      requires id in rows
      modifies this
      ensures events == old(events) && rows == old(rows)[id := ActiveRow(old(rows[id]), now)]
      ensures rows[id] == old(rows[id]).(lastActivityAt := Some(now), idleWarningAt := None)
    {
      rows := rows[id := rows[id].(lastActivityAt := Some(now), idleWarningAt := None)];
    }

    /** The worker job: a missing row is ignored, a failure is published. */
    method ProvisionJob(id: SessionId, o: Outcome) returns (raised: bool)
      modifies this, redis, disk, libvirt
      ensures id !in old(rows) ==> View() == old(View()) && events == old(events) && !raised
      ensures id in old(rows) ==>
        var (s, pc) := ProvisionSession(old(View()), id, o);
        && View() == s
        && raised == !pc.Up?
        && events == old(events) + [Event(if raised then VmFailed else VmRunning, id)]
    {
      if id !in rows {
        return false;
      }
      var up := ProvisionVm(id, o);
      if !up {
        events := events + [Event(VmFailed, id)];
        return true;
      }
      events := events + [Event(VmRunning, id)];
      raised := false;
    }

    method TeardownJob(id: SessionId, reason: StopReason, force: bool, now: int, fault: StopFault)
      returns (raised: bool)
      modifies this, redis, disk, libvirt
      ensures id !in old(rows) ==> View() == old(View()) && events == old(events) && !raised
      ensures id in old(rows) ==>
        && View() == StopSession(old(View()), id, reason, now, fault)
        && raised == (fault != NoFault)
        && events == old(events) + if raised then [] else [Event(VmStopped, id)]
    {
      if id !in rows {
        return false;
      }
      var ok := StopVm(id, reason, force, now, fault);
      if ok {
        events := events + [Event(VmStopped, id)];
      }
      raised := !ok;
    }
  }
}
