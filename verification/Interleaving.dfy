/** Every interleaving of provisioning jobs, stop jobs and the other writers of session
    rows.  A job may be left unfinished at any point, which also covers a crash.  In a
    disciplined run each session is provisioned at most once, from `queued`, and stopped
    at most once, from `running`; nothing else restricts the order of steps. */
module Interleaving {
  import opened Types
  import opened OverlayManager
  import opened VmLifecycle

  /** The `attempt`-th job of its kind for a session. */
  datatype JobId = Job(session: SessionId, attempt: nat)

  /** `released` is history: the sessions whose row still shows a port that a stop has
      released since the row was given it. */
  datatype System = System(
    store: Store,
    provisions: map<JobId, ProvisionPc>,
    stops: map<JobId, StopJob>,
    released: set<SessionId>)

  const EMPTY: System := System(Store(map[], {}, {}, map[]), map[], map[], {})

  datatype Action =
    | Insert(session: SessionId, user: User, maxExtensions: int, now: int)
    | BeginProvision(job: JobId)
    | StepProvision(job: JobId, outcome: Outcome)
    | BeginStop(job: JobId, reason: StopReason, force: bool)
    | StepStop(job: JobId, now: int)
    | Retime(session: SessionId, expiresAt: Option<int>, extensionCount: int,
             lastActivityAt: Option<int>, idleWarningAt: Option<int>)

  predicate Enabled(sys: System, a: Action) {
    match a
    case Insert(id, _, _, _) => id !in sys.store.rows
    case BeginProvision(j) => j.session in sys.store.rows && j !in sys.provisions
    case StepProvision(j, _) => j.session in sys.store.rows && j in sys.provisions
    case BeginStop(j, _, _) => j.session in sys.store.rows && j !in sys.stops
    case StepStop(j, _) => j.session in sys.store.rows && j in sys.stops
    case Retime(id, _, _, _, _) => id in sys.store.rows
  }

  /** The next step of the stop releases the port that the session's row shows. */
  predicate ReleasesOwn(sys: System, j: JobId)
    requires j in sys.stops && j.session in sys.store.rows
  {
    var job := sys.stops[j];
    job.pc.OverlayGone? && job.port.Some? && job.port == sys.store.rows[j.session].port
  }

  function Step(sys: System, a: Action): System
    requires Enabled(sys, a)
  {
    match a
    case Insert(id, user, maxExtensions, now) =>
      sys.(store := sys.store.(rows := sys.store.rows[id := NewRow(user, maxExtensions, now)]))
    case BeginProvision(j) => sys.(provisions := sys.provisions[j := Fresh])
    case StepProvision(j, o) =>
      var (s, pc) := ProvisionStep(sys.store, j.session, sys.provisions[j], o);
      sys.(store := s, provisions := sys.provisions[j := pc],
           released := if sys.provisions[j].Defined? then sys.released - {j.session} else sys.released)
    case BeginStop(j, reason, force) =>
      sys.(stops := sys.stops[j := LoadStop(sys.store.rows[j.session], reason, force)])
    case StepStop(j, now) =>
      var (s, job) := StopStep(sys.store, j.session, sys.stops[j], now);
      sys.(store := s, stops := sys.stops[j := job],
           released := if ReleasesOwn(sys, j) then sys.released + {j.session} else sys.released)
    case Retime(id, expiresAt, count, activity, warning) =>
      sys.(store := sys.store.(rows := sys.store.rows[id := sys.store.rows[id].(
        expiresAt := expiresAt, extensionCount := count, lastActivityAt := activity, idleWarningAt := warning)]))
  }

  ghost predicate FreshToken(sys: System, token: Token) {
    forall id :: id in sys.store.rows ==> sys.store.rows[id].token != Some(token)
  }

  ghost predicate Disciplined(sys: System, a: Action)
    requires Enabled(sys, a)
  {
    match a
    case BeginProvision(j) => j.attempt == 0 && sys.store.rows[j.session].state.Queued?
    case BeginStop(j, _, _) => j.attempt == 0 && sys.store.rows[j.session].state.Running?
    case StepProvision(j, o) => sys.provisions[j].Defined? ==> FreshToken(sys, o.token)
    case _ => true
  }

  ghost predicate Run(sys: System, acts: seq<Action>)
    decreases acts
  {
    acts == [] || (Enabled(sys, acts[0]) && Run(Step(sys, acts[0]), acts[1..]))
  }

  ghost predicate DisciplinedRun(sys: System, acts: seq<Action>)
    decreases acts
  {
    acts == [] ||
    (Enabled(sys, acts[0]) && Disciplined(sys, acts[0]) && DisciplinedRun(Step(sys, acts[0]), acts[1..]))
  }

  ghost function After(sys: System, acts: seq<Action>): System
    requires Run(sys, acts)
    decreases acts
  {
    if acts == [] then sys else After(Step(sys, acts[0]), acts[1..])
  }

  lemma {:induction false} DisciplinedRunIsRun(sys: System, acts: seq<Action>)
    requires DisciplinedRun(sys, acts)
    ensures Run(sys, acts)
    decreases acts
  {
    if acts == [] {
    } else {
      DisciplinedRunIsRun(Step(sys, acts[0]), acts[1..]);
    }
  }

  // ---------- Who owns a port ----------

  datatype Owner = InFlight(job: JobId) | Live(session: SessionId) | Leak(job: JobId)

  predicate PastRelease(job: StopJob) {
    job.pc.Released? || job.pc.Finished?
  }

  /** A provisioning job between claim and hand-over, a session whose port no stop has
      released since, or a provisioning job whose define failed. */
  ghost predicate Holds(sys: System, o: Owner, p: int) {
    match o
    case InFlight(j) =>
      j in sys.provisions && sys.provisions[j] in {Claimed(p), Defined(p), DefineFailed(p), FailedRow(p)}
    case Live(id) =>
      id in sys.store.rows && sys.store.rows[id].port == Some(p) && id !in sys.released
    case Leak(j) => j in sys.provisions && sys.provisions[j] == Leaked(p)
  }

  // ---------- The invariant of disciplined runs ----------

  function ProvisionOf(sys: System, id: SessionId): Option<ProvisionPc> {
    if Job(id, 0) in sys.provisions then Some(sys.provisions[Job(id, 0)]) else None
  }

  function StopOf(sys: System, id: SessionId): Option<StopJob> {
    if Job(id, 0) in sys.stops then Some(sys.stops[Job(id, 0)]) else None
  }

  predicate Blank(row: Row) {
    row.domain.None? && row.overlay.None? && row.port.None? && row.token.None?
  }

  /** The session was stopped, for this reason. */
  predicate EndedAs(row: Row, reason: StopReason) {
    && row.stopReason == Some(reason) && row.stoppedAt.Some?
    && row.state == match reason
                    case SessionExpired => Expired
                    case UserStop | IdleTimeout | ForceStop | Error => VMState.Stopped
  }

  /** How a row and the progress of its two jobs fit together. */
  ghost predicate Consistent(id: SessionId, row: Row, provision: Option<ProvisionPc>, stop: Option<StopJob>) {
    match provision
    case None => row.state.Queued? && Blank(row) && stop.None?
    case Some(Up(p)) =>
      && row.domain == Some(Knpodly(id)) && row.overlay == Some(Qcow2(id)) && row.port == Some(p) && row.token.Some?
      && (stop.None? ==> row.state.Running?)
      && (stop.Some? ==>
            && stop.value.domain == row.domain && stop.value.overlay == row.overlay && stop.value.port == row.port
            && (match stop.value.pc
                case Loaded => row.state.Running?
                case Finished => EndedAs(row, stop.value.reason)
                case _ => row.state.Stopping?))
    case Some(pc) =>
      && Blank(row) && stop.None? && Proper(pc)
      && row.state == (if pc.Fresh? then Queued else if pc.FailedRow? || pc.Leaked? then Failed else Provisioning)
  }

  function HeldPort(provision: Option<ProvisionPc>, stop: Option<StopJob>): Option<int> {
    match provision
    case Some(Claimed(p)) => Some(p)
    case Some(Defined(p)) => Some(p)
    case Some(DefineFailed(p)) => Some(p)
    case Some(FailedRow(p)) => Some(p)
    case Some(Leaked(p)) => Some(p)
    case Some(Up(p)) => if stop.Some? && PastRelease(stop.value) then None else Some(p)
    case _ => None
  }

  predicate HoldsOverlay(provision: Option<ProvisionPc>, stop: Option<StopJob>) {
    match provision
    case None => false
    case Some(Up(_)) => stop.None? || stop.value.pc in {Loaded, MarkedStopping, SwitchedOffPc, Undefined}
    case Some(pc) => !pc.Fresh? && !pc.Marked? && !pc.Leaked? && !pc.NoOverlay?
  }

  /** The domain a session has, and whether it is on. */
  function HeldDomain(provision: Option<ProvisionPc>, stop: Option<StopJob>): Option<DomainState> {
    match provision
    case Some(Defined(_)) => Some(On)
    case Some(Up(_)) =>
      if stop.None? || stop.value.pc.Loaded? || stop.value.pc.MarkedStopping? then Some(On)
      else if stop.value.pc.SwitchedOffPc? then Some(ShutOff)
      else None
    case _ => None
  }

  function PortOf(sys: System, id: SessionId): Option<int> {
    HeldPort(ProvisionOf(sys, id), StopOf(sys, id))
  }

  ghost predicate FirstAttempts(sys: System) {
    && (forall j :: j in sys.provisions ==> j.attempt == 0 && j.session in sys.store.rows)
    && (forall j :: j in sys.stops ==> j.attempt == 0 && j.session in sys.store.rows)
  }

  ghost predicate RowsConsistent(sys: System) {
    forall id :: id in sys.store.rows ==> Consistent(id, sys.store.rows[id], ProvisionOf(sys, id), StopOf(sys, id))
  }

  /** The port each session holds, through one of its jobs or its row. */
  ghost function HeldPorts(sys: System): map<SessionId, int> {
    map id | id in sys.store.rows && PortOf(sys, id).Some? :: PortOf(sys, id).value
  }

  /** The ports in use are exactly the ports held, each within the range and held once. */
  ghost predicate Ledger(ports: set<int>, held: map<SessionId, int>) {
    && ports == held.Values
    && (forall id :: id in held ==> PORT_MIN <= held[id] < PORT_MAX)
    && (forall id, id' :: id in held && id' in held && held[id] == held[id'] ==> id == id')
  }

  ghost predicate PortLedger(sys: System) {
    Ledger(sys.store.ports, HeldPorts(sys))
  }

  ghost predicate FileLedger(sys: System) {
    && (forall f :: f in sys.store.overlays <==>
          f.session in sys.store.rows && HoldsOverlay(ProvisionOf(sys, f.session), StopOf(sys, f.session)))
    && (forall d :: d in sys.store.domains <==>
          d.session in sys.store.rows && HeldDomain(ProvisionOf(sys, d.session), StopOf(sys, d.session)).Some?)
    && (forall d :: d in sys.store.domains ==>
          HeldDomain(ProvisionOf(sys, d.session), StopOf(sys, d.session)) == Some(sys.store.domains[d]))
  }

  ghost predicate PastReleaseOf(sys: System, id: SessionId) {
    StopOf(sys, id).Some? && PastRelease(StopOf(sys, id).value)
  }

  /** The history of releases agrees with the progress of the stops. */
  ghost predicate ReleasesTracked(sys: System) {
    forall id :: id in sys.released <==> PastReleaseOf(sys, id)
  }

  ghost predicate TokensDistinct(sys: System) {
    forall id, id' ::
      id in sys.store.rows && id' in sys.store.rows
      && sys.store.rows[id].token.Some? && sys.store.rows[id].token == sys.store.rows[id'].token
      ==> id == id'
  }

  ghost predicate Good(sys: System) {
    FirstAttempts(sys) && RowsConsistent(sys) && PortLedger(sys) && FileLedger(sys) && TokensDistinct(sys)
      && ReleasesTracked(sys)
  }

  // ---------- Steps keep the invariant ----------

  /** The port set follows one session's port from `was` to `now`. */
  predicate PortsFollow(ports: set<int>, ports': set<int>, was: Option<int>, now: Option<int>) {
    || (now == was && ports' == ports)
    || (was.None? && now.Some? && now.value !in ports && PORT_MIN <= now.value < PORT_MAX
        && ports' == ports + {now.value})
    || (was.Some? && now.None? && ports' == ports - {was.value})
  }

  predicate FileIs(s: Store, id: SessionId, held: bool) {
    Qcow2(id) in s.overlays <==> held
  }

  predicate DomainIs(s: Store, id: SessionId, held: Option<DomainState>) {
    if held.Some? then Knpodly(id) in s.domains && s.domains[Knpodly(id)] == held.value else Knpodly(id) !in s.domains
  }

  /** The stores agree on everything named after another session. */
  predicate OthersKept(s: Store, s': Store, id: SessionId) {
    && s'.rows - {id} == s.rows - {id}
    && s'.overlays - {Qcow2(id)} == s.overlays - {Qcow2(id)}
    && s'.domains - {Knpodly(id)} == s.domains - {Knpodly(id)}
  }

  /** A change of one session's row and jobs that its ports and files follow. */
  ghost predicate LocalChange(s: Store, s': Store, id: SessionId,
                              p: Option<ProvisionPc>, p': Option<ProvisionPc>,
                              k: Option<StopJob>, k': Option<StopJob>)
    requires id in s'.rows
  {
    && OthersKept(s, s', id)
    && Consistent(id, s'.rows[id], p', k')
    && PortsFollow(s.ports, s'.ports, HeldPort(p, k), HeldPort(p', k'))
    && FileIs(s', id, HoldsOverlay(p', k'))
    && DomainIs(s', id, HeldDomain(p', k'))
  }

  lemma ProvisionStepIsLocal(s: Store, id: SessionId, pc: ProvisionPc, k: Option<StopJob>, o: Outcome)
    requires id in s.rows && Consistent(id, s.rows[id], Some(pc), k)
    requires FileIs(s, id, HoldsOverlay(Some(pc), k)) && DomainIs(s, id, HeldDomain(Some(pc), k))
    ensures var (s', pc') := ProvisionStep(s, id, pc, o);
            id in s'.rows && LocalChange(s, s', id, Some(pc), Some(pc'), k, k)
  {
  }

  lemma StopStepIsLocal(s: Store, id: SessionId, p: Option<ProvisionPc>, job: StopJob, now: int)
    requires id in s.rows && Consistent(id, s.rows[id], p, Some(job))
    requires FileIs(s, id, HoldsOverlay(p, Some(job))) && DomainIs(s, id, HeldDomain(p, Some(job)))
    ensures var (s', job') := StopStep(s, id, job, now);
            id in s'.rows && LocalChange(s, s', id, p, p, Some(job), Some(job'))
  {
  }

  /** No job but those of session `at` moved. */
  ghost predicate JobsKept(sys: System, sys': System, at: SessionId) {
    forall id :: id != at ==> ProvisionOf(sys', id) == ProvisionOf(sys, id) && StopOf(sys', id) == StopOf(sys, id)
  }

  ghost predicate SystemChange(sys: System, sys': System, at: SessionId) {
    && at in sys'.store.rows
    && FirstAttempts(sys') && JobsKept(sys, sys', at)
    && sys'.released - {at} == sys.released - {at} && (at in sys'.released <==> PastReleaseOf(sys', at))
    && LocalChange(sys.store, sys'.store, at, ProvisionOf(sys, at), ProvisionOf(sys', at), StopOf(sys, at),
                   StopOf(sys', at))
    && (sys'.store.rows[at].token.Some? ==>
          || (at in sys.store.rows && sys'.store.rows[at].token == sys.store.rows[at].token)
          || FreshToken(sys, sys'.store.rows[at].token.value))
  }

  lemma RowsKept(sys: System, sys': System, at: SessionId)
    requires SystemChange(sys, sys', at)
    ensures forall id :: id != at ==> (id in sys'.store.rows <==> id in sys.store.rows)
    ensures forall id :: id != at && id in sys.store.rows ==> sys'.store.rows[id] == sys.store.rows[id]
  {
    var rest := sys.store.rows - {at};
    assert forall id :: id in rest <==> id in sys.store.rows && id != at;
    var rest' := sys'.store.rows - {at};
    assert forall id :: id in rest' <==> id in sys'.store.rows && id != at;
  }

  function Lookup(m: map<SessionId, int>, id: SessionId): Option<int> {
    if id in m then Some(m[id]) else None
  }

  lemma LedgerFollows(ports: set<int>, ports': set<int>, held: map<SessionId, int>, held': map<SessionId, int>,
                      at: SessionId)
    requires Ledger(ports, held)
    requires forall id :: id != at ==> Lookup(held', id) == Lookup(held, id)
    requires PortsFollow(ports, ports', Lookup(held, at), Lookup(held', at))
    ensures Ledger(ports', held')
  {
    assert forall id :: id != at ==> (id in held' <==> id in held) by {
      assert forall id :: Lookup(held', id).Some? <==> id in held';
    }
    assert forall id :: id != at && id in held ==> held'[id] == held[id] by {
      assert forall id :: id in held' ==> Lookup(held', id) == Some(held'[id]);
    }
    forall p
      ensures p in ports' <==> p in held'.Values
    {
      if p in held'.Values {
        var id :| id in held' && held'[id] == p;
        if id != at {
          assert held[id] in held.Values;
        }
      }
      if p in ports' && Lookup(held', at) != Some(p) {
        assert p in held.Values;
        var id :| id in held && held[id] == p;
        assert id in held' && held'[id] == p;
      }
    }
  }

  lemma PortLedgerKept(sys: System, sys': System, at: SessionId)
    requires PortLedger(sys) && SystemChange(sys, sys', at)
    requires at !in sys.store.rows ==> PortOf(sys, at).None?
    ensures PortLedger(sys')
  {
    RowsKept(sys, sys', at);
    forall id | id != at
      ensures Lookup(HeldPorts(sys'), id) == Lookup(HeldPorts(sys), id)
    {
      assert PortOf(sys', id) == PortOf(sys, id);
    }
    LedgerFollows(sys.store.ports, sys'.store.ports, HeldPorts(sys), HeldPorts(sys'), at);
  }

  lemma FileLedgerKept(sys: System, sys': System, at: SessionId)
    requires FileLedger(sys) && SystemChange(sys, sys', at)
    ensures FileLedger(sys')
  {
    RowsKept(sys, sys', at);
    var (f, f') := (sys.store.overlays - {Qcow2(at)}, sys'.store.overlays - {Qcow2(at)});
    var (d, d') := (sys.store.domains - {Knpodly(at)}, sys'.store.domains - {Knpodly(at)});
    forall x: OverlayPath
      ensures x in sys'.store.overlays <==>
        x.session in sys'.store.rows && HoldsOverlay(ProvisionOf(sys', x.session), StopOf(sys', x.session))
    {
      if x.session != at {
        assert x in f <==> x in f';
      }
    }
    forall x: DomainName
      ensures x in sys'.store.domains <==>
        x.session in sys'.store.rows && HeldDomain(ProvisionOf(sys', x.session), StopOf(sys', x.session)).Some?
      ensures x in sys'.store.domains ==>
        HeldDomain(ProvisionOf(sys', x.session), StopOf(sys', x.session)) == Some(sys'.store.domains[x])
    {
      if x.session != at {
        assert x in d <==> x in d';
      }
    }
  }

  lemma RowsStayConsistent(sys: System, sys': System, at: SessionId)
    requires RowsConsistent(sys) && SystemChange(sys, sys', at)
    ensures RowsConsistent(sys')
  {
    RowsKept(sys, sys', at);
    forall id | id in sys'.store.rows && id != at
      ensures Consistent(id, sys'.store.rows[id], ProvisionOf(sys', id), StopOf(sys', id))
    {
      assert Consistent(id, sys.store.rows[id], ProvisionOf(sys, id), StopOf(sys, id));
    }
  }

  lemma TokensStayDistinct(sys: System, sys': System, at: SessionId)
    requires TokensDistinct(sys) && SystemChange(sys, sys', at)
    ensures TokensDistinct(sys')
  {
    RowsKept(sys, sys', at);
  }

  lemma ReleasesStayTracked(sys: System, sys': System, at: SessionId)
    requires ReleasesTracked(sys) && SystemChange(sys, sys', at)
    ensures ReleasesTracked(sys')
  {
    forall id | id != at
      ensures id in sys'.released <==> PastReleaseOf(sys', id)
    {
      assert id in sys'.released - {at} <==> id in sys.released - {at};
    }
  }

  lemma ChangeKeepsGood(sys: System, sys': System, at: SessionId)
    requires Good(sys) && SystemChange(sys, sys', at)
    requires at !in sys.store.rows ==> PortOf(sys, at).None?
    ensures Good(sys')
  {
    RowsStayConsistent(sys, sys', at);
    PortLedgerKept(sys, sys', at);
    FileLedgerKept(sys, sys', at);
    TokensStayDistinct(sys, sys', at);
    ReleasesStayTracked(sys, sys', at);
  }

  /** What `Good` says about one session. */
  ghost predicate GoodAt(sys: System, at: SessionId) {
    && FirstAttempts(sys)
    && at in sys.store.rows
    && Consistent(at, sys.store.rows[at], ProvisionOf(sys, at), StopOf(sys, at))
    && FileIs(sys.store, at, HoldsOverlay(ProvisionOf(sys, at), StopOf(sys, at)))
    && DomainIs(sys.store, at, HeldDomain(ProvisionOf(sys, at), StopOf(sys, at)))
    && (at in sys.released <==> PastReleaseOf(sys, at))
  }

  lemma ProvisionStepIsChange(sys: System, j: JobId, o: Outcome)
    requires GoodAt(sys, j.session) && j in sys.provisions
    requires sys.provisions[j].Defined? ==> FreshToken(sys, o.token)
    ensures SystemChange(sys, Step(sys, StepProvision(j, o)), j.session)
  {
    ProvisionStepIsLocal(sys.store, j.session, sys.provisions[j], StopOf(sys, j.session), o);
    var (s, pc) := ProvisionStep(sys.store, j.session, sys.provisions[j], o);
    OthersKeptRows(sys.store, s, j.session);
    assert s.rows[j.session].token == sys.store.rows[j.session].token || s.rows[j.session].token == Some(o.token);
  }

  lemma StopStepIsChange(sys: System, j: JobId, now: int)
    requires GoodAt(sys, j.session) && j in sys.stops
    ensures SystemChange(sys, Step(sys, StepStop(j, now)), j.session)
  {
    StopStepIsLocal(sys.store, j.session, ProvisionOf(sys, j.session), sys.stops[j], now);
    var (s, job) := StopStep(sys.store, j.session, sys.stops[j], now);
    OthersKeptRows(sys.store, s, j.session);
    assert s.rows[j.session].token == sys.store.rows[j.session].token;
  }

  lemma OthersKeptRows(s: Store, s': Store, id: SessionId)
    requires OthersKept(s, s', id) && id in s.rows && id in s'.rows
    ensures s'.rows.Keys == s.rows.Keys
  {
    var rest := s.rows - {id};
    var rest' := s'.rows - {id};
    assert rest == rest';
    forall x: SessionId
      ensures x in s'.rows <==> x in s.rows
    {
      assert x != id ==> (x in rest <==> x in s.rows) && (x in rest' <==> x in s'.rows);
    }
  }

  lemma BeginIsChange(sys: System, a: Action)
    requires a.BeginProvision? || a.BeginStop?
    requires Enabled(sys, a) && Disciplined(sys, a) && GoodAt(sys, a.job.session)
    ensures SystemChange(sys, Step(sys, a), a.job.session)
  {
  }

  lemma RetimeIsChange(sys: System, a: Action)
    requires a.Retime? && Enabled(sys, a) && GoodAt(sys, a.session)
    ensures SystemChange(sys, Step(sys, a), a.session)
  {
  }

  lemma InsertIsChange(sys: System, a: Action)
    requires a.Insert? && Enabled(sys, a) && FirstAttempts(sys) && FileLedger(sys) && ReleasesTracked(sys)
    ensures SystemChange(sys, Step(sys, a), a.session)
    ensures PortOf(sys, a.session).None?
  {
    assert ProvisionOf(sys, a.session).None? && StopOf(sys, a.session).None?;
    assert Qcow2(a.session) !in sys.store.overlays && Knpodly(a.session) !in sys.store.domains;
  }

  lemma StepIsChange(sys: System, a: Action)
    requires Good(sys) && Enabled(sys, a) && Disciplined(sys, a)
    ensures SystemChange(sys, Step(sys, a), Subject(a))
    ensures Subject(a) !in sys.store.rows ==> PortOf(sys, Subject(a)).None?
  {
    if a.Insert? {
      InsertIsChange(sys, a);
    } else {
      GoodEverywhere(sys, Subject(a));
      match a
      case BeginProvision(j) => BeginIsChange(sys, a);
      case StepProvision(j, o) => ProvisionStepIsChange(sys, j, o);
      case BeginStop(j, reason, force) => BeginIsChange(sys, a);
      case StepStop(j, now) => StopStepIsChange(sys, j, now);
      case Retime(id, expiresAt, count, activity, warning) => RetimeIsChange(sys, a);
    }
  }

  lemma GoodEverywhere(sys: System, at: SessionId)
    requires Good(sys) && at in sys.store.rows
    ensures GoodAt(sys, at)
  {
    assert Qcow2(at).session == at && Knpodly(at).session == at;
  }

  function Subject(a: Action): SessionId {
    match a
    case Insert(id, _, _, _) => id
    case Retime(id, _, _, _, _) => id
    case BeginProvision(j) => j.session
    case StepProvision(j, _) => j.session
    case BeginStop(j, _, _) => j.session
    case StepStop(j, _) => j.session
  }

  lemma StepKeepsGood(sys: System, a: Action)
    requires Good(sys) && Enabled(sys, a) && Disciplined(sys, a)
    ensures Good(Step(sys, a))
  {
    StepIsChange(sys, a);
    ChangeKeepsGood(sys, Step(sys, a), Subject(a));
  }

  lemma {:induction false} DisciplinedRunsAreGood(sys: System, acts: seq<Action>)
    requires Good(sys) && DisciplinedRun(sys, acts)
    ensures Run(sys, acts) && Good(After(sys, acts))
    decreases acts
  {
    DisciplinedRunIsRun(sys, acts);
    if acts == [] {
    } else {
      StepKeepsGood(sys, acts[0]);
      DisciplinedRunsAreGood(Step(sys, acts[0]), acts[1..]);
    }
  }
}
