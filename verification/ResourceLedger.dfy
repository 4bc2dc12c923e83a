/** What every disciplined run guarantees about ports, overlay files and domains, and what
    a failed provisioning costs for good. */
module ResourceLedger {
  import opened Types
  import opened OverlayManager
  import opened VmLifecycle
  import opened Interleaving

  function SessionOf(o: Owner): SessionId {
    match o
    case InFlight(j) => j.session
    case Live(id) => id
    case Leak(j) => j.session
  }

  lemma EmptyIsGood()
    ensures Good(EMPTY)
  {
  }

  /** Under the invariant the first attempts are the only jobs. */
  lemma HolderIsFirstAttempt(sys: System, o: Owner, p: int)
    requires Good(sys) && Holds(sys, o, p)
    ensures SessionOf(o) in sys.store.rows && PortOf(sys, SessionOf(o)) == Some(p)
    ensures o == OwnerOf(sys, SessionOf(o))
  {
    var id := SessionOf(o);
    match o
    case InFlight(j) => assert j == Job(id, 0);
    case Leak(j) => assert j == Job(id, 0);
    case Live(_) =>
      assert Consistent(id, sys.store.rows[id], ProvisionOf(sys, id), StopOf(sys, id));
      assert !PastReleaseOf(sys, id);
  }

  function OwnerOf(sys: System, id: SessionId): Owner {
    match ProvisionOf(sys, id)
    case Some(Up(_)) => Live(id)
    case Some(Leaked(_)) => Leak(Job(id, 0))
    case _ => InFlight(Job(id, 0))
  }

  lemma HeldPortHasOwner(sys: System, id: SessionId, p: int)
    requires Good(sys) && id in sys.store.rows && PortOf(sys, id) == Some(p)
    ensures Holds(sys, OwnerOf(sys, id), p)
  {
    assert Consistent(id, sys.store.rows[id], ProvisionOf(sys, id), StopOf(sys, id));
    assert id in sys.released <==> PastReleaseOf(sys, id);
  }

  ghost predicate SomeoneHolds(sys: System, p: int) {
    exists o :: Holds(sys, o, p)
  }

  /** In every interleaving no two owners hold the same port, every held port is in the
      range, and the Redis set is exactly the held ports. */
  lemma PortsAreExclusive(acts: seq<Action>)
    requires DisciplinedRun(EMPTY, acts)
    ensures Run(EMPTY, acts)
    ensures var sys := After(EMPTY, acts);
            && (forall o, o', p :: Holds(sys, o, p) && Holds(sys, o', p) ==> o == o')
            && (forall o, p :: Holds(sys, o, p) ==> PORT_MIN <= p < PORT_MAX)
            && (forall p :: p in sys.store.ports <==> SomeoneHolds(sys, p))
  {
    EmptyIsGood();
    DisciplinedRunsAreGood(EMPTY, acts);
    GoodPortsAreExclusive(After(EMPTY, acts));
  }

  lemma GoodPortsAreExclusive(sys: System)
    requires Good(sys)
    ensures forall o, o', p :: Holds(sys, o, p) && Holds(sys, o', p) ==> o == o'
    ensures forall o, p :: Holds(sys, o, p) ==> PORT_MIN <= p < PORT_MAX
    ensures forall p :: p in sys.store.ports <==> SomeoneHolds(sys, p)
  {
    var held := HeldPorts(sys);
    forall o, p | Holds(sys, o, p)
      ensures SessionOf(o) in held && held[SessionOf(o)] == p && o == OwnerOf(sys, SessionOf(o))
      ensures PORT_MIN <= p < PORT_MAX && p in sys.store.ports
    {
      HolderIsFirstAttempt(sys, o, p);
      assert held[SessionOf(o)] in held.Values;
    }
    forall p | p in sys.store.ports
      ensures SomeoneHolds(sys, p)
    {
      var id :| id in held && held[id] == p;
      HeldPortHasOwner(sys, id, p);
    }
  }

  /** Every running row has its overlay file on disk and its domain switched on. */
  lemma RunningSessionsHaveResources(acts: seq<Action>, id: SessionId)
    requires DisciplinedRun(EMPTY, acts)
    ensures Run(EMPTY, acts)
    ensures var s := After(EMPTY, acts).store;
            id in s.rows && s.rows[id].state.Running? ==>
              && s.rows[id].overlay == Some(Qcow2(id)) && Qcow2(id) in s.overlays
              && s.rows[id].domain == Some(Knpodly(id)) && Knpodly(id) in s.domains && s.domains[Knpodly(id)] == On
              && s.rows[id].port.Some? && s.rows[id].port.value in s.ports
  {
    EmptyIsGood();
    DisciplinedRunsAreGood(EMPTY, acts);
    var sys := After(EMPTY, acts);
    if id in sys.store.rows && sys.store.rows[id].state.Running? {
      GoodEverywhere(sys, id);
      RunningIsUp(sys, id);
      HeldPortInUse(sys, id);
    }
  }

  lemma RunningIsUp(sys: System, id: SessionId)
    requires GoodAt(sys, id) && sys.store.rows[id].state.Running?
    ensures var (row, s) := (sys.store.rows[id], sys.store);
            && row.overlay == Some(Qcow2(id)) && Qcow2(id) in s.overlays
            && row.domain == Some(Knpodly(id)) && Knpodly(id) in s.domains && s.domains[Knpodly(id)] == On
            && row.port.Some? && PortOf(sys, id) == row.port
  {
  }

  lemma HeldPortInUse(sys: System, id: SessionId)
    requires Good(sys) && id in sys.store.rows && PortOf(sys, id).Some?
    ensures PortOf(sys, id).value in sys.store.ports
  {
    var held := HeldPorts(sys);
    assert held[id] in held.Values;
  }

  /** A failed row is a failed define, and still holds the port it claimed. */
  lemma FailedSessionsKeepAPort(sys: System, id: SessionId)
    requires Good(sys) && id in sys.store.rows && sys.store.rows[id].state.Failed?
    ensures Job(id, 0) in sys.provisions
    ensures exists p :: p in sys.store.ports && sys.provisions[Job(id, 0)] in {FailedRow(p), Leaked(p)}
  {
    assert Consistent(id, sys.store.rows[id], ProvisionOf(sys, id), StopOf(sys, id));
    HeldPortInUse(sys, id);
    assert sys.provisions[Job(id, 0)].port in sys.store.ports;
  }

  /** The row is `expired` or `stopped` exactly when its stop has run to its end, and then
      as the reason of that stop says. */
  ghost predicate EndsAsAsked(row: Row, stop: Option<StopJob>) {
    && (stop.Some? && stop.value.pc.Finished? <==> row.state in {Expired, VMState.Stopped})
    && (row.state == Expired <==> stop.Some? && stop.value.pc.Finished? && stop.value.reason == SessionExpired)
    && (row.state in {Expired, VMState.Stopped} ==> row.stopReason == Some(stop.value.reason) && row.stoppedAt.Some?)
  }

  lemma ConsistentEndsAsAsked(id: SessionId, row: Row, provision: Option<ProvisionPc>, stop: Option<StopJob>)
    requires Consistent(id, row, provision, stop)
    ensures EndsAsAsked(row, stop)
  {
  }

  /** In every disciplined run a stop leaves its session `expired` if that was its reason and
      `stopped` if not, with that reason; and no session gets there in another way. */
  lemma StopsEndAsAsked(acts: seq<Action>, id: SessionId)
    requires DisciplinedRun(EMPTY, acts)
    ensures Run(EMPTY, acts)
    ensures var sys := After(EMPTY, acts);
            id in sys.store.rows ==> EndsAsAsked(sys.store.rows[id], StopOf(sys, id))
  {
    EmptyIsGood();
    DisciplinedRunsAreGood(EMPTY, acts);
    var sys := After(EMPTY, acts);
    if id in sys.store.rows {
      ConsistentEndsAsAsked(id, sys.store.rows[id], ProvisionOf(sys, id), StopOf(sys, id));
    }
  }

  // ---------- Counting ----------

  ghost function InFlightJobs(sys: System): set<JobId> {
    set j | j in sys.provisions &&
      (sys.provisions[j].Claimed? || sys.provisions[j].Defined? || sys.provisions[j].DefineFailed?
       || sys.provisions[j].FailedRow?)
  }

  ghost function LeakedJobs(sys: System): set<JobId> {
    set j | j in sys.provisions && sys.provisions[j].Leaked?
  }

  ghost function LiveSessions(sys: System): set<SessionId> {
    set id | id in sys.store.rows && sys.store.rows[id].port.Some? && id !in sys.released
  }

  /** An injective map has as many values as keys. */
  lemma {:induction false} InjectiveValues(m: map<SessionId, int>)
    requires forall x, y :: x in m && y in m && m[x] == m[y] ==> x == y
    ensures |m.Values| == |m|
    decreases |m|
  {
    if m == map[] {
    } else {
      var x :| x in m;
      var rest := m - {x};
      InjectiveValues(rest);
      forall v
        ensures v in m.Values <==> v in rest.Values + {m[x]}
      {
        if v in m.Values {
          var y :| y in m && m[y] == v;
          assert y != x ==> y in rest && rest[y] == v;
        }
        if v in rest.Values {
          var y :| y in rest && rest[y] == v;
          assert y in m && m[y] == v;
        }
      }
      assert m.Values == rest.Values + {m[x]};
      assert m[x] !in rest.Values;
    }
  }

  lemma {:induction false} FirstAttemptCount(sessions: set<SessionId>, jobs: set<JobId>)
    requires forall j :: j in jobs <==> j.attempt == 0 && j.session in sessions
    ensures |jobs| == |sessions|
    decreases sessions
  {
    if sessions == {} {
      assert jobs == {};
    } else {
      var id :| id in sessions;
      assert Job(id, 0) in jobs;
      FirstAttemptCount(sessions - {id}, jobs - {Job(id, 0)});
    }
  }

  /** Exactly one of the three kinds of owner for each session that holds a port. */
  lemma HeldInOneWay(sys: System, id: SessionId)
    requires Good(sys)
    ensures var live, flying, leaking :=
              id in LiveSessions(sys), Job(id, 0) in InFlightJobs(sys), Job(id, 0) in LeakedJobs(sys);
            && (id in HeldPorts(sys) <==> live || flying || leaking)
            && !(live && flying) && !(live && leaking) && !(flying && leaking)
  {
    if id in sys.store.rows {
      assert Consistent(id, sys.store.rows[id], ProvisionOf(sys, id), StopOf(sys, id));
      if PortOf(sys, id).Some? {
        HeldPortHasOwner(sys, id, PortOf(sys, id).value);
      }
      if id in LiveSessions(sys) {
        HolderIsFirstAttempt(sys, Live(id), sys.store.rows[id].port.value);
      }
    }
  }

  /** Conservation: ports in use = provisionings in flight + sessions not released +
      one leaked port per failed define. */
  lemma PortsAreConserved(sys: System)
    requires Good(sys)
    ensures |sys.store.ports| == |InFlightJobs(sys)| + |LiveSessions(sys)| + |LeakedJobs(sys)|
  {
    var held, live, inFlight, leaked := HeldPorts(sys), LiveSessions(sys), InFlightJobs(sys), LeakedJobs(sys);
    InjectiveValues(held);
    var flying := set j | j in inFlight :: j.session;
    var leaking := set j | j in leaked :: j.session;
    forall id
      ensures id in flying <==> Job(id, 0) in inFlight
      ensures id in leaking <==> Job(id, 0) in leaked
    {
      assert Job(id, 0) in inFlight ==> Job(id, 0).session in flying;
      assert Job(id, 0) in leaked ==> Job(id, 0).session in leaking;
    }
    FirstAttemptCount(flying, inFlight);
    FirstAttemptCount(leaking, leaked);
    SumOfThree(held.Keys, live, flying, leaking) by {
      forall id {
        HeldInOneWay(sys, id);
      }
    }
  }

  lemma SumOfThree<T>(all: set<T>, a: set<T>, b: set<T>, c: set<T>)
    requires forall x :: x in all <==> x in a || x in b || x in c
    requires forall x :: !(x in a && x in b) && !(x in a && x in c) && !(x in b && x in c)
    ensures |all| == |a| + |b| + |c|
  {
    assert all == a + b + c;
    assert a !! b && (a + b) !! c;
  }

  /** The same for every disciplined run. */
  lemma PortsAreConservedInRuns(acts: seq<Action>)
    requires DisciplinedRun(EMPTY, acts)
    ensures Run(EMPTY, acts)
    ensures var sys := After(EMPTY, acts);
            |sys.store.ports| == |InFlightJobs(sys)| + |LiveSessions(sys)| + |LeakedJobs(sys)|
  {
    EmptyIsGood();
    DisciplinedRunsAreGood(EMPTY, acts);
    PortsAreConserved(After(EMPTY, acts));
  }

  /** When every session is still queued, stopped or expired, nothing is left behind: no
      port in use, no overlay file, no domain. */
  lemma EndedSessionsLeaveNothing(acts: seq<Action>)
    requires DisciplinedRun(EMPTY, acts)
    ensures Run(EMPTY, acts)
    ensures var s := After(EMPTY, acts).store;
            (forall id :: id in s.rows ==> s.rows[id].state in {Queued, VMState.Stopped, Expired}) ==>
              s.ports == {} && s.overlays == {} && s.domains == map[]
  {
    EmptyIsGood();
    DisciplinedRunsAreGood(EMPTY, acts);
    var sys := After(EMPTY, acts);
    if forall id :: id in sys.store.rows ==> sys.store.rows[id].state in {Queued, VMState.Stopped, Expired} {
      forall id | id in sys.store.rows
        ensures HoldsNothing(sys, id)
      {
        EndedHoldsNothing(sys, id);
      }
      NothingHeld(sys);
    }
  }

  lemma EndedHoldsNothing(sys: System, id: SessionId)
    requires Good(sys) && id in sys.store.rows
    requires sys.store.rows[id].state in {Queued, VMState.Stopped, Expired}
    ensures HoldsNothing(sys, id)
  {
    assert Consistent(id, sys.store.rows[id], ProvisionOf(sys, id), StopOf(sys, id));
  }

  ghost predicate HoldsNothing(sys: System, id: SessionId) {
    && PortOf(sys, id).None?
    && !HoldsOverlay(ProvisionOf(sys, id), StopOf(sys, id))
    && HeldDomain(ProvisionOf(sys, id), StopOf(sys, id)).None?
  }

  lemma NothingHeld(sys: System)
    requires Good(sys) && forall id :: id in sys.store.rows ==> HoldsNothing(sys, id)
    ensures sys.store.ports == {} && sys.store.overlays == {} && sys.store.domains == map[]
  {
    assert HeldPorts(sys) == map[];
    assert forall f :: f !in sys.store.overlays;
    assert forall d :: d !in sys.store.domains;
  }

  // ---------- What failures cost ----------

  /** A job that has ended badly never moves again. */
  ghost predicate Dead(sys: System, id: SessionId) {
    Job(id, 0) in sys.provisions && sys.provisions[Job(id, 0)].Final() && !sys.provisions[Job(id, 0)].Up?
  }

  lemma StepKeepsDead(sys: System, a: Action, id: SessionId)
    requires Good(sys) && Enabled(sys, a) && Disciplined(sys, a) && id in sys.store.rows && Dead(sys, id)
    ensures var sys' := Step(sys, a);
            && id in sys'.store.rows && sys'.store.rows[id].state == sys.store.rows[id].state
            && ProvisionOf(sys', id) == ProvisionOf(sys, id)
  {
    if Subject(a) == id {
      GoodEverywhere(sys, id);
      OwnStepKeepsDead(sys, a, id);
    } else {
      StepIsChange(sys, a);
      RowsKept(sys, Step(sys, a), Subject(a));
    }
  }

  lemma OwnStepKeepsDead(sys: System, a: Action, id: SessionId)
    requires GoodAt(sys, id) && Enabled(sys, a) && Disciplined(sys, a) && Dead(sys, id) && Subject(a) == id
    ensures var sys' := Step(sys, a);
            && id in sys'.store.rows && sys'.store.rows[id].state == sys.store.rows[id].state
            && ProvisionOf(sys', id) == ProvisionOf(sys, id)
  {
    match a
    case StepProvision(j, _) => assert sys.provisions[j].Final();
    case _ =>
  }

  /** A session whose define failed keeps its port, and one whose overlay or port could
      not be had stays in `provisioning`, for the rest of every disciplined run. */
  lemma {:induction false} FailuresAreForGood(sys: System, acts: seq<Action>, id: SessionId)
    requires Good(sys) && DisciplinedRun(sys, acts) && id in sys.store.rows && Dead(sys, id)
    ensures Run(sys, acts)
    ensures var end := After(sys, acts);
            && id in end.store.rows
            && (sys.provisions[Job(id, 0)].Leaked? ==>
                  end.store.rows[id].state.Failed? && sys.provisions[Job(id, 0)].port in end.store.ports)
            && (!sys.provisions[Job(id, 0)].Leaked? ==> end.store.rows[id].state.Provisioning?)
    decreases acts
  {
    DisciplinedRunsAreGood(sys, acts);
    GoodEverywhere(sys, id);
    if acts == [] {
      if sys.provisions[Job(id, 0)].Leaked? {
        HeldPortInUse(sys, id);
      }
    } else {
      StepKeepsDead(sys, acts[0], id);
      StepKeepsGood(sys, acts[0]);
      FailuresAreForGood(Step(sys, acts[0]), acts[1..], id);
    }
  }
}
