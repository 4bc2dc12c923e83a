/** Why the discipline is needed: a stop does not look at the state it starts from and
    the row keeps its port number, so a second stop of one session can release a port
    that by then belongs to another. */
module Undisciplined {
  import opened Types
  import opened OverlayManager
  import opened VmLifecycle
  import opened Interleaving
  import opened ResourceLedger
  import opened Scenarios

  // ---------- A second stop ----------

  const FIRST: JobId := Job(0, 0)
  const SECOND: JobId := Job(0, 1)

  /** Session 0 runs on the first port and two stops have loaded its row. */
  lemma TwoStopsLoaded() returns (acts: seq<Action>)
    ensures Run(EMPTY, acts)
    ensures var sys := After(EMPTY, acts);
            && sys.provisions == map[FIRST := Up(PORT_MIN)]
            && sys.stops.Keys == {FIRST, SECOND}
            && sys.store.rows.Keys == {0} && sys.store.ports == {PORT_MIN}
            && sys.store.rows[0].port == Some(PORT_MIN)
            && sys.stops[FIRST] == sys.stops[SECOND] == LoadStop(sys.store.rows[0], UserStop, false)
            && sys.released == {}
  {
    var up := BringUp(EMPTY, 0, PORT_MIN, OUTCOME);
    var sys := After(EMPTY, up);
    assert sys.provisions == map[FIRST := Up(PORT_MIN)];
    OneMore(EMPTY, up, BeginStop(FIRST, UserStop, false));
    OneMore(EMPTY, up + [BeginStop(FIRST, UserStop, false)], BeginStop(SECOND, UserStop, false));
    acts := up + [BeginStop(FIRST, UserStop, false)] + [BeginStop(SECOND, UserStop, false)];
  }

  /** Stop `j` of session 0 ends, then session `id` comes up on the port it freed. */
  lemma StopThenBringUp(sys: System, j: JobId, id: SessionId, now: int) returns (acts: seq<Action>)
    requires j in sys.stops && j.session == 0 && 0 in sys.store.rows && sys.store.ports == {PORT_MIN}
    requires sys.store.rows[0].port == Some(PORT_MIN)
    requires sys.stops[j] == LoadStop(sys.store.rows[0], UserStop, false)
    requires id !in sys.store.rows && Job(id, 0) !in sys.provisions && sys.released <= {0}
    ensures Run(sys, acts)
    ensures var end := After(sys, acts);
            && end.stops.Keys == sys.stops.Keys
            && (forall k :: k in sys.stops && k != j ==> end.stops[k] == sys.stops[k])
            && end.provisions == sys.provisions[Job(id, 0) := Up(PORT_MIN)]
            && end.store.rows.Keys == sys.store.rows.Keys + {id} && end.store.ports == {PORT_MIN}
            && end.store.rows[id].port == Some(PORT_MIN) && end.store.rows[id].state.Running?
            && (forall x :: x in sys.store.rows ==> SameNames(sys.store.rows[x], end.store.rows[x]))
            && (forall x :: x in sys.store.rows && x != 0 ==> end.store.rows[x] == sys.store.rows[x])
            && end.released <= {0}
  {
    var stop := FinishStop(sys, j, now);
    var mid := After(sys, stop);
    assert mid.store.ports == {};
    assert mid.released <= {0} by {
      assert forall x :: x in mid.released && x != 0 ==> x in mid.released - {0};
    }
    var up := BringUp(mid, id, PORT_MIN, OUTCOME);
    RunsCompose(sys, stop, up);
    acts := stop + up;
  }

  /** Two stops of session 0 load its row while it runs.  Between them session 1 gets
      the freed port; the second stop frees it again and session 2 gets it too. */
  lemma SecondStopSharesAPort() returns (acts: seq<Action>)
    ensures Run(EMPTY, acts)
    ensures var sys := After(EMPTY, acts);
            && Holds(sys, Live(1), PORT_MIN) && Holds(sys, Live(2), PORT_MIN)
            && sys.store.rows[1].state.Running? && sys.store.rows[2].state.Running?
  {
    var a := TwoStopsLoaded();
    var sys := After(EMPTY, a);
    var b := StopThenBringUp(sys, FIRST, 1, 1);
    var mid := After(sys, b);
    RunsCompose(EMPTY, a, b);
    var c := StopThenBringUp(mid, SECOND, 2, 2);
    RunsCompose(EMPTY, a + b, c);
    acts := a + b + c;
  }

  // ---------- Exactly which releases are safe ----------

  ghost predicate Exclusive(sys: System) {
    forall o, o', p :: Holds(sys, o, p) && Holds(sys, o', p) ==> o == o'
  }

  /** Every port someone holds is marked as in use, and in the range. */
  ghost predicate HeldPortsInUse(sys: System) {
    forall o, p :: Holds(sys, o, p) ==> p in sys.store.ports && PORT_MIN <= p < PORT_MAX
  }

  /** No two owners hold one port, and held ports are marked; scans stay in the range. */
  ghost predicate Owned(sys: System) {
    Exclusive(sys) && HeldPortsInUse(sys) && forall j :: j in sys.provisions ==> Proper(sys.provisions[j])
  }

  predicate Releases(sys: System, a: Action)
    requires Enabled(sys, a)
  {
    a.StepStop? && sys.stops[a.job].pc.OverlayGone? && sys.stops[a.job].port.Some?
  }

  /** What a stop would have to check before it releases: no one but the session it stops
      holds the port. */
  ghost predicate Safe(sys: System, a: Action)
    requires Enabled(sys, a)
  {
    Releases(sys, a) ==> forall o :: Holds(sys, o, sys.stops[a.job].port.value) ==> o == Live(a.job.session)
  }

  lemma ReleaseChangesHolders(sys: System, a: Action)
    requires Enabled(sys, a) && Releases(sys, a)
    ensures var p := sys.stops[a.job].port.value;
            forall o, q :: Holds(Step(sys, a), o, q) <==> Holds(sys, o, q) && !(o == Live(a.job.session) && q == p)
  {
  }

  lemma ReleaseKeepsOwnedIff(sys: System, a: Action)
    requires Owned(sys) && Enabled(sys, a) && Releases(sys, a)
    ensures Owned(Step(sys, a)) <==> Safe(sys, a)
  {
    ReleaseChangesHolders(sys, a);
  }

  /** The owner whose port becomes `w`'s by a step of provisioning job `j`: itself, or the
      job when it hands its port over or leaks it. */
  function Origin(sys: System, j: JobId, w: Owner): Owner
    requires j in sys.provisions
  {
    if (sys.provisions[j].Defined? && w == Live(j.session)) || (sys.provisions[j].FailedRow? && w == Leak(j))
    then InFlight(j) else w
  }

  predicate JustClaimed(sys: System, j: JobId, w: Owner, p: int)
    requires j in sys.provisions
  {
    w == InFlight(j) && sys.provisions[j].Scanning? && p == sys.provisions[j].cursor
    && p !in sys.store.ports && p < PORT_MAX
  }

  lemma HolderCameFrom(sys: System, j: JobId, o: Outcome, w: Owner, p: int)
    requires Enabled(sys, StepProvision(j, o)) && Holds(Step(sys, StepProvision(j, o)), w, p)
    ensures JustClaimed(sys, j, w, p) || Holds(sys, Origin(sys, j, w), p)
    ensures w == InFlight(j) ==> !sys.provisions[j].Defined? && !sys.provisions[j].FailedRow?
  {
  }

  lemma ProvisionKeepsOwned(sys: System, a: Action)
    requires Owned(sys) && Enabled(sys, a) && a.StepProvision?
    ensures Owned(Step(sys, a))
  {
    var (j, sys') := (a.job, Step(sys, a));
    forall w, p | Holds(sys', w, p)
      ensures JustClaimed(sys, j, w, p) || Holds(sys, Origin(sys, j, w), p)
      ensures w == InFlight(j) ==> !sys.provisions[j].Defined? && !sys.provisions[j].FailedRow?
    {
      HolderCameFrom(sys, j, a.outcome, w, p);
    }
  }

  lemma OtherStepKeepsOwned(sys: System, a: Action)
    requires Owned(sys) && Enabled(sys, a) && !a.StepProvision? && !Releases(sys, a)
    ensures Owned(Step(sys, a))
  {
    forall o, p
      ensures Holds(Step(sys, a), o, p) ==> Holds(sys, o, p)
    {
    }
  }

  lemma StepKeepsOwnedIff(sys: System, a: Action)
    requires Owned(sys) && Enabled(sys, a)
    ensures Owned(Step(sys, a)) <==> Safe(sys, a)
  {
    if Releases(sys, a) {
      ReleaseKeepsOwnedIff(sys, a);
    } else if a.StepProvision? {
      ProvisionKeepsOwned(sys, a);
    } else {
      OtherStepKeepsOwned(sys, a);
    }
  }

  ghost predicate AlwaysOwned(sys: System, acts: seq<Action>)
    requires Run(sys, acts)
    decreases acts
  {
    Owned(sys) && (acts == [] || AlwaysOwned(Step(sys, acts[0]), acts[1..]))
  }

  ghost predicate SafeReleases(sys: System, acts: seq<Action>)
    requires Run(sys, acts)
    decreases acts
  {
    acts == [] || (Safe(sys, acts[0]) && SafeReleases(Step(sys, acts[0]), acts[1..]))
  }

  lemma {:induction false} OwnedAlongIff(sys: System, acts: seq<Action>)
    requires Owned(sys) && Run(sys, acts)
    ensures AlwaysOwned(sys, acts) <==> SafeReleases(sys, acts)
    ensures AlwaysOwned(sys, acts) ==> Owned(After(sys, acts))
    decreases acts
  {
    if acts == [] {
    } else {
      StepKeepsOwnedIff(sys, acts[0]);
      if Owned(Step(sys, acts[0])) {
        OwnedAlongIff(Step(sys, acts[0]), acts[1..]);
      }
    }
  }

  /** In every run, disciplined or not: no two owners ever hold one port and every held
      port stays marked, exactly when each release finds no holder but its own session. */
  lemma RunsAreOwnedIff(acts: seq<Action>)
    requires Run(EMPTY, acts)
    ensures AlwaysOwned(EMPTY, acts) <==> SafeReleases(EMPTY, acts)
  {
    OwnedAlongIff(EMPTY, acts);
  }

  // ---------- An unsafe release leads to a shared port ----------

  lemma {:induction false} FreshSession(taken: set<SessionId>) returns (id: SessionId)
    ensures forall x :: x in taken ==> x < id
    decreases taken
  {
    if taken == {} {
      id := 0;
    } else {
      var x :| x in taken;
      var rest := FreshSession(taken - {x});
      id := if x < rest then rest else x + 1;
      assert forall y :: y in taken && y != x ==> y in taken - {x};
    }
  }

  ghost function FreeBelow(ports: set<int>, p: int): set<int> {
    set q | PORT_MIN <= q < p && q !in ports
  }

  /** Bringing up a new session on another port or this one does not take it from `o`. */
  lemma StillHolds(sys: System, end: System, o: Owner, p: int, id: SessionId, q: int)
    requires Holds(sys, o, p) && CameUp(sys, end, id, q)
    requires id !in sys.store.rows && Job(id, 0) !in sys.provisions && id !in sys.released
    ensures Holds(end, o, p) && Holds(end, Live(id), q) && o != Live(id)
  {
  }

  /** When a held port is not marked, new sessions come up one after the other until one
      of them gets that port too. */
  lemma {:induction false} NewSessionsReach(sys: System, o: Owner, p: int) returns (acts: seq<Action>, id: SessionId)
    requires Holds(sys, o, p) && p !in sys.store.ports && PORT_MIN <= p < PORT_MAX
    ensures Run(sys, acts) && NoStops(acts)
    ensures Holds(After(sys, acts), o, p) && Holds(After(sys, acts), Live(id), p) && o != Live(id)
    decreases |FreeBelow(sys.store.ports, p)|
  {
    LeastFreeExists(sys.store.ports, PORT_MIN);
    var q :| LeastFree(sys.store.ports, q);
    var jobs := set j | j in sys.provisions :: j.session;
    id := FreshSession(sys.store.rows.Keys + jobs + sys.released);
    assert forall j :: j in sys.provisions ==> j.session in jobs;
    acts := BringUp(sys, id, q, OUTCOME);
    var mid := After(sys, acts);
    StillHolds(sys, mid, o, p, id, q);
    if q != p {
      assert FreeBelow(mid.store.ports, p) == FreeBelow(sys.store.ports, p) - {q};
      var rest, last := NewSessionsReach(mid, o, p);
      RunsCompose(sys, acts, rest);
      acts, id := acts + rest, last;
    }
  }

  /** Some run in which sessions are only launched and provisioned gives two owners one port. */
  ghost predicate CanShare(sys: System) {
    exists acts :: Run(sys, acts) && NoStops(acts) && !Exclusive(After(sys, acts))
  }

  lemma {:induction false} LaunchesKeepOwned(sys: System, acts: seq<Action>)
    requires Owned(sys) && Run(sys, acts) && NoStops(acts)
    ensures Owned(After(sys, acts))
    decreases acts
  {
    if acts == [] {
    } else {
      StepKeepsOwnedIff(sys, acts[0]);
      assert NoStops(acts[1..]) by {
        assert forall i :: 0 <= i < |acts[1..]| ==> acts[1..][i] == acts[i + 1];
      }
      LaunchesKeepOwned(Step(sys, acts[0]), acts[1..]);
    }
  }

  /** A release can lead to two owners of one port, with nothing but new launches after it,
      exactly when someone other than its own session held the port. */
  lemma ReleaseCanShareIff(sys: System, a: Action)
    requires Owned(sys) && Enabled(sys, a)
    ensures CanShare(Step(sys, a)) <==> !Safe(sys, a)
  {
    var sys' := Step(sys, a);
    StepKeepsOwnedIff(sys, a);
    if Safe(sys, a) {
      forall acts | Run(sys', acts) && NoStops(acts)
        ensures Exclusive(After(sys', acts))
      {
        LaunchesKeepOwned(sys', acts);
      }
    } else {
      ReleaseChangesHolders(sys, a);
      var p := sys.stops[a.job].port.value;
      var o :| Holds(sys, o, p) && o != Live(a.job.session);
      var acts, id := NewSessionsReach(sys', o, p);
      assert !Exclusive(After(sys', acts));
    }
  }

  // ---------- The discipline is enough ----------

  lemma GoodIsOwned(sys: System)
    requires Good(sys)
    ensures Owned(sys)
  {
    GoodPortsAreExclusive(sys);
    forall o, p | Holds(sys, o, p)
      ensures p in sys.store.ports
    {
      assert SomeoneHolds(sys, p);
    }
    forall j | j in sys.provisions
      ensures Proper(sys.provisions[j])
    {
      assert ProvisionOf(sys, j.session) == Some(sys.provisions[j]);
      GoodEverywhere(sys, j.session);
    }
  }

  /** Disciplined runs make only safe releases. */
  lemma {:induction false} DisciplinedReleasesAreSafe(sys: System, acts: seq<Action>)
    requires Good(sys) && DisciplinedRun(sys, acts)
    ensures Run(sys, acts) && SafeReleases(sys, acts)
    decreases acts
  {
    if acts == [] {
    } else {
      StepKeepsGood(sys, acts[0]);
      GoodIsOwned(sys);
      GoodIsOwned(Step(sys, acts[0]));
      StepKeepsOwnedIff(sys, acts[0]);
      DisciplinedReleasesAreSafe(Step(sys, acts[0]), acts[1..]);
    }
  }
}
