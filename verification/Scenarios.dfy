/** Runs of the interleaving model put together from whole calls: a job run alone is a run,
    and runs follow one another. */
module Scenarios {
  import opened Types
  import opened OverlayManager
  import opened VmLifecycle
  import opened Interleaving

  lemma {:induction false} RunsCompose(sys: System, a: seq<Action>, b: seq<Action>)
    requires Run(sys, a) && Run(After(sys, a), b)
    ensures Run(sys, a + b) && After(sys, a + b) == After(After(sys, a), b)
    ensures DisciplinedRun(sys, a) && DisciplinedRun(After(sys, a), b) ==> DisciplinedRun(sys, a + b)
    decreases a
  {
    if a == [] {
      assert a + b == b;
    } else {
      RunsCompose(Step(sys, a[0]), a[1..], b);
      assert (a + b)[1..] == a[1..] + b;
    }
  }

  lemma OneMore(sys: System, acts: seq<Action>, a: Action)
    requires Run(sys, acts) && Enabled(After(sys, acts), a)
    ensures Run(sys, acts + [a]) && After(sys, acts + [a]) == Step(After(sys, acts), a)
    ensures DisciplinedRun(sys, acts) && Disciplined(After(sys, acts), a) ==> DisciplinedRun(sys, acts + [a])
  {
    var mid := After(sys, acts);
    var end := Step(mid, a);
    assert [a][1..] == [] && Run(end, []) && After(end, []) == end && DisciplinedRun(end, []);
    assert Run(mid, [a]) && After(mid, [a]) == end;
    RunsCompose(sys, acts, [a]);
  }

  /** No stop is begun or moves. */
  predicate NoStops(acts: seq<Action>) {
    forall i :: 0 <= i < |acts| ==> !acts[i].BeginStop? && !acts[i].StepStop?
  }

  // ---------- Whole calls are runs ----------

  /** Nothing but the session's own history of releases has changed. */
  predicate SameReleases(sys: System, end: System, id: SessionId) {
    end.released - {id} == sys.released - {id}
  }

  function StopSteps(j: JobId, now: int, steps: nat): seq<Action> {
    seq(steps, _ => StepStop(j, now))
  }

  lemma {:induction false} StopAlone(sys: System, j: JobId, now: int, steps: nat)
    requires j in sys.stops && j.session in sys.store.rows
    ensures Run(sys, StopSteps(j, now, steps)) && DisciplinedRun(sys, StopSteps(j, now, steps))
    ensures var (s, job) := RunStop(sys.store, j.session, sys.stops[j], now, steps);
            var end := After(sys, StopSteps(j, now, steps));
            && end.store == s && end.stops == sys.stops[j := job] && end.provisions == sys.provisions
            && SameReleases(sys, end, j.session)
    decreases steps
  {
    var acts := StopSteps(j, now, steps);
    if steps == 0 {
      assert acts == [];
      assert sys.stops[j := sys.stops[j]] == sys.stops;
    } else {
      var sys' := Step(sys, acts[0]);
      assert acts[1..] == StopSteps(j, now, steps - 1);
      StopAlone(sys', j, now, steps - 1);
      var job := RunStop(sys'.store, j.session, sys'.stops[j], now, steps - 1).1;
      assert sys'.stops[j := job] == sys.stops[j := job];
    }
  }

  function ProvisionSteps(j: JobId, o: Outcome, steps: nat): seq<Action> {
    seq(steps, _ => StepProvision(j, o))
  }

  lemma {:induction false} ProvisionAlone(sys: System, j: JobId, o: Outcome) returns (steps: nat)
    requires j in sys.provisions && j.session in sys.store.rows && Proper(sys.provisions[j])
    ensures Run(sys, ProvisionSteps(j, o, steps))
    ensures var (s, pc) := RunProvision(sys.store, j.session, sys.provisions[j], o);
            var end := After(sys, ProvisionSteps(j, o, steps));
            && end.store == s && end.provisions == sys.provisions[j := pc] && end.stops == sys.stops
            && end.released <= sys.released && SameReleases(sys, end, j.session)
    decreases Distance(sys.provisions[j])
  {
    if sys.provisions[j].Final() {
      steps := 0;
      assert sys.provisions[j := sys.provisions[j]] == sys.provisions;
    } else {
      var sys' := Step(sys, StepProvision(j, o));
      var rest := ProvisionAlone(sys', j, o);
      steps := rest + 1;
      var acts := ProvisionSteps(j, o, steps);
      assert acts[1..] == ProvisionSteps(j, o, rest);
      var pc := RunProvision(sys'.store, j.session, sys'.provisions[j], o).1;
      assert sys'.provisions[j := pc] == sys.provisions[j := pc];
    }
  }

  lemma StepKeepsFreshToken(sys: System, j: JobId, o: Outcome)
    requires j in sys.provisions && j.session in sys.store.rows && !sys.provisions[j].Defined?
    requires FreshToken(sys, o.token)
    ensures FreshToken(Step(sys, StepProvision(j, o)), o.token)
  {
  }

  /** With a fresh token the steps of one provisioning job are disciplined. */
  lemma {:induction false} ProvisionIsDisciplined(sys: System, j: JobId, o: Outcome, steps: nat)
    requires j in sys.provisions && j.session in sys.store.rows
    requires FreshToken(sys, o.token) || sys.provisions[j].Final()
    ensures DisciplinedRun(sys, ProvisionSteps(j, o, steps))
    decreases steps
  {
    var acts := ProvisionSteps(j, o, steps);
    if steps == 0 {
      assert acts == [];
    } else {
      assert acts[1..] == ProvisionSteps(j, o, steps - 1);
      if FreshToken(sys, o.token) && !sys.provisions[j].Defined? {
        StepKeepsFreshToken(sys, j, o);
      }
      ProvisionIsDisciplined(Step(sys, acts[0]), j, o, steps - 1);
    }
  }

  // ---------- Sessions brought up and stopped with nothing else running ----------

  /** Session `id` is up on port `p`, and nothing else has changed. */
  predicate CameUp(sys: System, end: System, id: SessionId, p: int) {
    && end.stops == sys.stops
    && end.provisions == sys.provisions[Job(id, 0) := Up(p)]
    && end.store.ports == sys.store.ports + {p}
    && id in end.store.rows && end.store.rows == sys.store.rows[id := end.store.rows[id]]
    && end.store.rows[id].state.Running? && end.store.rows[id].port == Some(p)
    && end.released <= sys.released && SameReleases(sys, end, id)
  }

  /** A new session is inserted and its job picked up. */
  lemma PickUp(sys: System, id: SessionId) returns (acts: seq<Action>)
    requires id !in sys.store.rows && Job(id, 0) !in sys.provisions
    ensures Run(sys, acts) && DisciplinedRun(sys, acts) && NoStops(acts)
    ensures After(sys, acts) == sys.(store := sys.store.(rows := sys.store.rows[id := NewRow(Student(id), 1, 0)]),
                                     provisions := sys.provisions[Job(id, 0) := Fresh])
  {
    var insert := Insert(id, Student(id), 1, 0);
    assert DisciplinedRun(sys, []);
    OneMore(sys, [], insert);
    OneMore(sys, [] + [insert], BeginProvision(Job(id, 0)));
    acts := [] + [insert] + [BeginProvision(Job(id, 0))];
  }

  /** A new session brought up on port `p` with nothing else running. */
  lemma BringUp(sys: System, id: SessionId, p: int, o: Outcome) returns (acts: seq<Action>)
    requires id !in sys.store.rows && Job(id, 0) !in sys.provisions
    requires o.overlayOk && o.defineOk && LeastFree(sys.store.ports, p)
    ensures Run(sys, acts) && CameUp(sys, After(sys, acts), id, p) && NoStops(acts)
    ensures FreshToken(sys, o.token) ==> DisciplinedRun(sys, acts)
  {
    var j := Job(id, 0);
    var begin := PickUp(sys, id);
    var mid := After(sys, begin);
    var n := ProvisionAlone(mid, j, o);
    if FreshToken(sys, o.token) {
      ProvisionIsDisciplined(mid, j, o, n);
    }
    RunsCompose(sys, begin, ProvisionSteps(j, o, n));
    acts := begin + ProvisionSteps(j, o, n);
    PickedComesUp(sys, mid, After(sys, acts), id, p, o);
  }

  lemma PickedComesUp(sys: System, mid: System, end: System, id: SessionId, p: int, o: Outcome)
    requires id !in sys.store.rows && o.overlayOk && o.defineOk && LeastFree(sys.store.ports, p)
    requires mid == sys.(store := sys.store.(rows := sys.store.rows[id := NewRow(Student(id), 1, 0)]),
                         provisions := sys.provisions[Job(id, 0) := Fresh])
    requires var (s, pc) := RunProvision(mid.store, id, Fresh, o);
             && end.store == s && end.provisions == mid.provisions[Job(id, 0) := pc] && end.stops == mid.stops
             && end.released <= mid.released && SameReleases(mid, end, id)
    ensures CameUp(sys, end, id, p)
  {
    StepsMakeProvision(mid.store, id, o);
    assert end.provisions == sys.provisions[Job(id, 0) := Up(p)];
  }

  /** The columns a stop loads. */
  predicate SameNames(row: Row, row': Row) {
    && row'.domain == row.domain && row'.overlay == row.overlay && row'.port == row.port
  }

  /** A stop that has been loaded, run to its end. */
  lemma FinishStop(sys: System, j: JobId, now: int) returns (acts: seq<Action>)
    requires j in sys.stops && j.session in sys.store.rows
    requires sys.stops[j] == LoadStop(sys.store.rows[j.session], UserStop, false)
    ensures Run(sys, acts) && DisciplinedRun(sys, acts)
    ensures var end := After(sys, acts);
            && end.provisions == sys.provisions
            && end.stops.Keys == sys.stops.Keys
            && (forall k :: k in sys.stops && k != j ==> end.stops[k] == sys.stops[k])
            && end.store.ports == sys.store.ports - Freed(sys.store.rows[j.session].port)
            && end.store.rows.Keys == sys.store.rows.Keys
            && (forall x :: x in sys.store.rows ==> SameNames(sys.store.rows[x], end.store.rows[x]))
            && (forall x :: x in sys.store.rows && x != j.session ==> end.store.rows[x] == sys.store.rows[x])
            && SameReleases(sys, end, j.session)
  {
    acts := StopSteps(j, now, 6);
    StopAlone(sys, j, now, 6);
    StepsMakeStop(sys.store, j.session, UserStop, false, now, NoFault);
  }

  const OUTCOME: Outcome := Outcome(true, true, 0, 0, 120)
}
