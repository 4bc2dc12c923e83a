/** Launches and lifecycle jobs on one table.  Each disciplined lifecycle step is a commit
    that the launch desk's theorems allow, and each launch that commits is an insert that
    the lifecycle's invariant allows, so every run of both together has what is proved of either. */
module LaunchRefinement {
  import opened Types
  import opened VmLifecycle
  import L = Interleaving
  import D = LaunchDesk
  import R = ResourceLedger

  /** The row after a step belongs to the same user, and is active only if it was. */
  lemma StepsNeverReenter(sys: L.System, a: L.Action)
    requires L.Good(sys) && L.Enabled(sys, a) && L.Disciplined(sys, a) && !a.Insert?
    ensures var (id, sys') := (L.Subject(a), L.Step(sys, a));
            && id in sys.store.rows && id in sys'.store.rows
            && sys'.store.rows[id].user == sys.store.rows[id].user
            && (Active(sys'.store.rows[id].state) ==> Active(sys.store.rows[id].state))
            && sys'.store.rows == sys.store.rows[id := sys'.store.rows[id]]
  {
    var id := L.Subject(a);
    L.GoodEverywhere(sys, id);
    match a
    case BeginProvision(j) =>
    case StepProvision(j, o) => ProvisionStepRow(sys.store, id, sys.provisions[j], o);
    case BeginStop(j, _, _) =>
    case StepStop(j, now) => StopStepRow(sys.store, id, sys.stops[j], now);
    case Retime(_, _, _, _, _) =>
  }

  lemma ProvisionStepRow(s: Store, id: SessionId, pc: ProvisionPc, o: Outcome)
    requires id in s.rows
    ensures var s' := ProvisionStep(s, id, pc, o).0;
            && id in s'.rows && s'.rows == s.rows[id := s'.rows[id]] && s'.rows[id].user == s.rows[id].user
            && (s'.rows[id].state == s.rows[id].state || pc.Fresh? || pc.Defined? || pc.DefineFailed?)
  {
  }

  lemma StopStepRow(s: Store, id: SessionId, job: StopJob, now: int)
    requires id in s.rows
    ensures var s' := StopStep(s, id, job, now).0;
            && id in s'.rows && s'.rows == s.rows[id := s'.rows[id]] && s'.rows[id].user == s.rows[id].user
            && (s'.rows[id].state == s.rows[id].state || job.pc.Loaded? || job.pc.Released?)
  {
  }

  /** A disciplined lifecycle step is a `Move` without re-entry on the desk's rows; the
      unique index never rejects it. */
  lemma LifecycleStepIsMove(sys: L.System, a: L.Action, rules: D.Rules, desk: D.Desk)
    requires L.Good(sys) && L.Enabled(sys, a) && L.Disciplined(sys, a) && !a.Insert?
    requires desk.rows == sys.store.rows && (rules.indexed ==> D.OneActiveEach(desk.rows))
    ensures var (id, sys') := (L.Subject(a), L.Step(sys, a));
            && id in sys'.store.rows
            && var move := D.Move(id, sys'.store.rows[id]);
               && D.Enabled(desk, move) && D.NoReentry(desk, move)
               && D.Step(rules, desk, move).rows == sys'.store.rows
  {
    StepsNeverReenter(sys, a);
    var (id, row) := (L.Subject(a), L.Step(sys, a).store.rows[L.Subject(a)]);
    if rules.indexed && Active(row.state) {
      assert ActiveRowsOf(desk.rows, row.user) - {id} == {};
    }
  }

  // ---------- Both together ----------

  datatype Joint = Joint(sys: L.System, launches: map<D.LaunchId, D.Launch>)

  datatype Action = AtDesk(act: D.Action) | InLab(job: L.Action)

  const OPENING: Joint := Joint(L.EMPTY, map[])

  function DeskOf(c: Joint): D.Desk {
    D.Desk(c.sys.store.rows, c.launches)
  }

  /** Rows are inserted by launches and changed by lifecycle steps only. */
  predicate Enabled(c: Joint, a: Action) {
    match a
    case AtDesk(act) => !act.Move? && D.Enabled(DeskOf(c), act)
    case InLab(job) => !job.Insert? && L.Enabled(c.sys, job)
  }

  function Step(rules: D.Rules, c: Joint, a: Action): Joint
    requires Enabled(c, a)
  {
    match a
    case AtDesk(act) =>
      var desk := D.Step(rules, DeskOf(c), act);
      Joint(c.sys.(store := c.sys.store.(rows := desk.rows)), desk.launches)
    case InLab(job) => c.(sys := L.Step(c.sys, job))
  }

  ghost predicate Run(rules: D.Rules, c: Joint, acts: seq<Action>)
    decreases acts
  {
    acts == [] ||
    (Enabled(c, acts[0]) && (acts[0].InLab? ==> L.Disciplined(c.sys, acts[0].job))
     && Run(rules, Step(rules, c, acts[0]), acts[1..]))
  }

  ghost function After(rules: D.Rules, c: Joint, acts: seq<Action>): Joint
    requires Run(rules, c, acts)
    decreases acts
  {
    if acts == [] then c else After(rules, Step(rules, c, acts[0]), acts[1..])
  }

  ghost predicate Consistent(rules: D.Rules, c: Joint) {
    L.Good(c.sys) && (rules.indexed ==> D.OneActiveEach(c.sys.store.rows))
  }

  /** What the desk sees of a step. */
  function Seen(rules: D.Rules, c: Joint, a: Action): D.Action
    requires Enabled(c, a)
  {
    match a
    case AtDesk(act) => act
    case InLab(job) =>
      StepKeepsRow(c.sys, job);
      D.Move(L.Subject(job), L.Step(c.sys, job).store.rows[L.Subject(job)])
  }

  lemma StepKeepsRow(sys: L.System, a: L.Action)
    requires L.Enabled(sys, a)
    ensures L.Subject(a) in L.Step(sys, a).store.rows
  {
  }

  lemma DeskStepKeepsGood(rules: D.Rules, c: Joint, act: D.Action)
    requires L.Good(c.sys) && Enabled(c, AtDesk(act))
    ensures L.Good(Step(rules, c, AtDesk(act)).sys)
  {
    var sys' := Step(rules, c, AtDesk(act)).sys;
    if act.Commit? && sys'.store.rows != c.sys.store.rows {
      var insert := L.Insert(act.session, c.launches[act.launch].user, act.maxExtensions, act.now);
      assert sys' == L.Step(c.sys, insert);
      L.StepKeepsGood(c.sys, insert);
    } else {
      assert sys' == c.sys;
    }
  }

  lemma StepIsSeen(rules: D.Rules, c: Joint, a: Action)
    requires Consistent(rules, c) && Enabled(c, a) && (a.InLab? ==> L.Disciplined(c.sys, a.job))
    ensures Consistent(rules, Step(rules, c, a))
    ensures var seen := Seen(rules, c, a);
            && D.Enabled(DeskOf(c), seen) && D.NoReentry(DeskOf(c), seen)
            && D.Step(rules, DeskOf(c), seen) == DeskOf(Step(rules, c, a))
  {
    match a {
      case AtDesk(act) => DeskStepKeepsGood(rules, c, act);
      case InLab(job) =>
        L.StepKeepsGood(c.sys, job);
        LifecycleStepIsMove(c.sys, job, rules, DeskOf(c));
    }
    if rules.indexed {
      D.IndexedStepKeepsOne(rules, DeskOf(c), Seen(rules, c, a));
    }
  }

  ghost function SeenRun(rules: D.Rules, c: Joint, acts: seq<Action>): seq<D.Action>
    requires Run(rules, c, acts)
    decreases acts
  {
    if acts == [] then [] else [Seen(rules, c, acts[0])] + SeenRun(rules, Step(rules, c, acts[0]), acts[1..])
  }

  /** A run of launches and disciplined jobs keeps the lifecycle's invariant, and is a run
      without re-entry of the launch desk. */
  lemma {:induction false} JointRunIsSeen(rules: D.Rules, c: Joint, acts: seq<Action>)
    requires Consistent(rules, c) && Run(rules, c, acts)
    ensures Consistent(rules, After(rules, c, acts))
    ensures var seen := SeenRun(rules, c, acts);
            && D.Run(rules, DeskOf(c), seen) && D.NeverReenters(rules, DeskOf(c), seen)
            && D.After(rules, DeskOf(c), seen) == DeskOf(After(rules, c, acts))
    decreases acts
  {
    if acts == [] {
    } else {
      StepIsSeen(rules, c, acts[0]);
      JointRunIsSeen(rules, Step(rules, c, acts[0]), acts[1..]);
      assert SeenRun(rules, c, acts)[1..] == SeenRun(rules, Step(rules, c, acts[0]), acts[1..]);
    }
  }

  /** From an empty lab, whatever the interleaving of launches and disciplined jobs: the
      resource invariant holds; with the index no user has two active rows; without it no
      student has when each student's launches are serialized; and with at most `k`
      launches between check and insert the cap is exceeded by at most `k - 1`. */
  lemma JointRunsAreSafe(rules: D.Rules, acts: seq<Action>, k: nat)
    requires Run(rules, OPENING, acts) && rules.cap >= 0 && k >= 1
    ensures D.Run(rules, D.OPENING, SeenRun(rules, OPENING, acts))
    ensures var (seen, end) := (SeenRun(rules, OPENING, acts), After(rules, OPENING, acts));
            && L.Good(end.sys)
            && (rules.indexed ==> D.OneActiveEach(end.sys.store.rows))
            && (D.AlwaysSerialized(rules, D.OPENING, seen) ==> D.OneActivePerStudent(end.sys.store.rows))
            && (D.WindowAtMost(rules, D.OPENING, seen, k) ==> |ActiveRows(end.sys.store.rows)| <= rules.cap + k - 1)
  {
    assert L.Good(L.EMPTY);
    assert DeskOf(OPENING) == D.OPENING;
    JointRunIsSeen(rules, OPENING, acts);
    var seen := SeenRun(rules, OPENING, acts);
    if D.AlwaysSerialized(rules, D.OPENING, seen) {
      D.SerializedLaunchesKeepOne(rules, D.OPENING, seen);
    }
    if D.WindowAtMost(rules, D.OPENING, seen, k) {
      D.CapacityHoldsFromOpening(rules, seen, k);
    }
  }

  // ---------- What a stuck provisioning costs ----------

  /** Sessions whose provisioning got no overlay or no port: they stay in `provisioning`. */
  ghost function StuckSessions(sys: L.System): set<SessionId> {
    set id | id in sys.store.rows && R.Dead(sys, id) && !sys.provisions[L.Job(id, 0)].Leaked?
  }

  lemma StuckIsActive(sys: L.System, id: SessionId)
    requires L.Good(sys) && id in StuckSessions(sys)
    ensures sys.store.rows[id].state.Provisioning?
  {
    L.GoodEverywhere(sys, id);
  }

  lemma StepKeepsStuck(rules: D.Rules, c: Joint, a: Action, id: SessionId)
    requires Consistent(rules, c) && Enabled(c, a) && (a.InLab? ==> L.Disciplined(c.sys, a.job))
    requires id in StuckSessions(c.sys)
    ensures var sys' := Step(rules, c, a).sys;
            id in StuckSessions(sys') && sys'.store.rows[id].user == c.sys.store.rows[id].user
  {
    var sys' := Step(rules, c, a).sys;
    match a
    case AtDesk(act) =>
      assert id in sys'.store.rows && sys'.store.rows[id] == c.sys.store.rows[id];
    case InLab(job) =>
      R.StepKeepsDead(c.sys, job, id);
      StepsNeverReenter(c.sys, job);
      assert L.ProvisionOf(sys', id) == Some(c.sys.provisions[L.Job(id, 0)]);
  }

  lemma {:induction false} StuckStays(rules: D.Rules, c: Joint, acts: seq<Action>, id: SessionId)
    requires Consistent(rules, c) && Run(rules, c, acts) && id in StuckSessions(c.sys)
    ensures var sys' := After(rules, c, acts).sys;
            id in StuckSessions(sys') && sys'.store.rows[id].user == c.sys.store.rows[id].user
    decreases acts
  {
    if acts == [] {
    } else {
      StepKeepsStuck(rules, c, acts[0], id);
      StepIsSeen(rules, c, acts[0]);
      StuckStays(rules, Step(rules, c, acts[0]), acts[1..], id);
    }
  }

  /** A session that got no overlay or no port keeps its user from launching for good: a
      student by the check, anyone by the index; and it takes a place for good, so that as
      many of them as the cap close the lab. */
  lemma StuckSessionsBlockForGood(rules: D.Rules, c: Joint, acts: seq<Action>)
    requires Consistent(rules, c) && Run(rules, c, acts)
    ensures var (stuck, rows, rows') := (StuckSessions(c.sys), c.sys.store.rows, After(rules, c, acts).sys.store.rows);
            && (forall id, maintenance :: id in stuck && rows[id].user.Student? ==>
                  RefuseUser(rows', rows[id].user, maintenance).Some?)
            && (forall id, available :: id in stuck && rules.indexed ==>
                  RefuseInsert(rows', rows[id].user, available, true).Some?)
            && |ActiveRows(rows')| >= |stuck|
            && (|stuck| >= rules.cap ==> RefuseCapacity(rows', rules.cap).Some?)
  {
    var (stuck, sys') := (StuckSessions(c.sys), After(rules, c, acts).sys);
    JointRunIsSeen(rules, c, acts);
    forall id | id in stuck
      ensures id in ActiveRowsOf(sys'.store.rows, c.sys.store.rows[id].user) && id in ActiveRows(sys'.store.rows)
    {
      StuckStays(rules, c, acts, id);
      StuckIsActive(sys', id);
    }
    SubsetSize(stuck, ActiveRows(sys'.store.rows));
  }
}
