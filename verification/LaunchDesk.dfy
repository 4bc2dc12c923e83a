/** Racing launches.  A launch reads the user's active rows, then the number of active
    rows, and only then inserts; other launches and other writers run in between. */
module LaunchDesk {
  import opened Types
  import opened VmLifecycle

  type LaunchId = nat

  datatype LaunchPc = Requested | UserChecked | CapacityChecked | Inserted(session: SessionId) | Refused(why: Refusal)

  datatype Launch = Launch(user: User, pc: LaunchPc)

  datatype Desk = Desk(rows: map<SessionId, Row>, launches: map<LaunchId, Launch>)

  const OPENING: Desk := Desk(map[], map[])

  /** Whether the table has the unique index, and the policy's cap. */
  datatype Rules = Rules(indexed: bool, cap: int)

  datatype Action =
    | Request(launch: LaunchId, user: User)
    | CheckUser(launch: LaunchId, maintenance: bool)
    | CheckCapacity(launch: LaunchId)
    | Commit(launch: LaunchId, session: SessionId, osAvailable: bool, maxExtensions: int, now: int)
    | Move(session: SessionId, row: Row)

  predicate Enabled(desk: Desk, a: Action) {
    match a
    case Request(l, _) => l !in desk.launches
    case CheckUser(l, _) => l in desk.launches && desk.launches[l].pc.Requested?
    case CheckCapacity(l) => l in desk.launches && desk.launches[l].pc.UserChecked?
    case Commit(l, id, _, _, _) => l in desk.launches && desk.launches[l].pc.CapacityChecked? && id !in desk.rows
    case Move(id, row) => id in desk.rows && row.user == desk.rows[id].user
  }

  function Advance(desk: Desk, l: LaunchId, refused: Option<Refusal>, next: LaunchPc): Desk
    requires l in desk.launches
  {
    var pc := if refused.Some? then Refused(refused.value) else next;
    desk.(launches := desk.launches[l := desk.launches[l].(pc := pc)])
  }

  /** `Move` is any other commit to one row; the index rejects it when it would give the
      user a second active row. */
  function Step(rules: Rules, desk: Desk, a: Action): Desk
    requires Enabled(desk, a)
  {
    match a
    case Request(l, user) => desk.(launches := desk.launches[l := Launch(user, Requested)])
    case CheckUser(l, maintenance) =>
      Advance(desk, l, RefuseUser(desk.rows, desk.launches[l].user, maintenance), UserChecked)
    case CheckCapacity(l) =>
      Advance(desk, l, RefuseCapacity(desk.rows, rules.cap), CapacityChecked)
    case Commit(l, id, osAvailable, maxExtensions, now) =>
      var user := desk.launches[l].user;
      var refused := RefuseInsert(desk.rows, user, osAvailable, rules.indexed);
      var desk' := Advance(desk, l, refused, Inserted(id));
      if refused.Some? then desk' else desk'.(rows := desk.rows[id := NewRow(user, maxExtensions, now)])
    case Move(id, row) =>
      if rules.indexed && Active(row.state) && ActiveRowsOf(desk.rows, row.user) - {id} != {} then desk
      else desk.(rows := desk.rows[id := row])
  }

  /** The launch has been refused for this reason. */
  predicate RefusedFor(desk: Desk, l: LaunchId, why: Refusal) {
    l in desk.launches && desk.launches[l].pc == Refused(why)
  }

  /** Only this launch, and the rows, may differ. */
  predicate OnlyAdvances(desk: Desk, desk': Desk, l: LaunchId) {
    && l in desk.launches && l in desk'.launches && desk'.launches[l].user == desk.launches[l].user
    && desk'.launches == desk.launches[l := desk'.launches[l]]
  }

  /** The first check answers students only: maintenance is refused first, and then a
      student whose session has not ended. */
  lemma UserCheckAnswers(rules: Rules, desk: Desk, a: Action)
    requires a.CheckUser? && Enabled(desk, a)
    ensures var (desk', user) := (Step(rules, desk, a), desk.launches[a.launch].user);
            && desk'.rows == desk.rows && OnlyAdvances(desk, desk', a.launch)
            && (RefusedFor(desk', a.launch, MaintenanceActive) <==> user.Student? && a.maintenance)
            && (RefusedFor(desk', a.launch, OneVmPerStudent) <==>
                  user.Student? && !a.maintenance && Busy(desk.rows, user))
            && (desk'.launches[a.launch].pc == UserChecked <==>
                  user.Staff? || (!a.maintenance && !Busy(desk.rows, user)))
  {
    BusyIff(desk.rows, desk.launches[a.launch].user);
  }

  /** The second check counts the sessions of all users that have not ended. */
  lemma CapacityCheckAnswers(rules: Rules, desk: Desk, a: Action)
    requires a.CheckCapacity? && Enabled(desk, a)
    ensures var desk' := Step(rules, desk, a);
            && desk'.rows == desk.rows && OnlyAdvances(desk, desk', a.launch)
            && (RefusedFor(desk', a.launch, AtCapacity) <==> |Unfinished(desk.rows)| >= rules.cap)
            && (desk'.launches[a.launch].pc == CapacityChecked <==> |Unfinished(desk.rows)| < rules.cap)
  {
    BusyIff(desk.rows, desk.launches[a.launch].user);
  }

  /** The commit refuses a system that is not offered, and then whatever the index stands
      against; otherwise it inserts one queued row. */
  lemma CommitAnswers(rules: Rules, desk: Desk, a: Action)
    requires a.Commit? && Enabled(desk, a)
    ensures var (desk', user) := (Step(rules, desk, a), desk.launches[a.launch].user);
            && OnlyAdvances(desk, desk', a.launch)
            && (RefusedFor(desk', a.launch, OsUnavailable) <==> !a.osAvailable)
            && (RefusedFor(desk', a.launch, IndexViolation) <==>
                  a.osAvailable && rules.indexed && Busy(desk.rows, user))
            && (desk'.launches[a.launch].pc == Inserted(a.session) <==>
                  a.osAvailable && !(rules.indexed && Busy(desk.rows, user)))
            && desk'.rows ==
               if !a.osAvailable || (rules.indexed && Busy(desk.rows, user)) then desk.rows
               else desk.rows[a.session := Row(user, Queued, None, None, None, None, None, None, 0, a.maxExtensions,
                                               None, None, None, None, a.now)]
  {
    BusyIff(desk.rows, desk.launches[a.launch].user);
  }

  /** No commit takes a row that has ended back into an active state. */
  predicate NoReentry(desk: Desk, a: Action)
    requires Enabled(desk, a)
  {
    a.Move? && Active(a.row.state) ==> Active(desk.rows[a.session].state)
  }

  ghost predicate Run(rules: Rules, desk: Desk, acts: seq<Action>)
    decreases acts
  {
    acts == [] || (Enabled(desk, acts[0]) && Run(rules, Step(rules, desk, acts[0]), acts[1..]))
  }

  ghost function After(rules: Rules, desk: Desk, acts: seq<Action>): Desk
    requires Run(rules, desk, acts)
    decreases acts
  {
    if acts == [] then desk else After(rules, Step(rules, desk, acts[0]), acts[1..])
  }

  /** No row re-enters, at any step of the run. */
  ghost predicate NeverReenters(rules: Rules, desk: Desk, acts: seq<Action>)
    requires Run(rules, desk, acts)
    decreases acts
  {
    acts == [] || (NoReentry(desk, acts[0]) && NeverReenters(rules, Step(rules, desk, acts[0]), acts[1..]))
  }

  // ---------- One active row per user ----------

  ghost predicate OneActiveEach(rows: map<SessionId, Row>) {
    forall id, id' ::
      id in rows && id' in rows && Active(rows[id].state) && Active(rows[id'].state) && rows[id].user == rows[id'].user
      ==> id == id'
  }

  lemma ActiveRowsFound(rows: map<SessionId, Row>, user: User)
    ensures forall x ::
      x in rows && Active(rows[x].state) && rows[x].user == user ==> x in ActiveRowsOf(rows, user)
  {
  }

  lemma IndexedStepKeepsOne(rules: Rules, desk: Desk, a: Action)
    requires rules.indexed && Enabled(desk, a) && OneActiveEach(desk.rows)
    ensures OneActiveEach(Step(rules, desk, a).rows)
  {
    match a
    case Commit(l, id, _, _, _) =>
      ActiveRowsFound(desk.rows, desk.launches[l].user);
    case Move(id, row) =>
      ActiveRowsFound(desk.rows, row.user);
      assert forall x :: x in ActiveRowsOf(desk.rows, row.user) && x != id ==>
          x in ActiveRowsOf(desk.rows, row.user) - {id};
    case _ =>
  }

  /** With the unique index on every commit, no run whatever, racing launches and stray
      restarts of ended sessions included, gives a user two active rows. */
  lemma {:induction false} IndexKeepsOneActive(rules: Rules, desk: Desk, acts: seq<Action>)
    requires rules.indexed && OneActiveEach(desk.rows) && Run(rules, desk, acts)
    ensures OneActiveEach(After(rules, desk, acts).rows)
    decreases acts
  {
    if acts == [] {
    } else {
      IndexedStepKeepsOne(rules, desk, acts[0]);
      IndexKeepsOneActive(rules, Step(rules, desk, acts[0]), acts[1..]);
    }
  }

  /** The single-row lookups: `SeveralRows` is the exception they raise on a second row. */
  datatype Found = NoRow | One(session: SessionId) | SeveralRows

  ghost function ActiveVmOf(rows: map<SessionId, Row>, user: User): Found {
    var found := ActiveRowsOf(rows, user);
    if found == {} then NoRow
    else if |found| > 1 then SeveralRows
    else
      var id :| id in found;
      One(id)
  }

  /** The lookups raise for some user exactly when some user has two active rows. */
  lemma LookupsAreSafeIff(rows: map<SessionId, Row>)
    ensures (forall user :: ActiveVmOf(rows, user) != SeveralRows) <==> OneActiveEach(rows)
  {
    if OneActiveEach(rows) {
      forall user
        ensures ActiveVmOf(rows, user) != SeveralRows
      {
        var found := ActiveRowsOf(rows, user);
        if found != {} {
          var id :| id in found;
          assert forall x :: x in found ==> x == id;
          assert found == {id};
        }
      }
    } else {
      var id, id' :| id in rows && id' in rows && Active(rows[id].state) && Active(rows[id'].state)
        && rows[id].user == rows[id'].user && id != id';
      var found := ActiveRowsOf(rows, rows[id].user);
      assert {id, id'} <= found && |{id, id'}| == 2;
      SubsetSize({id, id'}, found);
      assert ActiveVmOf(rows, rows[id].user) == SeveralRows;
    }
  }

  /** The lookup answers a session exactly when it is the user's only one that has not ended,
      and nothing exactly when all of the user's sessions have. */
  lemma LookupAnswers(rows: map<SessionId, Row>, user: User, id: SessionId)
    ensures ActiveVmOf(rows, user) == NoRow <==> !Busy(rows, user)
    ensures ActiveVmOf(rows, user) == One(id) <==>
            && id in Unfinished(rows) && rows[id].user == user
            && forall other :: other in Unfinished(rows) && rows[other].user == user ==> other == id
  {
    BusyIff(rows, user);
    var found := ActiveRowsOf(rows, user);
    assert forall x :: x in found <==> x in Unfinished(rows) && rows[x].user == user;
    if id in found && (forall other :: other in found ==> other == id) {
      assert found == {id};
    }
    if ActiveVmOf(rows, user) == One(id) {
      assert |found - {id}| == 0;
    }
  }

  // ---------- Without the index ----------

  predicate Deciding(launch: Launch) {
    launch.pc.UserChecked? || launch.pc.CapacityChecked?
  }

  /** Each student has at most one launch between its check and its insert. */
  ghost predicate Serialized(desk: Desk) {
    forall l, l' ::
      l in desk.launches && l' in desk.launches && Deciding(desk.launches[l]) && Deciding(desk.launches[l'])
      && desk.launches[l].user.Student? && desk.launches[l].user == desk.launches[l'].user
      ==> l == l'
  }

  ghost predicate AlwaysSerialized(rules: Rules, desk: Desk, acts: seq<Action>)
    requires Run(rules, desk, acts)
    decreases acts
  {
    Serialized(desk) && (acts == [] || AlwaysSerialized(rules, Step(rules, desk, acts[0]), acts[1..]))
  }

  ghost predicate OneActivePerStudent(rows: map<SessionId, Row>) {
    forall id, id' ::
      id in rows && id' in rows && Active(rows[id].state) && Active(rows[id'].state)
      && rows[id].user.Student? && rows[id].user == rows[id'].user
      ==> id == id'
  }

  /** A student whose launch has passed the check has no active row. */
  ghost predicate CheckStillTrue(desk: Desk) {
    forall l, id ::
      l in desk.launches && Deciding(desk.launches[l]) && desk.launches[l].user.Student?
      && id in desk.rows && Active(desk.rows[id].state)
      ==> desk.rows[id].user != desk.launches[l].user
  }

  lemma SerializedStepKeepsOne(rules: Rules, desk: Desk, a: Action)
    requires Enabled(desk, a) && NoReentry(desk, a) && Serialized(desk)
    requires OneActivePerStudent(desk.rows) && CheckStillTrue(desk)
    ensures OneActivePerStudent(Step(rules, desk, a).rows) && CheckStillTrue(Step(rules, desk, a))
  {
    match a
    case CheckUser(l, _) =>
      ActiveRowsFound(desk.rows, desk.launches[l].user);
    case _ =>
  }

  /** Even without the index, when no row re-enters and each student's launches are
      serialized, no student ever has two active rows. */
  lemma {:induction false} SerializedLaunchesKeepOne(rules: Rules, desk: Desk, acts: seq<Action>)
    requires Run(rules, desk, acts) && NeverReenters(rules, desk, acts) && AlwaysSerialized(rules, desk, acts)
    requires OneActivePerStudent(desk.rows) && CheckStillTrue(desk)
    ensures OneActivePerStudent(After(rules, desk, acts).rows)
    decreases acts
  {
    if acts == [] {
    } else {
      SerializedStepKeepsOne(rules, desk, acts[0]);
      SerializedLaunchesKeepOne(rules, Step(rules, desk, acts[0]), acts[1..]);
    }
  }

  /** Without the index, two launches of one user that have both passed their checks
      give the user two active rows, and the lookups raise. */
  lemma RaceWithoutIndex(rules: Rules, desk: Desk, l: LaunchId, l': LaunchId, id: SessionId, id': SessionId)
    requires !rules.indexed && l != l' && id != id'
    requires Enabled(desk, Commit(l, id, true, 1, 0)) && Enabled(desk, Commit(l', id', true, 1, 0))
    requires desk.launches[l].user == desk.launches[l'].user
    ensures var mid := Step(rules, desk, Commit(l, id, true, 1, 0));
            && Enabled(mid, Commit(l', id', true, 1, 0))
            && ActiveVmOf(Step(rules, mid, Commit(l', id', true, 1, 0)).rows, desk.launches[l].user) == SeveralRows
  {
    var end := Step(rules, Step(rules, desk, Commit(l, id, true, 1, 0)), Commit(l', id', true, 1, 0));
    var found := ActiveRowsOf(end.rows, desk.launches[l].user);
    assert {id, id'} <= found && |{id, id'}| == 2;
    SubsetSize({id, id'}, found);
  }

  /** Such a desk is reached from an empty table by a student clicking twice. */
  lemma RaceIsReachable(rules: Rules, user: User)
    requires rules.cap > 0
    ensures var acts := [Request(0, user), Request(1, user), CheckUser(0, false), CheckUser(1, false),
                         CheckCapacity(0), CheckCapacity(1)];
            && Run(rules, OPENING, acts)
            && Enabled(After(rules, OPENING, acts), Commit(0, 0, true, 1, 0))
            && Enabled(After(rules, OPENING, acts), Commit(1, 1, true, 1, 0))
            && After(rules, OPENING, acts).launches[0].user == After(rules, OPENING, acts).launches[1].user == user
  {
    var asked, checked, counted := Launch(user, Requested), Launch(user, UserChecked), Launch(user, CapacityChecked);
    assert ActiveRowsOf(map[], user) == {} && ActiveRows(map[]) == {};
    var d6 := Desk(map[], map[0 := counted, 1 := counted]);
    assert Run(rules, d6, []);
    RunFrom(rules, Desk(map[], map[0 := counted, 1 := checked]), CheckCapacity(1), [], d6);
    RunFrom(rules, Desk(map[], map[0 := checked, 1 := checked]), CheckCapacity(0), [CheckCapacity(1)], d6);
    RunFrom(rules, Desk(map[], map[0 := checked, 1 := asked]), CheckUser(1, false),
            [CheckCapacity(0), CheckCapacity(1)], d6);
    RunFrom(rules, Desk(map[], map[0 := asked, 1 := asked]), CheckUser(0, false),
            [CheckUser(1, false), CheckCapacity(0), CheckCapacity(1)], d6);
    RunFrom(rules, Desk(map[], map[0 := asked]), Request(1, user),
            [CheckUser(0, false), CheckUser(1, false), CheckCapacity(0), CheckCapacity(1)], d6);
    RunFrom(rules, OPENING, Request(0, user),
            [Request(1, user), CheckUser(0, false), CheckUser(1, false), CheckCapacity(0), CheckCapacity(1)], d6);
  }

  /** One more action in front of a run that ends in `end`. */
  lemma RunFrom(rules: Rules, desk: Desk, a: Action, acts: seq<Action>, end: Desk)
    requires Enabled(desk, a) && Run(rules, Step(rules, desk, a), acts)
             && After(rules, Step(rules, desk, a), acts) == end
    ensures Run(rules, desk, [a] + acts) && After(rules, desk, [a] + acts) == end
  {
    assert ([a] + acts)[1..] == acts;
  }

  // ---------- Staff under the index ----------

  ghost predicate HasActiveRow(rows: map<SessionId, Row>, user: User) {
    exists id :: id in rows && Active(rows[id].state) && rows[id].user == user
  }

  lemma HasActiveRowIff(rows: map<SessionId, Row>, user: User)
    ensures HasActiveRow(rows, user) <==> ActiveRowsOf(rows, user) != {}
  {
    ActiveRowsFound(rows, user);
    if ActiveRowsOf(rows, user) != {} {
      var id :| id in ActiveRowsOf(rows, user);
      assert id in rows && Active(rows[id].state) && rows[id].user == user;
    }
  }

  lemma NewRowCounts(rows: map<SessionId, Row>, id: SessionId, row: Row)
    requires id !in rows && Active(row.state)
    ensures |ActiveRowsOf(rows[id := row], row.user)| == |ActiveRowsOf(rows, row.user)| + 1
  {
    assert ActiveRowsOf(rows[id := row], row.user) == ActiveRowsOf(rows, row.user) + {id};
  }

  /** The index does not look at roles: a staff commit of an available system, although
      staff skip the student check, is refused exactly when the table is indexed and the
      user has an active row, and otherwise gives the user one row more. */
  lemma StaffRefusedIff(rules: Rules, desk: Desk, a: Action)
    requires a.Commit? && a.osAvailable && Enabled(desk, a) && desk.launches[a.launch].user.Staff?
    ensures var (user, desk') := (desk.launches[a.launch].user, Step(rules, desk, a));
            && (desk'.launches[a.launch].pc.Refused? <==> rules.indexed && HasActiveRow(desk.rows, user))
            && |ActiveRowsOf(desk'.rows, user)|
               == |ActiveRowsOf(desk.rows, user)| + if desk'.launches[a.launch].pc.Refused? then 0 else 1
  {
    var user := desk.launches[a.launch].user;
    HasActiveRowIff(desk.rows, user);
    NewRowCounts(desk.rows, a.session, NewRow(user, a.maxExtensions, a.now));
  }

  function With(desk: Desk, l: LaunchId, user: User, pc: LaunchPc): Desk {
    desk.(launches := desk.launches[l := Launch(user, pc)])
  }

  /** What the three checks of a new launch do, when none refuses. */
  lemma ChecksAdvance(rules: Rules, desk: Desk, l: LaunchId, user: User, maintenance: bool)
    requires l !in desk.launches && RefuseUser(desk.rows, user, maintenance).None?
             && |ActiveRows(desk.rows)| < rules.cap
    ensures Step(rules, desk, Request(l, user)) == With(desk, l, user, Requested)
    ensures Step(rules, With(desk, l, user, Requested), CheckUser(l, maintenance)) == With(desk, l, user, UserChecked)
    ensures Step(rules, With(desk, l, user, UserChecked), CheckCapacity(l)) == With(desk, l, user, CapacityChecked)
  {
    var (d1, d2) := (With(desk, l, user, Requested), With(desk, l, user, UserChecked));
    assert Step(rules, d1, CheckUser(l, maintenance)).launches == d2.launches;
    assert Step(rules, d2, CheckCapacity(l)).launches == With(desk, l, user, CapacityChecked).launches;
  }

  function WholeLaunch(l: LaunchId, user: User, id: SessionId): seq<Action> {
    [Request(l, user), CheckUser(l, true), CheckCapacity(l), Commit(l, id, true, 1, 0)]
  }

  /** A staff launch with room left, run on its own, gets to its commit. */
  lemma StaffLaunchRuns(rules: Rules, desk: Desk, l: LaunchId, user: User, id: SessionId, rest: seq<Action>, end: Desk)
    requires user.Staff? && l !in desk.launches && id !in desk.rows && |ActiveRows(desk.rows)| < rules.cap
    requires var last := Step(rules, desk.(launches := desk.launches[l := Launch(user, CapacityChecked)]),
                              Commit(l, id, true, 1, 0));
             Run(rules, last, rest) && After(rules, last, rest) == end
    ensures Run(rules, desk, WholeLaunch(l, user, id) + rest)
            && After(rules, desk, WholeLaunch(l, user, id) + rest) == end
  {
    var (d1, d2, d3) :=
      (With(desk, l, user, Requested), With(desk, l, user, UserChecked), With(desk, l, user, CapacityChecked));
    var acts := WholeLaunch(l, user, id);
    ChecksAdvance(rules, desk, l, user, true);
    RunFrom(rules, d3, acts[3], rest, end);
    RunFrom(rules, d2, acts[2], [acts[3]] + rest, end);
    RunFrom(rules, d1, acts[1], [acts[2]] + ([acts[3]] + rest), end);
    RunFrom(rules, desk, acts[0], [acts[1]] + ([acts[2]] + ([acts[3]] + rest)), end);
    assert acts + rest == [acts[0]] + ([acts[1]] + ([acts[2]] + ([acts[3]] + rest)));
  }

  /** A lecturer launches twice, one launch after the other, with room for both: under the
      index the second launch is refused, without it the lecturer has two sessions. */
  lemma StaffLaunchTwice(rules: Rules, number: nat)
    requires rules.cap >= 2
    ensures var acts := WholeLaunch(0, Staff(number), 0) + WholeLaunch(1, Staff(number), 1);
            && Run(rules, OPENING, acts)
            && After(rules, OPENING, acts).launches.Keys == {0, 1}
            && After(rules, OPENING, acts).launches[0].pc == Inserted(0)
            && After(rules, OPENING, acts).launches[1].pc
               == (if rules.indexed then Refused(IndexViolation) else Inserted(1))
            && |ActiveRowsOf(After(rules, OPENING, acts).rows, Staff(number))| == (if rules.indexed then 1 else 2)
  {
    var user := Staff(number);
    var one := Desk(map[0 := NewRow(user, 1, 0)], map[0 := Launch(user, Inserted(0))]);
    var counted := one.(launches := one.launches[1 := Launch(user, CapacityChecked)]);
    var two := Step(rules, counted, Commit(1, 1, true, 1, 0));
    assert ActiveRows(map[]) == {} && ActiveRowsOf(map[], user) == {};
    assert ActiveRows(one.rows) == {0} && ActiveRowsOf(counted.rows, user) == {0};
    StaffRefusedIff(rules, counted, Commit(1, 1, true, 1, 0));
    StaffLaunchRuns(rules, one, 1, user, 1, [], two);
    assert WholeLaunch(1, user, 1) + [] == WholeLaunch(1, user, 1);
    assert Step(rules, OPENING.(launches := map[0 := Launch(user, CapacityChecked)]), Commit(0, 0, true, 1, 0)) == one;
    StaffLaunchRuns(rules, OPENING, 0, user, 0, WholeLaunch(1, user, 1), two);
  }

  ghost predicate TwoSessions(desk: Desk, user: User) {
    |ActiveRowsOf(desk.rows, user)| >= 2
  }

  /** Lecturers can have several sessions exactly when the table has no index. */
  lemma StaffHoldTwoIff(rules: Rules, number: nat)
    requires rules.cap >= 2
    ensures (exists acts :: Run(rules, OPENING, acts) && TwoSessions(After(rules, OPENING, acts), Staff(number)))
            <==> !rules.indexed
  {
    var user := Staff(number);
    if rules.indexed {
      forall acts | Run(rules, OPENING, acts)
        ensures !TwoSessions(After(rules, OPENING, acts), user)
      {
        IndexKeepsOneActive(rules, OPENING, acts);
        LookupsAreSafeIff(After(rules, OPENING, acts).rows);
        assert ActiveVmOf(After(rules, OPENING, acts).rows, user) != SeveralRows;
      }
    } else {
      StaffLaunchTwice(rules, number);
      assert TwoSessions(After(rules, OPENING, WholeLaunch(0, user, 0) + WholeLaunch(1, user, 1)), user);
    }
  }

  // ---------- Capacity ----------

  /** Launches between their capacity check and their insert. */
  ghost function InWindow(desk: Desk): set<LaunchId> {
    set l | l in desk.launches && desk.launches[l].pc.CapacityChecked?
  }

  ghost predicate WindowAtMost(rules: Rules, desk: Desk, acts: seq<Action>, k: nat)
    requires Run(rules, desk, acts)
    decreases acts
  {
    |InWindow(desk)| <= k && (acts == [] || WindowAtMost(rules, Step(rules, desk, acts[0]), acts[1..], k))
  }

  ghost function Load(desk: Desk): int {
    |ActiveRows(desk.rows)| + |InWindow(desk)|
  }

  lemma NewRowIsActive(rows: map<SessionId, Row>, id: SessionId, row: Row)
    requires id !in rows && Active(row.state)
    ensures |ActiveRows(rows[id := row])| == |ActiveRows(rows)| + 1
  {
    assert ActiveRows(rows[id := row]) == ActiveRows(rows) + {id};
  }

  lemma LeavesWindow(desk: Desk, desk': Desk, l: LaunchId)
    requires l in desk.launches && desk.launches[l].pc.CapacityChecked?
    requires l in desk'.launches && desk'.launches == desk.launches[l := desk'.launches[l]]
             && !desk'.launches[l].pc.CapacityChecked?
    ensures |InWindow(desk')| == |InWindow(desk)| - 1
  {
    assert InWindow(desk') == InWindow(desk) - {l};
  }

  /** A launch leaving the window takes its place among the active rows, at most. */
  lemma CommitKeepsLoad(rules: Rules, desk: Desk, a: Action)
    requires a.Commit? && Enabled(desk, a)
    ensures Load(Step(rules, desk, a)) <= Load(desk)
  {
    LeavesWindow(desk, Step(rules, desk, a), a.launch);
    NewRowIsActive(desk.rows, a.session, NewRow(desk.launches[a.launch].user, a.maxExtensions, a.now));
  }

  lemma MoveKeepsLoad(rules: Rules, desk: Desk, a: Action)
    requires a.Move? && Enabled(desk, a) && NoReentry(desk, a)
    ensures Load(Step(rules, desk, a)) <= Load(desk)
  {
    var desk' := Step(rules, desk, a);
    SubsetSize(ActiveRows(desk'.rows), ActiveRows(desk.rows));
    assert InWindow(desk') == InWindow(desk);
  }

  lemma StepKeepsLoad(rules: Rules, desk: Desk, a: Action, k: nat)
    requires Enabled(desk, a) && NoReentry(desk, a) && Load(desk) <= rules.cap + k - 1
    requires |InWindow(Step(rules, desk, a))| <= k
    ensures Load(Step(rules, desk, a)) <= rules.cap + k - 1
  {
    var desk' := Step(rules, desk, a);
    match a
    case Request(l, _) => assert InWindow(desk') == InWindow(desk);
    case CheckUser(l, _) => assert InWindow(desk') == InWindow(desk);
    case CheckCapacity(l) =>
      if RefuseCapacity(desk.rows, rules.cap).Some? {
        assert InWindow(desk') == InWindow(desk);
      }
    case Commit(l, id, _, _, _) => CommitKeepsLoad(rules, desk, a);
    case Move(id, row) => MoveKeepsLoad(rules, desk, a);
  }

  /** With at most `k` launches in the window, active sessions never exceed the cap by
      more than `k - 1`; serialized launches, `k == 1`, never exceed it. */
  lemma {:induction false} CapacityHolds(rules: Rules, desk: Desk, acts: seq<Action>, k: nat)
    requires Run(rules, desk, acts) && NeverReenters(rules, desk, acts) && WindowAtMost(rules, desk, acts, k)
    requires Load(desk) <= rules.cap + k - 1
    ensures |ActiveRows(After(rules, desk, acts).rows)| <= rules.cap + k - 1
    decreases acts
  {
    if acts == [] {
    } else {
      StepKeepsLoad(rules, desk, acts[0], k);
      CapacityHolds(rules, Step(rules, desk, acts[0]), acts[1..], k);
    }
  }

  /** From an empty table. */
  lemma CapacityHoldsFromOpening(rules: Rules, acts: seq<Action>, k: nat)
    requires rules.cap >= 0 && k >= 1
    requires Run(rules, OPENING, acts) && NeverReenters(rules, OPENING, acts) && WindowAtMost(rules, OPENING, acts, k)
    ensures |ActiveRows(After(rules, OPENING, acts).rows)| <= rules.cap + k - 1
  {
    assert ActiveRows(OPENING.rows) == {} && InWindow(OPENING) == {};
    CapacityHolds(rules, OPENING, acts, k);
  }

  // ---------- The capacity bound is attained ----------

  /** A run without re-entry and with at most `k` launches in the window. */
  ghost predicate Allowed(rules: Rules, desk: Desk, acts: seq<Action>, k: nat) {
    Run(rules, desk, acts) && NeverReenters(rules, desk, acts) && WindowAtMost(rules, desk, acts, k)
  }

  lemma {:induction false} AllowedBoth(rules: Rules, desk: Desk, a: seq<Action>, b: seq<Action>, k: nat)
    requires Allowed(rules, desk, a, k) && Allowed(rules, After(rules, desk, a), b, k)
    ensures Allowed(rules, desk, a + b, k) && After(rules, desk, a + b) == After(rules, After(rules, desk, a), b)
    decreases a
  {
    if a == [] {
      assert a + b == b;
    } else {
      assert (a + b)[1..] == a[1..] + b;
      AllowedBoth(rules, Step(rules, desk, a[0]), a[1..], b, k);
    }
  }

  lemma AllowedStep(rules: Rules, desk: Desk, a: Action, k: nat)
    requires Enabled(desk, a) && !a.Move? && |InWindow(desk)| <= k && |InWindow(Step(rules, desk, a))| <= k
    ensures Allowed(rules, desk, [a], k) && After(rules, desk, [a]) == Step(rules, desk, a)
  {
    assert [a][1..] == [] && Allowed(rules, Step(rules, desk, a), [], k);
    assert After(rules, Step(rules, desk, a), []) == Step(rules, desk, a);
  }

  /** Launches 0 to `done` of as many students have inserted their rows, and `waiting` more
      have passed all checks. */
  ghost predicate Stage(desk: Desk, done: nat, waiting: nat) {
    && (forall id: SessionId :: id in desk.rows <==> id < done)
    && (forall id :: id in desk.rows ==> desk.rows[id].user == Student(id) && Active(desk.rows[id].state))
    && (forall l: LaunchId :: l in desk.launches <==> l < done + waiting)
    && (forall l :: l in desk.launches ==> desk.launches[l].user == Student(l))
    && (forall l :: l in desk.launches ==>
          if l < done then desk.launches[l].pc.Inserted? else desk.launches[l].pc.CapacityChecked?)
  }

  lemma {:induction false} RangeSize(s: set<nat>, from: nat, to: nat)
    requires from <= to && forall x :: x in s <==> from <= x < to
    ensures |s| == to - from
    decreases s
  {
    if from == to {
      assert s == {};
    } else {
      RangeSize(s - {from}, from + 1, to);
    }
  }

  lemma StageCounts(desk: Desk, done: nat, waiting: nat)
    requires Stage(desk, done, waiting)
    ensures |ActiveRows(desk.rows)| == done && |InWindow(desk)| == waiting
  {
    RangeSize(ActiveRows(desk.rows), 0, done);
    RangeSize(InWindow(desk), done, done + waiting);
  }

  lemma WindowWith(desk: Desk, l: LaunchId, user: User, pc: LaunchPc)
    requires l !in desk.launches
    ensures |InWindow(With(desk, l, user, pc))| == |InWindow(desk)| + if pc.CapacityChecked? then 1 else 0
  {
    assert InWindow(With(desk, l, user, pc)) == InWindow(desk) + if pc.CapacityChecked? then {l} else {};
  }

  /** The same as a run. */
  lemma ChecksPass(rules: Rules, desk: Desk, l: LaunchId, user: User, k: nat) returns (acts: seq<Action>)
    requires l !in desk.launches && ActiveRowsOf(desk.rows, user) == {} && |ActiveRows(desk.rows)| < rules.cap
    requires |InWindow(desk)| < k
    ensures Allowed(rules, desk, acts, k) && After(rules, desk, acts) == With(desk, l, user, CapacityChecked)
  {
    var (ask, once, room) := (Request(l, user), CheckUser(l, false), CheckCapacity(l));
    ChecksAdvance(rules, desk, l, user, false);
    WindowWith(desk, l, user, Requested);
    WindowWith(desk, l, user, UserChecked);
    WindowWith(desk, l, user, CapacityChecked);
    AllowedStep(rules, desk, ask, k);
    AllowedStep(rules, With(desk, l, user, Requested), once, k);
    AllowedStep(rules, With(desk, l, user, UserChecked), room, k);
    AllowedBoth(rules, With(desk, l, user, Requested), [once], [room], k);
    AllowedBoth(rules, desk, [ask], [once] + [room], k);
    acts := [ask] + ([once] + [room]);
  }

  /** While there is room, one more student passes all checks. */
  lemma Admit(rules: Rules, desk: Desk, done: nat, waiting: nat, k: nat) returns (acts: seq<Action>)
    requires Stage(desk, done, waiting) && done < rules.cap && waiting < k
    ensures Allowed(rules, desk, acts, k) && Stage(After(rules, desk, acts), done, waiting + 1)
  {
    StageCounts(desk, done, waiting);
    assert ActiveRowsOf(desk.rows, Student(done + waiting)) == {};
    acts := ChecksPass(rules, desk, done + waiting, Student(done + waiting), k);
  }

  /** Whether there is room or not, the next student who has passed them inserts a row. */
  lemma InsertNext(rules: Rules, desk: Desk, done: nat, waiting: nat, k: nat) returns (acts: seq<Action>)
    requires Stage(desk, done, waiting) && 0 < waiting <= k
    ensures Allowed(rules, desk, acts, k) && Stage(After(rules, desk, acts), done + 1, waiting - 1)
  {
    var a := Commit(done, done, true, 1, 0);
    StageCounts(desk, done, waiting);
    StageInserts(rules, desk, done, waiting);
    StageCounts(Step(rules, desk, a), done + 1, waiting - 1);
    AllowedStep(rules, desk, a, k);
    acts := [a];
  }

  lemma StageInserts(rules: Rules, desk: Desk, done: nat, waiting: nat)
    requires Stage(desk, done, waiting) && 0 < waiting
    ensures Enabled(desk, Commit(done, done, true, 1, 0))
    ensures Stage(Step(rules, desk, Commit(done, done, true, 1, 0)), done + 1, waiting - 1)
  {
    assert ActiveRowsOf(desk.rows, Student(done)) == {};
    assert Step(rules, desk, Commit(done, done, true, 1, 0)) ==
           Desk(desk.rows[done := NewRow(Student(done), 1, 0)],
                desk.launches[done := Launch(Student(done), Inserted(done))]);
  }

  /** For every cap and every `k` the bound is attained, index or not: all students but the
      last `k` launch one after the other, those `k` all pass their checks while there is
      room for one, and then all insert. */
  lemma CapacityIsAttained(rules: Rules, k: nat) returns (acts: seq<Action>)
    requires rules.cap >= 1 && k >= 1
    ensures Allowed(rules, OPENING, acts, k)
    ensures |ActiveRows(After(rules, OPENING, acts).rows)| == rules.cap + k - 1
  {
    acts := [];
    assert InWindow(OPENING) == {} && Stage(OPENING, 0, 0);
    assert Allowed(rules, OPENING, [], k) && After(rules, OPENING, []) == OPENING;
    for i := 0 to rules.cap - 1
      invariant Allowed(rules, OPENING, acts, k) && Stage(After(rules, OPENING, acts), i, 0)
    {
      var admit := Admit(rules, After(rules, OPENING, acts), i, 0, k);
      AllowedBoth(rules, OPENING, acts, admit, k);
      var insert := InsertNext(rules, After(rules, OPENING, acts + admit), i, 1, k);
      AllowedBoth(rules, OPENING, acts + admit, insert, k);
      acts := acts + admit + insert;
    }
    for w := 0 to k
      invariant Allowed(rules, OPENING, acts, k) && Stage(After(rules, OPENING, acts), rules.cap - 1, w)
    {
      var admit := Admit(rules, After(rules, OPENING, acts), rules.cap - 1, w, k);
      AllowedBoth(rules, OPENING, acts, admit, k);
      acts := acts + admit;
    }
    for i := 0 to k
      invariant Allowed(rules, OPENING, acts, k) && Stage(After(rules, OPENING, acts), rules.cap - 1 + i, k - i)
    {
      var insert := InsertNext(rules, After(rules, OPENING, acts), rules.cap - 1 + i, k - i, k);
      AllowedBoth(rules, OPENING, acts, insert, k);
      acts := acts + insert;
    }
    StageCounts(After(rules, OPENING, acts), rules.cap + k - 1, 0);
  }
}
