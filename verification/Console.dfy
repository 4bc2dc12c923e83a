/** Console access: a token names the running row that carries it, and that row's port
    is what the connection is relayed to. */
module Console {
  import opened Types
  import opened Interleaving
  import opened ResourceLedger

  /** `Ambiguous` is the exception raised when the query finds more than one row. */
  datatype Resolution = Closed | Relay(port: int) | Ambiguous

  ghost function Matches(rows: map<SessionId, Row>, token: Token): set<SessionId> {
    set id | id in rows && rows[id].token == Some(token) && rows[id].state.Running?
  }

  ghost function Resolve(rows: map<SessionId, Row>, token: Token): Resolution {
    var matches := Matches(rows, token);
    if matches == {} then Closed
    else if |matches| > 1 then Ambiguous
    else
      var id :| id in matches;
      if rows[id].port.None? then Closed else Relay(rows[id].port.value)
  }

  /** For any rows at all: a token is relayed to a port exactly when one running row carries it
      and has that port, and is an error exactly when two running rows carry it. */
  lemma ResolveAnswers(rows: map<SessionId, Row>, token: Token, p: int)
    ensures Resolve(rows, token) == Relay(p) <==>
            exists id ::
              && id in rows && Carries(rows[id], token) && rows[id].port == Some(p)
              && forall x :: x in rows && Carries(rows[x], token) ==> x == id
    ensures Resolve(rows, token) == Ambiguous <==>
            exists id, id' ::
              id in rows && id' in rows && id != id' && Carries(rows[id], token) && Carries(rows[id'], token)
  {
    var matches := Matches(rows, token);
    assert forall id :: id in matches <==> id in rows && Carries(rows[id], token);
    if matches != {} {
      var id :| id in matches;
      if matches == {id} {
        assert forall x :: x in rows && Carries(rows[x], token) ==> x in matches;
      } else {
        var id' :| id' in matches && id' != id;
        SubsetSize({id, id'}, matches);
      }
    }
  }

  /** The row is running and was given this token. */
  predicate Carries(row: Row, token: Token) {
    row.state == Running && row.token == Some(token)
  }

  /** The token of a running row resolves to that row's port. */
  lemma RunningTokenResolves(sys: System, id: SessionId, token: Token)
    requires Good(sys) && id in Matches(sys.store.rows, token)
    ensures Resolve(sys.store.rows, token) == Relay(PortOf(sys, id).value)
    ensures PortOf(sys, id).Some? && Holds(sys, Live(id), PortOf(sys, id).value)
  {
    GoodEverywhere(sys, id);
    HeldPortHasOwner(sys, id, PortOf(sys, id).value);
    var matches := Matches(sys.store.rows, token);
    assert forall x :: x in matches ==> x == id;
    assert matches == {id};
  }

  /** The token in the console URL shown to users: only running sessions have one. */
  function ShownToken(row: Row): Option<Token> {
    if row.state.Running? then row.token else None
  }

  /** A console URL is shown exactly for the sessions that run, and leads to the session's own
      port, and to a domain that is on. */
  lemma ShownTokensWork(sys: System, id: SessionId)
    requires Good(sys) && id in sys.store.rows
    ensures var (row, shown) := (sys.store.rows[id], ShownToken(sys.store.rows[id]));
            && (shown.Some? <==> row.state.Running?)
            && (shown.Some? ==>
                  && row.port.Some? && Resolve(sys.store.rows, shown.value) == Relay(row.port.value)
                  && Knpodly(id) in sys.store.domains && sys.store.domains[Knpodly(id)] == On)
  {
    GoodEverywhere(sys, id);
    if ShownToken(sys.store.rows[id]).Some? {
      RunningTokenResolves(sys, id, ShownToken(sys.store.rows[id]).value);
    }
  }

  /** In every disciplined run a token never matches two rows, what it relays to is the
      port only its session owns, and two tokens never lead to one port. */
  lemma TokensResolveToOwnPorts(acts: seq<Action>)
    requires DisciplinedRun(EMPTY, acts)
    ensures Run(EMPTY, acts)
    ensures var sys := After(EMPTY, acts);
            && (forall t :: Resolve(sys.store.rows, t) != Ambiguous)
            && (forall t, p :: Resolve(sys.store.rows, t) == Relay(p) ==>
                  exists id :: id in Matches(sys.store.rows, t) && Holds(sys, Live(id), p))
            && (forall t, t', p :: Resolve(sys.store.rows, t) == Relay(p) && Resolve(sys.store.rows, t') == Relay(p) ==>
                  t == t')
  {
    EmptyIsGood();
    DisciplinedRunsAreGood(EMPTY, acts);
    var sys := After(EMPTY, acts);
    forall t
      ensures Resolve(sys.store.rows, t) != Ambiguous
      ensures Resolve(sys.store.rows, t).Relay? ==>
        exists id :: id in Matches(sys.store.rows, t) && Holds(sys, Live(id), Resolve(sys.store.rows, t).port)
    {
      if Matches(sys.store.rows, t) != {} {
        var id :| id in Matches(sys.store.rows, t);
        RunningTokenResolves(sys, id, t);
      }
    }
    GoodPortsAreExclusive(sys);
    forall t, t', p | Resolve(sys.store.rows, t) == Relay(p) && Resolve(sys.store.rows, t') == Relay(p)
      ensures t == t'
    {
      var id :| id in Matches(sys.store.rows, t) && Holds(sys, Live(id), p);
      var id' :| id' in Matches(sys.store.rows, t') && Holds(sys, Live(id'), p);
      assert Live(id) == Live(id');
    }
  }

  /** Row `id` carries the token and is no longer running. */
  ghost predicate HasLeft(sys: System, id: SessionId, token: Token) {
    id in sys.store.rows && sys.store.rows[id].token == Some(token) && !sys.store.rows[id].state.Running?
  }

  lemma StepKeepsLeft(sys: System, a: Action, id: SessionId, token: Token)
    requires Good(sys) && Enabled(sys, a) && Disciplined(sys, a) && HasLeft(sys, id, token)
    ensures HasLeft(Step(sys, a), id, token)
  {
    StepIsChange(sys, a);
    RowsKept(sys, Step(sys, a), Subject(a));
    if Subject(a) == id {
      GoodEverywhere(sys, id);
      LeftRowStaysLeft(sys, a, id, token);
    }
  }

  lemma LeftRowStaysLeft(sys: System, a: Action, id: SessionId, token: Token)
    requires GoodAt(sys, id) && Enabled(sys, a) && Disciplined(sys, a) && HasLeft(sys, id, token) && Subject(a) == id
    ensures HasLeft(Step(sys, a), id, token)
  {
    assert ProvisionOf(sys, id).Some? && ProvisionOf(sys, id).value.Up?;
    match a
    case Insert(_, _, _, _) =>
    case Retime(_, _, _, _, _) =>
    case BeginProvision(j) =>
    case StepProvision(j, o) => assert sys.provisions[j].Up?;
    case BeginStop(j, _, _) =>
    case StepStop(j, now) => assert StopOf(sys, id) == Some(sys.stops[j]);
  }

  /** Once a session has left `running`, its token never resolves again. */
  lemma {:induction false} LeftTokensStayClosed(sys: System, acts: seq<Action>, id: SessionId, token: Token)
    requires Good(sys) && DisciplinedRun(sys, acts) && HasLeft(sys, id, token)
    ensures Run(sys, acts) && Resolve(After(sys, acts).store.rows, token) == Closed
    decreases acts
  {
    DisciplinedRunIsRun(sys, acts);
    if acts == [] {
      assert forall x :: x in sys.store.rows && sys.store.rows[x].token == Some(token) ==> x == id;
      assert Matches(sys.store.rows, token) == {};
    } else {
      StepKeepsGood(sys, acts[0]);
      StepKeepsLeft(sys, acts[0], id, token);
      LeftTokensStayClosed(Step(sys, acts[0]), acts[1..], id, token);
    }
  }
}
