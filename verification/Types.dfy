/** The rows, states and policy values shared by every component of the lab
    platform: one `Row` per `vm_sessions` record, one `Policy` per active
    `vm_limit_policies` record.  Times are integers counting milliseconds. */
module Types {

  datatype Option<+T> = None | Some(value: T)

  const SECOND: int := 1_000
  const MINUTE: int := 60_000

  type SessionId = nat
  type Token = nat

  /** A user's role is part of the user, since only its being a student matters here. */
  datatype User = Student(number: nat) | Staff(number: nat)

  datatype VMState = Queued | Provisioning | Running | Stopping | Stopped | Expired | Failed | Destroyed

  /** The states counted against a user's and the lab's limits. */
  predicate Active(state: VMState) {
    state.Queued? || state.Provisioning? || state.Running? || state.Stopping?
  }

  datatype StopReason = UserStop | SessionExpired | IdleTimeout | ForceStop | Error

  /** `knpodly-<id>` and `<id>.qcow2`: both names determine the session. */
  datatype DomainName = Knpodly(session: SessionId)
  datatype OverlayPath = Qcow2(session: SessionId)

  datatype DomainState = On | ShutOff

  datatype Row = Row(
    user: User,
    state: VMState,
    domain: Option<DomainName>,
    overlay: Option<OverlayPath>,
    port: Option<int>,
    token: Option<Token>,
    startedAt: Option<int>,
    expiresAt: Option<int>,
    extensionCount: int,
    maxExtensions: int,
    lastActivityAt: Option<int>,
    idleWarningAt: Option<int>,
    stoppedAt: Option<int>,
    stopReason: Option<StopReason>,
    createdAt: int)

  /** The row inserted by a launch: queued, with every later column still null. */
  function NewRow(user: User, maxExtensions: int, now: int): Row {
    Row(user, Queued, None, None, None, None, None, None, 0, maxExtensions, None, None, None, None, now)
  }

  datatype Policy = Policy(
    sessionMinutes: int,
    extensionMinutes: int,
    maxExtensions: int,
    idleWarningMinutes: int,
    idleTimeoutMinutes: int,
    maxConcurrent: int)

  datatype EventKind =
    | VmRunning | VmFailed | VmStopped
    | VmExpired | ExpiryWarning | VmIdleTimeout | IdleWarning

  datatype Event = Event(kind: EventKind, session: SessionId)

  /** The rows answered by a query, in whatever order. */
  predicate Distinct(order: seq<SessionId>) {
    forall i, j :: 0 <= i < j < |order| ==> order[i] != order[j]
  }

  function Ids(order: seq<SessionId>): set<SessionId> {
    set id | id in order
  }

  lemma {:induction false} SubsetSize<T>(a: set<T>, b: set<T>)
    requires a <= b
    ensures |a| <= |b|
    ensures a != b ==> |a| < |b|
    decreases a
  {
    if a == {} {
      assert b != {} ==> |b| > 0;
    } else {
      var x :| x in a;
      assert a != b ==> a - {x} != b - {x} by {
        if a != b {
          var y :| y in b && y !in a;
          assert y in b - {x} && y !in a - {x};
        }
      }
      SubsetSize(a - {x}, b - {x});
    }
  }
}
