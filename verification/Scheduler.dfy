/** The periodic sweep over the running sessions: expiry, expiry warning, idle timeout
    and idle warning, and the loop that keeps sweeping when a sweep raises. */
module Scheduler {
  import opened Types
  import opened VmLifecycle

  /** The policy in force and the `session_expiry_warning_minutes` setting. */
  datatype Settings = Settings(policy: Policy, expiryWarningMinutes: int)

  datatype World = World(store: Store, events: seq<Event>)

  // ---------- What a sweep does to one running row ----------

  function LastActivity(row: Row): int {
    if row.lastActivityAt.Some? then row.lastActivityAt.value
    else if row.startedAt.Some? then row.startedAt.value
    else row.createdAt
  }

  predicate PastExpiry(row: Row, now: int) {
    row.expiresAt.Some? && now >= row.expiresAt.value
  }

  predicate IdleFor(row: Row, minutes: int, now: int) {
    now - LastActivity(row) >= minutes * MINUTE
  }

  predicate WarnsOfExpiry(row: Row, cfg: Settings, now: int) {
    row.expiresAt.Some? && now >= row.expiresAt.value - cfg.expiryWarningMinutes * MINUTE && row.idleWarningAt.None?
  }

  predicate WarnsOfIdleness(row: Row, cfg: Settings, now: int) {
    IdleFor(row, cfg.policy.idleWarningMinutes, now) && row.idleWarningAt.None?
  }

  /** The reason for which the sweep stops the row, if it does. */
  function StopsFor(row: Row, cfg: Settings, now: int): Option<StopReason> {
    if PastExpiry(row, now) then Some(SessionExpired)
    else if IdleFor(row, cfg.policy.idleTimeoutMinutes, now) then Some(IdleTimeout)
    else None
  }

  function SweptRow(row: Row, cfg: Settings, now: int): Row {
    match StopsFor(row, cfg, now)
    case Some(reason) => StoppedRow(row, reason, now)
    case None => if WarnsOfIdleness(row, cfg, now) then row.(idleWarningAt := Some(now)) else row
  }

  /** What is published before the row is stopped, if it is stopped. */
  function EarlyEvents(id: SessionId, row: Row, cfg: Settings, now: int): seq<Event> {
    if !PastExpiry(row, now) && WarnsOfExpiry(row, cfg, now) then [Event(ExpiryWarning, id)] else []
  }

  function LateEvents(id: SessionId, row: Row, cfg: Settings, now: int): seq<Event> {
    match StopsFor(row, cfg, now)
    case Some(reason) => [Event(if reason == SessionExpired then VmExpired else VmIdleTimeout, id)]
    case None => if WarnsOfIdleness(row, cfg, now) then [Event(IdleWarning, id)] else []
  }

  function SweptEvents(id: SessionId, row: Row, cfg: Settings, now: int): seq<Event> {
    EarlyEvents(id, row, cfg, now) + LateEvents(id, row, cfg, now)
  }

  // ---------- The sweep in row order ----------

  function SweepOne(w: World, id: SessionId, cfg: Settings, now: int, fault: StopFault): (r: (World, bool))
    requires id in w.store.rows
    ensures r.0.store.rows.Keys == w.store.rows.Keys
  {
    var row := w.store.rows[id];
    var early := w.events + EarlyEvents(id, row, cfg, now);
    match StopsFor(row, cfg, now)
    case Some(reason) =>
      var s := StopSession(w.store, id, reason, now, fault);
      if fault != NoFault then (World(s, early), false)
      else (World(s, early + LateEvents(id, row, cfg, now)), true)
    case None =>
      (World(w.store.(rows := w.store.rows[id := SweptRow(row, cfg, now)]), early + LateEvents(id, row, cfg, now)),
       true)
  }

  /** A sweep that meets the rows in this order; the flag says whether it got to the end. */
  function SweepAll(w: World, order: seq<SessionId>, cfg: Settings, now: int, faults: Faults): (r: (World, bool))
    requires forall id :: id in order ==> id in w.store.rows
    ensures r.0.store.rows.Keys == w.store.rows.Keys
    decreases order
  {
    if order == [] then (w, true)
    else
      var (w1, ok) := SweepOne(w, order[0], cfg, now, FaultFor(faults, order[0]));
      if ok then SweepAll(w1, order[1..], cfg, now, faults) else (w1, false)
  }

  function RunningIds(rows: map<SessionId, Row>): set<SessionId> {
    set id | id in rows && rows[id].state.Running?
  }

  predicate AllRunning(order: seq<SessionId>, rows: map<SessionId, Row>) {
    forall id :: id in order ==> id in rows && rows[id].state.Running?
  }

  /** `order` is an answer to the query for the running rows. */
  ghost predicate Answers(order: seq<SessionId>, rows: map<SessionId, Row>) {
    Distinct(order) && forall id :: id in order <==> id in RunningIds(rows)
  }

  method QueryRunning(lab: Lab) returns (order: seq<SessionId>)
    ensures Answers(order, lab.rows)
  {
    var todo := RunningIds(lab.rows);
    order := [];
    while todo != {}
      invariant Distinct(order) && (forall id :: id in order ==> id !in todo)
      invariant forall id :: id in order || id in todo <==> id in RunningIds(lab.rows)
    {
      var id :| id in todo;
      order := order + [id];
      todo := todo - {id};
    }
  }

  /** `ok` is false when a teardown raised and the sweep was abandoned. */
  method CheckExpiredAndIdleSessions(lab: Lab, order: seq<SessionId>, cfg: Settings, now: int, faults: Faults)
    returns (ok: bool)
    requires Answers(order, lab.rows)
    modifies lab, lab.redis, lab.disk, lab.libvirt
    ensures var (w, done) := SweepAll(old(World(lab.View(), lab.events)), order, cfg, now, faults);
            World(lab.View(), lab.events) == w && ok == done
  {
    ghost var all := SweepAll(World(lab.View(), lab.events), order, cfg, now, faults);
    for i := 0 to |order|
      invariant (forall id :: id in order ==> id in lab.rows)
      invariant SweepAll(World(lab.View(), lab.events), order[i..], cfg, now, faults) == all
    {
      var id := order[i];
      assert order[i..][1..] == order[i + 1..];
      ok := SweepSession(lab, id, cfg, now, FaultFor(faults, id));
      if !ok {
        return;
      }
    }
    ok := true;
  }

  /** Stops a session and, if nothing raised, publishes why. */
  method StopAndPublish(lab: Lab, id: SessionId, reason: StopReason, kind: EventKind, now: int, fault: StopFault)
    returns (ok: bool)
    requires id in lab.rows
    modifies lab, lab.redis, lab.disk, lab.libvirt
    ensures ok == (fault == NoFault)
    ensures lab.View() == StopSession(old(lab.View()), id, reason, now, fault)
    ensures lab.events == old(lab.events) + if ok then [Event(kind, id)] else []
  {
    ok := lab.StopVm(id, reason, false, now, fault);
    if ok {
      lab.events := lab.events + [Event(kind, id)];
    }
  }

  /** The body of the loop. */
  method SweepSession(lab: Lab, id: SessionId, cfg: Settings, now: int, fault: StopFault) returns (ok: bool)
    requires id in lab.rows
    modifies lab, lab.redis, lab.disk, lab.libvirt
    ensures var (w, done) := SweepOne(old(World(lab.View(), lab.events)), id, cfg, now, fault);
            World(lab.View(), lab.events) == w && ok == done
  {
    var session := lab.rows[id];
    if session.expiresAt.Some? && now >= session.expiresAt.value {
      ok := StopAndPublish(lab, id, SessionExpired, VmExpired, now, fault);
      return;
    }
    if session.expiresAt.Some? {
      var warnAt := session.expiresAt.value - cfg.expiryWarningMinutes * MINUTE;
      if now >= warnAt && session.idleWarningAt.None? {
        lab.events := lab.events + [Event(ExpiryWarning, id)];
      }
    }
    assert lab.events == old(lab.events) + EarlyEvents(id, session, cfg, now);
    ok := SweepIdle(lab, id, cfg, now, fault);
  }

  /** The idle part of the loop body, for a row that has not expired. */
  method SweepIdle(lab: Lab, id: SessionId, cfg: Settings, now: int, fault: StopFault) returns (ok: bool)
    requires id in lab.rows && !PastExpiry(lab.rows[id], now)
    modifies lab, lab.redis, lab.disk, lab.libvirt
    ensures ok == (fault == NoFault || !Stops(old(lab.rows[id]), cfg, now))
    ensures lab.events == old(lab.events) + if ok then LateEvents(id, old(lab.rows[id]), cfg, now) else []
    ensures Stops(old(lab.rows[id]), cfg, now) ==>
      lab.View() == StopSession(old(lab.View()), id, IdleTimeout, now, fault)
    ensures !Stops(old(lab.rows[id]), cfg, now) ==>
      lab.View() == old(lab.View()).(rows := old(lab.rows)[id := SweptRow(old(lab.rows[id]), cfg, now)])
  {
    var session := lab.rows[id];
    var idleFor := now - LastActivity(session);
    if idleFor >= cfg.policy.idleTimeoutMinutes * MINUTE {
      ok := StopAndPublish(lab, id, IdleTimeout, VmIdleTimeout, now, fault);
      return;
    }
    if idleFor >= cfg.policy.idleWarningMinutes * MINUTE && session.idleWarningAt.None? {
      lab.rows := lab.rows[id := session.(idleWarningAt := Some(now))];
      lab.events := lab.events + [Event(IdleWarning, id)];
    }
    ok := true;
  }

  // ---------- The per-row specification ----------

  predicate Stops(row: Row, cfg: Settings, now: int) {
    StopsFor(row, cfg, now).Some?
  }

  function SweptRows(rows: map<SessionId, Row>, swept: set<SessionId>, cfg: Settings, now: int): map<SessionId, Row> {
    map id | id in rows :: if id in swept then SweptRow(rows[id], cfg, now) else rows[id]
  }

  function StoppedPorts(rows: map<SessionId, Row>, swept: set<SessionId>, cfg: Settings, now: int): set<int> {
    set id | id in swept && id in rows && Stops(rows[id], cfg, now) && rows[id].port.Some? :: rows[id].port.value
  }

  function StoppedOverlays(rows: map<SessionId, Row>, swept: set<SessionId>, cfg: Settings,
                           now: int): set<OverlayPath> {
    set id | id in swept && id in rows && Stops(rows[id], cfg, now) && rows[id].overlay.Some? :: rows[id].overlay.value
  }

  function StoppedDomains(rows: map<SessionId, Row>, swept: set<SessionId>, cfg: Settings, now: int): set<DomainName> {
    set id | id in swept && id in rows && Stops(rows[id], cfg, now) && rows[id].domain.Some? :: rows[id].domain.value
  }

  /** The store after a sweep of these rows, whatever the order. */
  function SweptStore(s: Store, swept: set<SessionId>, cfg: Settings, now: int): Store {
    Store(SweptRows(s.rows, swept, cfg, now),
          s.ports - StoppedPorts(s.rows, swept, cfg, now),
          s.overlays - StoppedOverlays(s.rows, swept, cfg, now),
          s.domains - StoppedDomains(s.rows, swept, cfg, now))
  }

  /** How often the sweep publishes an event: once if its row calls for it. */
  function Published(rows: map<SessionId, Row>, swept: set<SessionId>, cfg: Settings, now: int, e: Event): nat {
    if e.session in swept && e.session in rows && e in SweptEvents(e.session, rows[e.session], cfg, now) then 1 else 0
  }

  lemma SweepOneWithoutFault(w: World, id: SessionId, cfg: Settings, now: int)
    requires id in w.store.rows
    ensures SweepOne(w, id, cfg, now, NoFault) ==
            (World(SweptStore(w.store, {id}, cfg, now), w.events + SweptEvents(id, w.store.rows[id], cfg, now)), true)
  {
    var row := w.store.rows[id];
    var s := SweptStore(w.store, {id}, cfg, now);
    var s' := SweepOne(w, id, cfg, now, NoFault).0.store;
    assert s.rows == w.store.rows[id := SweptRow(row, cfg, now)];
    assert StoppedPorts(w.store.rows, {id}, cfg, now) == (if Stops(row, cfg, now) then Freed(row.port) else {});
    assert StoppedOverlays(w.store.rows, {id}, cfg, now) == (if Stops(row, cfg, now) then Freed(row.overlay) else {});
    assert StoppedDomains(w.store.rows, {id}, cfg, now) == (if Stops(row, cfg, now) then Freed(row.domain) else {});
    assert s'.rows == s.rows && s'.ports == s.ports && s'.overlays == s.overlays && s'.domains == s.domains;
    var (early, late) := (EarlyEvents(id, row, cfg, now), LateEvents(id, row, cfg, now));
    assert w.events + (early + late) == w.events + early + late;
  }

  /** Sweeping one row and then others that are not it. */
  lemma SweptStoreSplits(s: Store, id: SessionId, rest: set<SessionId>, cfg: Settings, now: int)
    requires id in s.rows && id !in rest
    ensures SweptStore(SweptStore(s, {id}, cfg, now), rest, cfg, now) == SweptStore(s, {id} + rest, cfg, now)
    ensures forall x :: x in rest && x in s.rows ==>
              x in SweptStore(s, {id}, cfg, now).rows && SweptStore(s, {id}, cfg, now).rows[x] == s.rows[x]
  {
    var s1 := SweptStore(s, {id}, cfg, now);
    assert forall x :: x in rest && x in s.rows ==> s1.rows[x] == s.rows[x];
    assert StoppedPorts(s.rows, {id} + rest, cfg, now)
      == StoppedPorts(s.rows, {id}, cfg, now) + StoppedPorts(s1.rows, rest, cfg, now);
    assert StoppedOverlays(s.rows, {id} + rest, cfg, now)
      == StoppedOverlays(s.rows, {id}, cfg, now) + StoppedOverlays(s1.rows, rest, cfg, now);
    assert StoppedDomains(s.rows, {id} + rest, cfg, now)
      == StoppedDomains(s.rows, {id}, cfg, now) + StoppedDomains(s1.rows, rest, cfg, now);
    var (a, b) := (SweptStore(s1, rest, cfg, now), SweptStore(s, {id} + rest, cfg, now));
    assert a.rows == b.rows;
    assert a.ports == b.ports;
    assert a.overlays == b.overlays;
    assert a.domains == b.domains;
  }

  /** The first row of a sweep in which nothing raises, and the rest of it. */
  lemma SweepAllHead(w: World, order: seq<SessionId>, cfg: Settings, now: int) returns (w1: World)
    requires order != [] && Distinct(order) && forall id :: id in order ==> id in w.store.rows
    ensures w1 == World(SweptStore(w.store, {order[0]}, cfg, now),
                        w.events + SweptEvents(order[0], w.store.rows[order[0]], cfg, now))
    ensures w1.store.rows.Keys == w.store.rows.Keys
    ensures SweepAll(w, order, cfg, now, map[]) == SweepAll(w1, order[1..], cfg, now, map[])
    ensures Ids(order) == {order[0]} + Ids(order[1..]) && order[0] !in Ids(order[1..])
  {
    SweepOneWithoutFault(w, order[0], cfg, now);
    w1 := SweepOne(w, order[0], cfg, now, NoFault).0;
  }

  lemma {:induction false} SweepRefinesStore(w: World, order: seq<SessionId>, cfg: Settings, now: int)
    requires Distinct(order) && forall id :: id in order ==> id in w.store.rows
    ensures var (w', ok) := SweepAll(w, order, cfg, now, map[]);
            ok && w'.store == SweptStore(w.store, Ids(order), cfg, now) && w.events <= w'.events
    decreases order
  {
    if order == [] {
      var s := SweptStore(w.store, Ids(order), cfg, now);
      assert s.rows == w.store.rows && s.domains == w.store.domains;
    } else {
      var w1 := SweepAllHead(w, order, cfg, now);
      SweptStoreSplits(w.store, order[0], Ids(order[1..]), cfg, now);
      SweepRefinesStore(w1, order[1..], cfg, now);
    }
  }

  lemma {:induction false} SweepPublishes(w: World, order: seq<SessionId>, cfg: Settings, now: int, e: Event)
    requires Distinct(order) && forall id :: id in order ==> id in w.store.rows
    ensures var w' := SweepAll(w, order, cfg, now, map[]).0;
            && w.events <= w'.events
            && multiset(w'.events[|w.events|..])[e] == Published(w.store.rows, Ids(order), cfg, now, e)
    decreases order
  {
    if order == [] {
      assert w.events[|w.events|..] == [];
    } else {
      var (id, rest) := (order[0], order[1..]);
      var w1 := SweepAllHead(w, order, cfg, now);
      SweepPublishes(w1, rest, cfg, now, e);
      CountAfter(w.events, SweptEvents(id, w.store.rows[id], cfg, now), SweepAll(w1, rest, cfg, now, map[]).0.events,
                 e);
      PublishedSplits(w.store, id, Ids(rest), cfg, now, e);
    }
  }

  lemma CountAfter(start: seq<Event>, mine: seq<Event>, all: seq<Event>, e: Event)
    requires start + mine <= all
    ensures start <= all
    ensures multiset(all[|start|..])[e] == multiset(mine)[e] + multiset(all[|start + mine|..])[e]
  {
    assert all[|start|..] == mine + all[|start + mine|..];
  }

  lemma PublishedSplits(s: Store, id: SessionId, rest: set<SessionId>, cfg: Settings, now: int, e: Event)
    requires id in s.rows && id !in rest
    ensures Published(s.rows, {id} + rest, cfg, now, e) ==
            multiset(SweptEvents(id, s.rows[id], cfg, now))[e]
            + Published(SweptStore(s, {id}, cfg, now).rows, rest, cfg, now, e)
  {
    OneOfEach(id, s.rows[id], cfg, now, e);
    if e.session in rest && e.session in s.rows {
      assert SweptStore(s, {id}, cfg, now).rows[e.session] == s.rows[e.session];
    }
  }

  /** A sweep in which nothing raises has, in any row order, the effect of the per-row
      specification. */
  lemma SweepRefinesRows(w: World, order: seq<SessionId>, cfg: Settings, now: int)
    requires Distinct(order) && forall id :: id in order ==> id in w.store.rows
    ensures var (w', ok) := SweepAll(w, order, cfg, now, map[]);
            && ok
            && w'.store == SweptStore(w.store, Ids(order), cfg, now)
            && w.events <= w'.events
            && (forall e :: multiset(w'.events[|w.events|..])[e] == Published(w.store.rows, Ids(order), cfg, now, e))
  {
    SweepRefinesStore(w, order, cfg, now);
    forall e {
      SweepPublishes(w, order, cfg, now, e);
    }
  }

  /** When the session last showed activity: its last post, or else its start, or else its
      creation. */
  ghost predicate LastSeen(row: Row, at: int) {
    match row.lastActivityAt
    case Some(activity) => at == activity
    case None => (match row.startedAt case Some(start) => at == start case None => at == row.createdAt)
  }

  /** The same, row by row: a running row ends up expired exactly when it is at or past its
      expiry, stopped as idle exactly when it is not but has idled for the timeout, and is
      otherwise at most marked, exactly when it has idled for the warning time and has no
      mark; no other row changes. */
  lemma SweepOutcomes(w: World, order: seq<SessionId>, cfg: Settings, now: int, id: SessionId, seen: int)
    requires Answers(order, w.store.rows) && id in w.store.rows && LastSeen(w.store.rows[id], seen)
    ensures var (row, row') := (w.store.rows[id], SweepAll(w, order, cfg, now, map[]).0.store.rows[id]);
            var over := row.expiresAt.Some? && row.expiresAt.value <= now;
            var idle := now - seen;
            row' ==
            if !row.state.Running? then row
            else if over then row.(state := Expired, stoppedAt := Some(now), stopReason := Some(SessionExpired))
            else if idle >= cfg.policy.idleTimeoutMinutes * 60_000 then
              row.(state := VMState.Stopped, stoppedAt := Some(now), stopReason := Some(IdleTimeout))
            else if idle >= cfg.policy.idleWarningMinutes * 60_000 && row.idleWarningAt.None? then
              row.(idleWarningAt := Some(now))
            else row
  {
    SweepRefinesRows(w, order, cfg, now);
  }

  /** What is due to be published about a running row that last showed activity at `seen`. */
  ghost predicate Due(row: Row, seen: int, cfg: Settings, now: int, kind: EventKind) {
    var over := row.expiresAt.Some? && row.expiresAt.value <= now;
    var idle := now - seen;
    match kind
    case VmExpired => over
    case VmIdleTimeout => !over && idle >= cfg.policy.idleTimeoutMinutes * 60_000
    case ExpiryWarning =>
      && !over && row.idleWarningAt.None? && row.expiresAt.Some?
      && row.expiresAt.value - now <= cfg.expiryWarningMinutes * 60_000
    case IdleWarning =>
      && !over && row.idleWarningAt.None? && idle < cfg.policy.idleTimeoutMinutes * 60_000
      && idle >= cfg.policy.idleWarningMinutes * 60_000
    case VmRunning | VmFailed | VmStopped => false
  }

  lemma PublishedIffDue(id: SessionId, row: Row, cfg: Settings, now: int, seen: int, kind: EventKind)
    requires LastSeen(row, seen)
    ensures Event(kind, id) in SweptEvents(id, row, cfg, now) <==> Due(row, seen, cfg, now, kind)
  {
    var (early, late) := (EarlyEvents(id, row, cfg, now), LateEvents(id, row, cfg, now));
    assert forall e :: e in early + late <==> e in early || e in late;
  }

  /** And the events: a row that was running is published as expired exactly when it was at
      or past its expiry, as timed out exactly when it was not but had idled for the
      timeout, and warned, of either, exactly when its mark was clear and the time for that
      warning had come; each once, and nothing else is published about it, nor anything
      about a row that was not running. */
  lemma SweepEvents(w: World, order: seq<SessionId>, cfg: Settings, now: int, id: SessionId, seen: int, kind: EventKind)
    requires Answers(order, w.store.rows)
    requires id in w.store.rows ==> LastSeen(w.store.rows[id], seen)
    ensures w.events <= SweepAll(w, order, cfg, now, map[]).0.events
    ensures multiset(SweepAll(w, order, cfg, now, map[]).0.events[|w.events|..])[Event(kind, id)] ==
            if id in w.store.rows && w.store.rows[id].state.Running? && Due(w.store.rows[id], seen, cfg, now, kind)
            then 1 else 0
  {
    SweepRefinesRows(w, order, cfg, now);
    var (e, events) := (Event(kind, id), SweepAll(w, order, cfg, now, map[]).0.events);
    assert multiset(events[|w.events|..])[e] == Published(w.store.rows, Ids(order), cfg, now, e);
    if id in w.store.rows {
      PublishedIffDue(id, w.store.rows[id], cfg, now, seen, kind);
      assert id in order <==> id in RunningIds(w.store.rows);
    }
  }

  /** A sweep that is abandoned at a row has published nothing about its stop: only, if it
      had not expired, the warning that it soon would. */
  lemma RaisingRowIsSilent(w: World, id: SessionId, cfg: Settings, now: int, fault: StopFault)
    requires id in w.store.rows && !SweepOne(w, id, cfg, now, fault).1
    ensures var (w', row) := (SweepOne(w, id, cfg, now, fault).0, w.store.rows[id]);
            && fault != NoFault
            && w'.store.rows == w.store.rows[id := row.(state := Stopping)]
            && (w'.events == w.events
                || (w'.events == w.events + [Event(ExpiryWarning, id)] && row.expiresAt.Some?
                    && now < row.expiresAt.value <= now + cfg.expiryWarningMinutes * 60_000))
  {
  }

  lemma OneOfEach(id: SessionId, row: Row, cfg: Settings, now: int, e: Event)
    ensures multiset(SweptEvents(id, row, cfg, now))[e] == if e in SweptEvents(id, row, cfg, now) then 1 else 0
    ensures e in SweptEvents(id, row, cfg, now) ==> e.session == id
  {
    var (early, late) := (EarlyEvents(id, row, cfg, now), LateEvents(id, row, cfg, now));
    assert multiset(early + late) == multiset(early) + multiset(late);
  }

  /** Two answers to the same query give the same store and the same events, up to
      their order. */
  lemma SweepIgnoresOrder(w: World, order: seq<SessionId>, order': seq<SessionId>, cfg: Settings, now: int)
    requires Answers(order, w.store.rows) && Answers(order', w.store.rows)
    ensures var (a, b) := (SweepAll(w, order, cfg, now, map[]).0, SweepAll(w, order', cfg, now, map[]).0);
            a.store == b.store && multiset(a.events) == multiset(b.events)
  {
    SweepRefinesRows(w, order, cfg, now);
    SweepRefinesRows(w, order', cfg, now);
    assert Ids(order) == Ids(order');
    SameBag(w.events, SweepAll(w, order, cfg, now, map[]).0.events, SweepAll(w, order', cfg, now, map[]).0.events);
  }

  lemma SameBag(start: seq<Event>, a: seq<Event>, b: seq<Event>)
    requires start <= a && start <= b
    requires forall e :: multiset(a[|start|..])[e] == multiset(b[|start|..])[e]
    ensures multiset(a) == multiset(b)
  {
    var n := |start|;
    assert a == start + a[n..] && b == start + b[n..];
    assert multiset(a[n..]) == multiset(b[n..]);
  }

  /** A sweep with raising teardowns is a sweep in which nothing raises, up to the row `k`
      whose teardown raises; so the theorems above hold of the rows before it. */
  lemma {:induction false} SweepUpToRaise(w: World, order: seq<SessionId>, cfg: Settings, now: int, faults: Faults)
    returns (k: nat)
    requires forall id :: id in order ==> id in w.store.rows
    ensures var (w', ok) := SweepAll(w, order, cfg, now, faults);
            if ok then (w', ok) == SweepAll(w, order, cfg, now, map[])
            else
              && k < |order| && FaultFor(faults, order[k]) != NoFault
              && var (before, done) := SweepAll(w, order[..k], cfg, now, map[]);
                 done && (w', ok) == SweepOne(before, order[k], cfg, now, FaultFor(faults, order[k]))
    decreases order
  {
    k := 0;
    if order == [] {
    } else {
      var (w1, ok1) := SweepOne(w, order[0], cfg, now, FaultFor(faults, order[0]));
      if ok1 {
        assert SweepOne(w, order[0], cfg, now, NoFault) == (w1, true);
        var rest := SweepUpToRaise(w1, order[1..], cfg, now, faults);
        k := rest + 1;
        if !SweepAll(w, order, cfg, now, faults).1 {
          assert order[..k][1..] == order[1..][..rest] && order[..k][0] == order[0];
        }
      }
    }
  }

  // ---------- Progress when teardown fails ----------

  /** The rows a sweep leaves running keep the columns that decide when they are due. */
  ghost predicate OnlyLeaves(rows: map<SessionId, Row>, rows': map<SessionId, Row>) {
    && rows'.Keys == rows.Keys
    && (forall id :: id in rows' && rows'[id].state.Running? ==>
          && rows[id].state.Running?
          && rows'[id].expiresAt == rows[id].expiresAt
          && LastActivity(rows'[id]) == LastActivity(rows[id]))
  }

  lemma StopLeavesRunning(s: Store, id: SessionId, reason: StopReason, now: int, fault: StopFault)
    requires id in s.rows
    ensures var rows' := StopSession(s, id, reason, now, fault).rows;
            rows' == s.rows[id := rows'[id]] && !rows'[id].state.Running?
  {
  }

  lemma SweepOneProgress(w: World, id: SessionId, cfg: Settings, now: int, fault: StopFault)
    requires id in w.store.rows && w.store.rows[id].state.Running?
    ensures var (w', ok) := SweepOne(w, id, cfg, now, fault);
            && OnlyLeaves(w.store.rows, w'.store.rows)
            && (forall x :: x in w.store.rows && x != id ==> w'.store.rows[x] == w.store.rows[x])
            && (Stops(w.store.rows[id], cfg, now) ==> !w'.store.rows[id].state.Running?)
            && (!ok ==> !w'.store.rows[id].state.Running?)
  {
    match StopsFor(w.store.rows[id], cfg, now)
    case Some(reason) => StopLeavesRunning(w.store, id, reason, now, fault);
    case None =>
  }

  /** No due row of a complete sweep is left running; an abandoned one has taken at least
      one row out of `running`. */
  ghost predicate Progress(rows: map<SessionId, Row>, rows': map<SessionId, Row>, order: seq<SessionId>,
                           cfg: Settings, now: int, ok: bool)
    requires AllRunning(order, rows)
  {
    && OnlyLeaves(rows, rows')
    && (ok ==> forall id :: id in order && Stops(rows[id], cfg, now) ==> !rows'[id].state.Running?)
    && (!ok ==> exists id :: id in order && !rows'[id].state.Running?)
  }

  /** One row swept without a raise, and then the rest. */
  lemma ProgressAddsUp(rows: map<SessionId, Row>, mid: map<SessionId, Row>, rows': map<SessionId, Row>,
                       order: seq<SessionId>, cfg: Settings, now: int, ok: bool)
    requires order != [] && AllRunning(order, rows) && AllRunning(order[1..], mid)
    requires OnlyLeaves(rows, mid) && (forall x :: x in rows && x != order[0] ==> mid[x] == rows[x])
    requires Stops(rows[order[0]], cfg, now) ==> !mid[order[0]].state.Running?
    requires order[0] !in order[1..] && Progress(mid, rows', order[1..], cfg, now, ok)
    ensures Progress(rows, rows', order, cfg, now, ok)
  {
    if ok {
      forall id | id in order && Stops(rows[id], cfg, now)
        ensures !rows'[id].state.Running?
      {
        assert id == order[0] || id in order[1..];
      }
    } else {
      var x :| x in order[1..] && !rows'[x].state.Running?;
      assert x in order;
    }
  }

  /** A sweep makes progress, whatever the teardowns do after their first commit. */
  lemma {:induction false} SweepProgress(w: World, order: seq<SessionId>, cfg: Settings, now: int, faults: Faults)
    requires Distinct(order) && AllRunning(order, w.store.rows)
    ensures var (w', ok) := SweepAll(w, order, cfg, now, faults);
            Progress(w.store.rows, w'.store.rows, order, cfg, now, ok)
    decreases order
  {
    if order == [] {
    } else {
      var (id, rest) := (order[0], order[1..]);
      SweepOneProgress(w, id, cfg, now, FaultFor(faults, id));
      var (w1, ok1) := SweepOne(w, id, cfg, now, FaultFor(faults, id));
      if ok1 {
        assert forall x :: x in rest ==> x != id;
        SweepProgress(w1, rest, cfg, now, faults);
        var (w', ok) := SweepAll(w1, rest, cfg, now, faults);
        ProgressAddsUp(w.store.rows, w1.store.rows, w'.store.rows, order, cfg, now, ok);
      }
    }
  }

  lemma StopsStaysTrue(row: Row, row': Row, cfg: Settings, now: int, later: int)
    requires Stops(row, cfg, now) && now <= later
    requires row'.expiresAt == row.expiresAt && LastActivity(row') == LastActivity(row)
    ensures Stops(row', cfg, later)
  {
  }

  predicate NonDecreasing(clock: seq<int>) {
    forall i, j :: 0 <= i <= j < |clock| ==> clock[i] <= clock[j]
  }

  /** The scheduler's loop, one sweep per clock reading; an abandoned sweep is logged and
      the loop goes on.  As many sweeps as there are running rows are enough to take
      every session due at the first of them out of `running`, even if every teardown
      raises. */
  method SweepRepeatedly(lab: Lab, cfg: Settings, clock: seq<int>, faults: seq<Faults>)
    requires |faults| == |clock| && NonDecreasing(clock)
    modifies lab, lab.redis, lab.disk, lab.libvirt
    ensures old(lab.rows).Keys == lab.rows.Keys
    ensures |clock| >= |RunningIds(old(lab.rows))| && |clock| > 0 ==>
      forall id :: id in old(lab.rows) && old(lab.rows)[id].state.Running? && Stops(old(lab.rows)[id], cfg, clock[0])
        ==> !lab.rows[id].state.Running?
  {
    if |clock| == 0 {
      return;
    }
    ghost var rows0 := lab.rows;
    for i := 0 to |clock|
      invariant OnlyLeaves(rows0, lab.rows)
      invariant
        || |RunningIds(lab.rows)| <= |RunningIds(rows0)| - i
        || (forall id :: id in rows0 && rows0[id].state.Running? && Stops(rows0[id], cfg, clock[0]) ==>
              !lab.rows[id].state.Running?)
    {
      ghost var before := lab.rows;
      ghost var w := World(lab.View(), lab.events);
      var order := QueryRunning(lab);
      SweepProgress(w, order, cfg, clock[i], faults[i]);
      var ok := CheckExpiredAndIdleSessions(lab, order, cfg, clock[i], faults[i]);
      SweepLeavesFewer(rows0, before, lab.rows, order, cfg, clock[0], clock[i], ok);
    }
    assert |clock| >= |RunningIds(rows0)| ==> |RunningIds(lab.rows)| == 0 || (forall id ::
      id in rows0 && rows0[id].state.Running? && Stops(rows0[id], cfg, clock[0]) ==> !lab.rows[id].state.Running?);
    forall id | id in lab.rows && lab.rows[id].state.Running?
      ensures id in RunningIds(lab.rows)
    {
    }
  }

  /** One round of the loop. */
  lemma SweepLeavesFewer(rows0: map<SessionId, Row>, before: map<SessionId, Row>, after: map<SessionId, Row>,
                         order: seq<SessionId>, cfg: Settings, first: int, now: int, ok: bool)
    requires OnlyLeaves(rows0, before) && OnlyLeaves(before, after) && Answers(order, before) && first <= now
    requires ok ==> forall id :: id in order && Stops(before[id], cfg, now) ==> !after[id].state.Running?
    requires !ok ==> exists id :: id in order && !after[id].state.Running?
    ensures OnlyLeaves(rows0, after)
    ensures !ok ==> |RunningIds(after)| < |RunningIds(before)|
    ensures ok ==> forall id :: id in rows0 && rows0[id].state.Running? && Stops(rows0[id], cfg, first) ==>
              !after[id].state.Running?
    ensures (forall id :: id in rows0 && rows0[id].state.Running? && Stops(rows0[id], cfg, first) ==>
               !before[id].state.Running?)
        ==> (forall id :: id in rows0 && rows0[id].state.Running? && Stops(rows0[id], cfg, first) ==>
               !after[id].state.Running?)
  {
    if ok {
      forall id | id in rows0 && rows0[id].state.Running? && Stops(rows0[id], cfg, first)
        ensures !after[id].state.Running?
      {
        if before[id].state.Running? {
          StopsStaysTrue(rows0[id], before[id], cfg, first, now);
          assert id in RunningIds(before);
        }
      }
    } else {
      var id :| id in order && !after[id].state.Running?;
      assert id in RunningIds(before) && id !in RunningIds(after);
      assert RunningIds(after) <= RunningIds(before);
      SubsetSize(RunningIds(after), RunningIds(before));
    }
  }
}
