/** One session over time: the browser's activity heartbeat, activity posts and extensions
    that work on rows loaded earlier, sweeps, and stops by other paths.  Sweeps are atomic;
    the policy does not change during the session. */
module SessionClock {
  import opened Types
  import opened VmLifecycle
  import opened Scheduler

  // ---------- The heartbeat hook ----------

  const HEARTBEAT: int := 30 * SECOND

  class Heartbeat {
    var lastSent: int

    constructor ()
      ensures lastSent == 0
    {
      lastSent := 0;
    }

    /** Called on every key, mouse or focus event; `sent` says whether it posts. */
    method Report(now: int) returns (sent: bool)
      modifies this
      ensures sent == Posts(old(lastSent), now)
      ensures sent <==> now - old(lastSent) >= 30_000
      ensures lastSent == if sent then now else old(lastSent)
    {
      if now - lastSent < HEARTBEAT {
        return false;
      }
      lastSent := now;
      sent := true;
    }
  }

  predicate Posts(lastSent: int, now: int) {
    now - lastSent >= HEARTBEAT
  }

  // ---------- Ticks ----------

  /** An `Input` that posts and is not lost is handled at once.  A post that takes longer is
      one that is `lost` to the hook, and is loaded and committed later on; so are the posts
      of other windows. */
  datatype Tick =
    | Input(lost: bool)
    | LoadPost(call: nat)
    | CommitPost(call: nat, stamp: int)
    | LoadExtend(call: nat)
    | CommitExtend(call: nat, minutes: int)
    | Sweep
    | Depart(state: VMState)

  datatype Timed = At(time: int, tick: Tick)

  datatype Notice = Notice(event: EventKind, time: int)

  /** The row that an unfinished activity post has loaded, and when. */
  datatype Pending = Pending(row: Row, at: int)

  /** The row, the hook's `lastSent`, what unfinished activity posts and extension requests
      have loaded, and what the sweeps have published about the session. */
  datatype Clock = Clock(
    row: Row,
    lastSent: int,
    posts: map<nat, Pending>,
    loaded: map<nat, Row>,
    notices: seq<Notice>)

  /** A post sets the activity time and clears the idle mark of the row it loaded; the update
      that it commits writes only what thereby differs from what it loaded. */
  function PostedRow(p: Pending, row: Row, stamp: int): Row {
    row.(lastActivityAt := if p.row.lastActivityAt == Some(stamp) then row.lastActivityAt else Some(stamp),
         idleWarningAt := if p.row.idleWarningAt.None? then row.idleWarningAt else None)
  }

  /** When the row has not changed since, that is what `RecordActivity` does. */
  lemma PromptPostIsActivity(row: Row, at: int, stamp: int)
    ensures PostedRow(Pending(row, at), row, stamp) == ActiveRow(row, stamp)
  {
  }

  /** A post is stamped between its load and its commit. */
  predicate CommitsPost(c: Clock, e: Timed) {
    e.tick.CommitPost? && e.tick.call in c.posts && c.posts[e.tick.call].at <= e.tick.stamp <= e.time
  }

  function NoticesOf(events: seq<Event>, time: int): seq<Notice> {
    seq(|events|, i requires 0 <= i < |events| => Notice(events[i].kind, time))
  }

  function Swept(c: Clock, cfg: Settings, now: int): Clock {
    if c.row.state.Running? then
      c.(row := SweptRow(c.row, cfg, now), notices := c.notices + NoticesOf(SweptEvents(0, c.row, cfg, now), now))
    else c
  }

  function Step(c: Clock, cfg: Settings, e: Timed): Clock {
    match e.tick
    case Input(lost) =>
      if Posts(c.lastSent, e.time) then
        c.(lastSent := e.time, row := if lost then c.row else ActiveRow(c.row, e.time))
      else c
    case LoadPost(call) => c.(posts := c.posts[call := Pending(c.row, e.time)])
    case CommitPost(call, stamp) =>
      if CommitsPost(c, e) then c.(row := PostedRow(c.posts[call], c.row, stamp), posts := c.posts - {call})
      else c
    case LoadExtend(call) => c.(loaded := c.loaded[call := c.row])
    case CommitExtend(call, minutes) =>
      if call !in c.loaded then c
      else
        (match ExtendRow(c.loaded[call], c.row, e.time, minutes)
         case Some(row) => c.(row := row, loaded := c.loaded - {call})
         case None => c.(loaded := c.loaded - {call}))
    case Sweep => Swept(c, cfg, e.time)
    case Depart(state) => c.(row := c.row.(state := state))
  }

  function After(c: Clock, cfg: Settings, trace: seq<Timed>): Clock
    decreases trace
  {
    if trace == [] then c else After(Step(c, cfg, trace[0]), cfg, trace[1..])
  }

  /** What a post that takes longer writes, and when: it is stamped since its load, and of the
      two columns it writes each one that has not the value to be written in the row it
      loaded, whatever the row has by now. */
  lemma PostCommitWrites(c: Clock, cfg: Settings, call: nat, stamp: int, now: int)
    ensures var c' := Step(c, cfg, At(now, CommitPost(call, stamp)));
            if call !in c.posts || !(c.posts[call].at <= stamp <= now) then c' == c
            else
              var loaded := c.posts[call].row;
              && c' == c.(row := c'.row, posts := c.posts - {call})
              && c'.row == c.row.(lastActivityAt := c'.row.lastActivityAt, idleWarningAt := c'.row.idleWarningAt)
              && (loaded.lastActivityAt == Some(stamp) ==> c'.row.lastActivityAt == c.row.lastActivityAt)
              && (loaded.lastActivityAt != Some(stamp) ==> c'.row.lastActivityAt == Some(stamp))
              && (loaded.idleWarningAt == None ==> c'.row.idleWarningAt == c.row.idleWarningAt)
              && (loaded.idleWarningAt != None ==> c'.row.idleWarningAt == None)
  {
  }

  /** Times do not go back, and a session that has left `running` does not return. */
  predicate Proceeds(trace: seq<Timed>, from: int)
    decreases trace
  {
    trace == [] ||
    (from <= trace[0].time && (trace[0].tick.Depart? ==> !trace[0].tick.state.Running?)
     && Proceeds(trace[1..], trace[0].time))
  }

  /** The clock when a session starts at `start`: just provisioned, and no heartbeat from
      the future.  Posts and extensions may have come in while it was queued. */
  predicate Starts(c: Clock, start: int, sessionMinutes: int) {
    && c.row.state.Running?
    && c.row.startedAt == Some(start)
    && c.row.expiresAt == Some(start + sessionMinutes * MINUTE)
    && c.row.lastActivityAt == Some(start)
    && c.row.idleWarningAt == None
    && c.lastSent <= start
  }

  function EndTime(trace: seq<Timed>, from: int): int
    decreases trace
  {
    if trace == [] then from else EndTime(trace[1..], trace[0].time)
  }

  lemma {:induction false} NeverReturns(c: Clock, cfg: Settings, trace: seq<Timed>, from: int)
    requires Proceeds(trace, from) && !c.row.state.Running?
    ensures !After(c, cfg, trace).row.state.Running?
    decreases trace
  {
    if trace == [] {
    } else {
      NeverReturns(Step(c, cfg, trace[0]), cfg, trace[1..], trace[0].time);
    }
  }

  /** The sweep of the whole table does to each running session, in any row order, what
      `Swept` does to one: the same row, and the same kinds of events. */
  lemma TableSweepIsSwept(w: World, order: seq<SessionId>, cfg: Settings, now: int, id: SessionId, c: Clock)
    requires Answers(order, w.store.rows) && id in RunningIds(w.store.rows) && c.row == w.store.rows[id]
    ensures var w' := SweepAll(w, order, cfg, now, map[]).0;
            var c' := Swept(c, cfg, now);
            && c'.row == w'.store.rows[id]
            && w.events <= w'.events && c.notices <= c'.notices
            && (forall kind :: Event(kind, id) in w'.events[|w.events|..] <==>
                  Notice(kind, now) in c'.notices[|c.notices|..])
  {
    SweepRefinesRows(w, order, cfg, now);
    var events := SweepAll(w, order, cfg, now, map[]).0.events[|w.events|..];
    var c' := Swept(c, cfg, now);
    assert c'.notices[|c.notices|..] == NoticesOf(SweptEvents(0, c.row, cfg, now), now);
    forall kind
      ensures Event(kind, id) in events <==> Notice(kind, now) in c'.notices[|c.notices|..]
    {
      assert multiset(events)[Event(kind, id)] == Published(w.store.rows, Ids(order), cfg, now, Event(kind, id));
      SameKinds(id, c.row, cfg, now, kind);
    }
  }

  lemma SameKinds(id: SessionId, row: Row, cfg: Settings, now: int, kind: EventKind)
    ensures Event(kind, id) in SweptEvents(id, row, cfg, now) <==>
            Notice(kind, now) in NoticesOf(SweptEvents(0, row, cfg, now), now)
  {
    var (mine, seen) := (SweptEvents(id, row, cfg, now), SweptEvents(0, row, cfg, now));
    var notices := NoticesOf(seen, now);
    assert |mine| == |seen| == |notices|;
    assert forall i :: 0 <= i < |mine| ==>
        mine[i] == Event(seen[i].kind, id) && notices[i] == Notice(seen[i].kind, now);
  }

  // ---------- Traces one after the other ----------

  lemma {:induction false} AfterBoth(c: Clock, cfg: Settings, a: seq<Timed>, b: seq<Timed>)
    ensures After(c, cfg, a + b) == After(After(c, cfg, a), cfg, b)
    decreases a
  {
    if a == [] {
      assert a + b == b;
    } else {
      assert (a + b)[1..] == a[1..] + b;
      AfterBoth(Step(c, cfg, a[0]), cfg, a[1..], b);
    }
  }

  lemma {:induction false} ProceedsBoth(a: seq<Timed>, b: seq<Timed>, from: int)
    ensures Proceeds(a + b, from) <==> Proceeds(a, from) && Proceeds(b, EndTime(a, from))
    ensures EndTime(a + b, from) == EndTime(b, EndTime(a, from))
    decreases a
  {
    if a == [] {
      assert a + b == b;
    } else {
      assert (a + b)[1..] == a[1..] + b;
      ProceedsBoth(a[1..], b, a[0].time);
    }
  }
}
