/** How long a session can run.  Extensions write absolute values computed from a row that
    was loaded earlier, and `extend_session` looks at no state, so extensions may be made,
    or loaded and still pending, while the session is queued. */
module SessionLifetime {
  import opened Types
  import opened VmLifecycle
  import opened Scheduler
  import opened SessionClock

  predicate ExtendsWithin(trace: seq<Timed>, most: int) {
    forall i :: 0 <= i < |trace| && trace[i].tick.CommitExtend? ==> 1 <= trace[i].tick.minutes <= most
  }

  lemma RestExtendsWithin(trace: seq<Timed>, most: int)
    requires ExtendsWithin(trace, most) && trace != []
    ensures ExtendsWithin(trace[1..], most)
  {
    assert forall i :: 0 <= i < |trace[1..]| ==> trace[1..][i] == trace[i + 1];
  }

  /** The count is within the maximum, and a row that shows no expiry was never extended. */
  predicate Counted(row: Row, maxExtensions: int) {
    && row.maxExtensions == maxExtensions
    && 0 <= row.extensionCount
    && (row.extensionCount > 0 ==> row.extensionCount <= maxExtensions)
    && (row.expiresAt.None? ==> row.extensionCount == 0)
  }

  /** The row expires no later than its own extension count allows, counted from `base`. */
  predicate Bounded(row: Row, base: int, most: int) {
    row.expiresAt.Some? ==> row.expiresAt.value <= base + row.extensionCount * (most * MINUTE)
  }

  /** The same of the row and of every row an extension request still holds. */
  predicate AllBounded(c: Clock, base: int, most: int, maxExtensions: int) {
    && Counted(c.row, maxExtensions) && Bounded(c.row, base, most)
    && (forall call :: call in c.loaded ==>
          Counted(c.loaded[call], maxExtensions) && Bounded(c.loaded[call], base, most))
  }

  /** The commit of a request that found no expiry in the row it loaded, and is accepted:
      it counts from the time at which it is handled. */
  predicate CountsFromNow(c: Clock, e: Timed) {
    && e.tick.CommitExtend? && e.tick.call in c.loaded
    && c.loaded[e.tick.call].expiresAt.None?
    && c.loaded[e.tick.call].extensionCount < c.loaded[e.tick.call].maxExtensions
  }

  function BaseAfter(c: Clock, e: Timed, base: int): int {
    if CountsFromNow(c, e) && e.time > base then e.time else base
  }

  lemma CountTimes(count: int, more: int, unit: int)
    requires count <= more && 0 <= unit
    ensures count * unit <= more * unit
  {
  }

  /** An extension computed from a stale row within the bound writes a row within it. */
  lemma ExtensionStaysBounded(loaded: Row, row: Row, now: int, minutes: int, base: int, most: int, maxExtensions: int)
    requires Counted(loaded, maxExtensions) && Counted(row, maxExtensions) && Bounded(loaded, base, most)
    requires 1 <= minutes <= most && (loaded.expiresAt.None? ==> now <= base)
    ensures var extended := ExtendRow(loaded, row, now, minutes);
            extended.Some? ==> Counted(extended.value, maxExtensions) && Bounded(extended.value, base, most)
  {
    assert (loaded.extensionCount + 1) * (most * MINUTE) == loaded.extensionCount * (most * MINUTE) + most * MINUTE;
  }

  lemma SweepKeepsExpiry(c: Clock, cfg: Settings, e: Timed)
    requires !e.tick.CommitExtend?
    ensures var row' := Step(c, cfg, e).row;
            row'.expiresAt == c.row.expiresAt && row'.extensionCount == c.row.extensionCount
            && row'.maxExtensions == c.row.maxExtensions
  {
  }

  lemma StepKeepsBounded(c: Clock, cfg: Settings, e: Timed, base: int, most: int, maxExtensions: int)
    requires AllBounded(c, base, most, maxExtensions) && (e.tick.CommitExtend? ==> 1 <= e.tick.minutes <= most)
    ensures AllBounded(Step(c, cfg, e), BaseAfter(c, e, base), most, maxExtensions)
  {
    if e.tick.CommitExtend? {
      if e.tick.call in c.loaded {
        var loaded := c.loaded[e.tick.call];
        if loaded.extensionCount < loaded.maxExtensions {
          ExtensionStaysBounded(loaded, c.row, e.time, e.tick.minutes, BaseAfter(c, e, base), most, maxExtensions);
        }
      }
    } else {
      SweepKeepsExpiry(c, cfg, e);
    }
  }

  // ---------- The queued phase ----------

  /** What has been extended or loaded so far counts from now at the latest. */
  lemma {:induction false} QueuedPhase(c: Clock, cfg: Settings, trace: seq<Timed>, from: int, most: int,
                                       maxExtensions: int)
    requires AllBounded(c, from, most, maxExtensions) && !c.row.state.Running? && c.row.idleWarningAt.None?
             && c.lastSent <= from
    requires Proceeds(trace, from) && ExtendsWithin(trace, most)
    ensures var (end, until) := (After(c, cfg, trace), EndTime(trace, from));
            && AllBounded(end, until, most, maxExtensions)
            && from <= until && end.row.idleWarningAt.None? && end.lastSent <= until
    decreases trace
  {
    if trace == [] {
    } else {
      var e := trace[0];
      BoundedLater(c, from, e.time, most, maxExtensions);
      StepKeepsBounded(c, cfg, e, e.time, most, maxExtensions);
      RestExtendsWithin(trace, most);
      QueuedPhase(Step(c, cfg, e), cfg, trace[1..], e.time, most, maxExtensions);
    }
  }

  lemma BoundedLater(c: Clock, base: int, base': int, most: int, maxExtensions: int)
    requires AllBounded(c, base, most, maxExtensions) && base <= base'
    ensures AllBounded(c, base', most, maxExtensions)
  {
  }

  /** What provisioning leaves of a session that has been queued since `created`, whatever
      posts, extensions and loads have come in: a session start of the timed model, within
      the bound counted from the end of the unextended session. */
  lemma ProvisioningStarts(user: User, maxExtensions: int, created: int, lastSent: int, cfg: Settings,
                           trace: seq<Timed>, id: SessionId, port: int, o: Outcome, most: int)
    requires lastSent <= created && maxExtensions >= 0 && most >= 0 && o.sessionMinutes >= 0
    requires Proceeds(trace, created) && EndTime(trace, created) <= o.now && ExtendsWithin(trace, most)
    ensures var queued := After(Clock(NewRow(user, maxExtensions, created), lastSent, map[], map[], []), cfg, trace);
            var c := queued.(row := RunningRow(queued.row, id, port, o));
            && Starts(c, o.now, o.sessionMinutes)
            && AllBounded(c, o.now + o.sessionMinutes * MINUTE, most, maxExtensions)
  {
    var inserted := Clock(NewRow(user, maxExtensions, created), lastSent, map[], map[], []);
    QueuedPhase(inserted, cfg, trace, created, most, maxExtensions);
    var queued := After(inserted, cfg, trace);
    BoundedLater(queued, EndTime(trace, created), o.now + o.sessionMinutes * MINUTE, most, maxExtensions);
    CountTimes(0, queued.row.extensionCount, most * MINUTE);
  }

  // ---------- Bounded lifetime ----------

  /** No event comes more than `gap` after the sweep before it, and neither does `now`. */
  predicate SweptThroughout(trace: seq<Timed>, last: int, gap: int, now: int)
    decreases trace
  {
    if trace == [] then now - last <= gap
    else
      && trace[0].time - last <= gap
      && SweptThroughout(trace[1..], if trace[0].tick.Sweep? then trace[0].time else last, gap, now)
  }

  /** The requests that were loaded before the row showed an expiry. */
  function QueuedLoads(c: Clock): set<nat> {
    set call | call in c.loaded && c.loaded[call].expiresAt.None?
  }

  /** A session that still runs had not expired at its last sweep. */
  predicate NotPastAtSweep(c: Clock, last: int, base: int, most: int, maxExtensions: int) {
    c.row.state.Running? ==> c.row.expiresAt.Some? && last < base + maxExtensions * (most * MINUTE)
  }

  lemma StepNotPast(c: Clock, cfg: Settings, e: Timed, last: int, base: int, most: int, maxExtensions: int)
    requires AllBounded(c, base, most, maxExtensions) && NotPastAtSweep(c, last, base, most, maxExtensions)
    requires most >= 0 && maxExtensions >= 0 && (e.tick.Depart? ==> !e.tick.state.Running?)
    ensures NotPastAtSweep(Step(c, cfg, e), if e.tick.Sweep? then e.time else last, BaseAfter(c, e, base), most,
                           maxExtensions)
  {
    if e.tick.Sweep? && c.row.state.Running? {
      CountTimes(c.row.extensionCount, maxExtensions, most * MINUTE);
    }
  }

  /** Each accepted queued load is used up, and moves the base by one unit at most. */
  lemma StepUsesLoad(c: Clock, cfg: Settings, e: Timed, last: int, gap: int, base: int, most: int, maxExtensions: int)
    requires AllBounded(c, base, most, maxExtensions) && NotPastAtSweep(c, last, base, most, maxExtensions)
    requires c.row.state.Running? && e.time - last <= gap && gap >= 0 && most >= 0 && maxExtensions >= 0
    ensures QueuedLoads(Step(c, cfg, e)) <= QueuedLoads(c)
    ensures BaseAfter(c, e, base) == base
         || (BaseAfter(c, e, base) <= base + maxExtensions * (most * MINUTE) + gap
             && |QueuedLoads(Step(c, cfg, e))| < |QueuedLoads(c)|)
  {
    if CountsFromNow(c, e) {
      assert e.tick.call in QueuedLoads(c) && e.tick.call !in QueuedLoads(Step(c, cfg, e));
      SubsetSize(QueuedLoads(Step(c, cfg, e)), QueuedLoads(c));
    }
  }

  /** The end of the session at the latest: a unit for the session itself, and one for each
      pending queued load. */
  function Latest(base: int, loads: nat, unit: int): int {
    base + (loads + 1) * unit
  }

  lemma LatestFalls(base: int, base': int, loads: nat, loads': nat, unit: int)
    requires unit >= 0 && loads' <= loads
    requires base' == base || (base' <= base + unit && loads' < loads)
    ensures Latest(base', loads', unit) <= Latest(base, loads, unit)
  {
    CountTimes(loads' + 1, loads + 1, unit);
    if base' != base {
      CountTimes(loads' + 2, loads + 1, unit);
      assert (loads' + 2) * unit == (loads' + 1) * unit + unit;
    }
  }

  /** One event of a running session keeps the bounds, and does not move the latest end. */
  lemma StepTowardsLatest(c: Clock, cfg: Settings, e: Timed, last: int, gap: int, base: int, most: int,
                          maxExtensions: int)
    requires AllBounded(c, base, most, maxExtensions) && NotPastAtSweep(c, last, base, most, maxExtensions)
    requires c.row.state.Running? && e.time - last <= gap && gap >= 0 && most >= 0 && maxExtensions >= 0
    requires (e.tick.Depart? ==> !e.tick.state.Running?) && (e.tick.CommitExtend? ==> 1 <= e.tick.minutes <= most)
    ensures var (c', base', last') := (Step(c, cfg, e), BaseAfter(c, e, base), if e.tick.Sweep? then e.time else last);
            && AllBounded(c', base', most, maxExtensions) && NotPastAtSweep(c', last', base', most, maxExtensions)
            && Latest(base', |QueuedLoads(c')|, maxExtensions * (most * MINUTE) + gap)
               <= Latest(base, |QueuedLoads(c)|, maxExtensions * (most * MINUTE) + gap)
  {
    var c' := Step(c, cfg, e);
    StepKeepsBounded(c, cfg, e, base, most, maxExtensions);
    StepNotPast(c, cfg, e, last, base, most, maxExtensions);
    StepUsesLoad(c, cfg, e, last, gap, base, most, maxExtensions);
    SubsetSize(QueuedLoads(c'), QueuedLoads(c));
    CountTimes(0, maxExtensions, most * MINUTE);
    LatestFalls(base, BaseAfter(c, e, base), |QueuedLoads(c)|, |QueuedLoads(c')|,
                maxExtensions * (most * MINUTE) + gap);
  }

  lemma {:induction false} EndsByLatest(c: Clock, cfg: Settings, trace: seq<Timed>, from: int, last: int, gap: int,
                                        now: int, base: int, most: int, maxExtensions: int)
    requires AllBounded(c, base, most, maxExtensions) && NotPastAtSweep(c, last, base, most, maxExtensions)
    requires most >= 0 && maxExtensions >= 0 && gap >= 0
    requires Proceeds(trace, from) && ExtendsWithin(trace, most) && SweptThroughout(trace, last, gap, now)
    requires now >= Latest(base, |QueuedLoads(c)|, maxExtensions * (most * MINUTE) + gap)
    ensures !After(c, cfg, trace).row.state.Running?
    decreases trace
  {
    var unit := maxExtensions * (most * MINUTE) + gap;
    if !c.row.state.Running? {
      NeverReturns(c, cfg, trace, from);
    } else if trace == [] {
      CountTimes(1, |QueuedLoads(c)| + 1, unit);
    } else {
      var e := trace[0];
      StepTowardsLatest(c, cfg, e, last, gap, base, most, maxExtensions);
      RestExtendsWithin(trace, most);
      EndsByLatest(Step(c, cfg, e), cfg, trace[1..], e.time, if e.tick.Sweep? then e.time else last, gap, now,
                   BaseAfter(c, e, base), most, maxExtensions);
    }
  }

  function LastBase(c: Clock, cfg: Settings, trace: seq<Timed>, base: int): int
    decreases trace
  {
    if trace == [] then base else LastBase(Step(c, cfg, trace[0]), cfg, trace[1..], BaseAfter(c, trace[0], base))
  }

  lemma {:induction false} BoundedAlong(c: Clock, cfg: Settings, trace: seq<Timed>, base: int, most: int,
                                        maxExtensions: int)
    requires AllBounded(c, base, most, maxExtensions) && ExtendsWithin(trace, most) && c.row.expiresAt.Some?
    ensures AllBounded(After(c, cfg, trace), LastBase(c, cfg, trace, base), most, maxExtensions)
    ensures After(c, cfg, trace).row.expiresAt.Some?
    ensures QueuedLoads(c) == {} ==> LastBase(c, cfg, trace, base) == base
    decreases trace
  {
    if trace == [] {
    } else {
      var e := trace[0];
      StepKeepsBounded(c, cfg, e, base, most, maxExtensions);
      RestExtendsWithin(trace, most);
      assert QueuedLoads(Step(c, cfg, e)) <= QueuedLoads(c);
      assert QueuedLoads(c) == {} ==> !CountsFromNow(c, e) by {
        if CountsFromNow(c, e) {
          assert e.tick.call in QueuedLoads(c);
        }
      }
      BoundedAlong(Step(c, cfg, e), cfg, trace[1..], BaseAfter(c, e, base), most, maxExtensions);
    }
  }

  lemma RunsNoLonger(c: Clock, cfg: Settings, trace: seq<Timed>, start: int, before: int, now: int, gap: int,
                     expiry: int, most: int)
    requires c.row.expiresAt.Some? && before < start <= expiry && c.row.maxExtensions >= 0 && most >= 0 && gap >= 0
    requires AllBounded(c, expiry, most, c.row.maxExtensions)
    requires Proceeds(trace, start) && ExtendsWithin(trace, most) && SweptThroughout(trace, before, gap, now)
    requires now >= Latest(expiry, |QueuedLoads(c)|, c.row.maxExtensions * (most * MINUTE) + gap)
    ensures !After(c, cfg, trace).row.state.Running?
  {
    CountTimes(0, c.row.maxExtensions, most * MINUTE);
    EndsByLatest(c, cfg, trace, start, before, gap, now, expiry, most, c.row.maxExtensions);
  }

  /** Whatever the interleaving of stale extension requests, the count stays within the
      maximum and the row never expires later than its count allows, counted from the end
      of the unextended session or, if later, from the last commit of a request that was
      loaded while the session was queued.  With sweeps at most `gap` apart the session is
      not running `gap` after the latest possible expiry, and each such pending request can
      put that off once more by the same amount. */
  lemma LifetimeIsBounded(c: Clock, cfg: Settings, trace: seq<Timed>, start: int, before: int, now: int, gap: int,
                          most: int)
    requires Starts(c, start, cfg.policy.sessionMinutes) && cfg.policy.sessionMinutes >= 0
    requires c.row.maxExtensions >= 0 && most >= 0 && gap >= 0 && before < start
    requires AllBounded(c, start + cfg.policy.sessionMinutes * MINUTE, most, c.row.maxExtensions)
    requires Proceeds(trace, start) && ExtendsWithin(trace, most)
    ensures var (end, most') := (After(c, cfg, trace), most * MINUTE);
            var expiry := start + cfg.policy.sessionMinutes * MINUTE;
            && 0 <= end.row.extensionCount <= c.row.maxExtensions
            && end.row.expiresAt.Some?
            && end.row.expiresAt.value <= LastBase(c, cfg, trace, expiry) + end.row.extensionCount * most'
            && (QueuedLoads(c) == {} ==> LastBase(c, cfg, trace, expiry) == expiry)
            && (SweptThroughout(trace, before, gap, now)
                && now >= Latest(expiry, |QueuedLoads(c)|, c.row.maxExtensions * most' + gap)
                ==> !end.row.state.Running?)
  {
    var expiry := start + cfg.policy.sessionMinutes * MINUTE;
    BoundedAlong(c, cfg, trace, expiry, most, c.row.maxExtensions);
    if SweptThroughout(trace, before, gap, now)
       && now >= Latest(expiry, |QueuedLoads(c)|, c.row.maxExtensions * (most * MINUTE) + gap) {
      RunsNoLonger(c, cfg, trace, start, before, now, gap, expiry, most);
    }
  }

  // ---------- When the bound counted from the unextended session holds ----------

  predicate ExtendsBy(trace: seq<Timed>, minutes: int) {
    forall i :: 0 <= i < |trace| && trace[i].tick.CommitExtend? ==> trace[i].tick.minutes == minutes
  }

  /** At no moment does the row expire later than its count allows. */
  predicate AlwaysBounded(c: Clock, cfg: Settings, trace: seq<Timed>, base: int, most: int)
    decreases trace
  {
    Bounded(c.row, base, most) && (trace == [] || AlwaysBounded(Step(c, cfg, trace[0]), cfg, trace[1..], base, most))
  }

  /** No request loaded while the session was queued is committed after `deadline`. */
  predicate CommitsInTime(c: Clock, cfg: Settings, trace: seq<Timed>, deadline: int)
    decreases trace
  {
    trace == [] ||
    ((CountsFromNow(c, trace[0]) ==> trace[0].time <= deadline)
     && CommitsInTime(Step(c, cfg, trace[0]), cfg, trace[1..], deadline))
  }

  lemma LateCommitBreaksBound(c: Clock, cfg: Settings, e: Timed, base: int, most: int, maxExtensions: int)
    requires AllBounded(c, base, most, maxExtensions) && CountsFromNow(c, e) && e.tick.minutes == most && e.time > base
    ensures !Bounded(Step(c, cfg, e).row, base, most)
  {
  }

  /** Under a constant policy the lifetime bound counted from the unextended session holds
      throughout exactly when every extension that was loaded while the session was queued
      is committed before the unextended session would have expired. */
  lemma {:induction false} BoundHoldsThroughoutIff(c: Clock, cfg: Settings, trace: seq<Timed>, base: int, most: int,
                                                   maxExtensions: int)
    requires AllBounded(c, base, most, maxExtensions) && most >= 1 && ExtendsBy(trace, most)
    ensures AlwaysBounded(c, cfg, trace, base, most) <==> CommitsInTime(c, cfg, trace, base)
    decreases trace
  {
    if trace == [] {
    } else {
      var e := trace[0];
      if CountsFromNow(c, e) && e.time > base {
        LateCommitBreaksBound(c, cfg, e, base, most, maxExtensions);
      } else {
        StepKeepsBounded(c, cfg, e, base, most, maxExtensions);
        assert ExtendsBy(trace[1..], most) by {
          assert forall i :: 0 <= i < |trace[1..]| ==> trace[1..][i] == trace[i + 1];
        }
        BoundHoldsThroughoutIff(Step(c, cfg, e), cfg, trace[1..], base, most, maxExtensions);
      }
    }
  }

  // ---------- What an extension gives ----------

  /** What the commit of an extension request does, however old the row it loaded: granted
      while that row had an extension left, it sets the expiry to `minutes` after the one
      it loaded, or after now if it loaded none, and the count to one more than the one it
      loaded; refused, it leaves the row alone.  It writes no other column, and not the
      expiry either when that is the one it loaded. */
  lemma CommitExtends(c: Clock, cfg: Settings, call: nat, now: int, minutes: int)
    requires call in c.loaded
    ensures var (loaded, c') := (c.loaded[call], Step(c, cfg, At(now, CommitExtend(call, minutes))));
            && c' == c.(row := c'.row, loaded := c.loaded - {call})
            && (loaded.extensionCount >= loaded.maxExtensions ==> c'.row == c.row)
            && (loaded.extensionCount < loaded.maxExtensions ==>
                  && (match loaded.expiresAt
                      case None => c'.row.expiresAt == Some(now + minutes * 60_000)
                      case Some(was) =>
                        c'.row.expiresAt == if minutes == 0 then c.row.expiresAt else Some(was + minutes * 60_000))
                  && c'.row.extensionCount == loaded.extensionCount + 1
                  && c'.row == c.row.(expiresAt := c'.row.expiresAt, extensionCount := c'.row.extensionCount))
  {
  }

  /** A request that is committed right after it was loaded puts the expiry off by exactly
      its minutes and uses up one extension, while one is left; then it changes nothing. */
  lemma PromptExtensionExtends(c: Clock, cfg: Settings, call: nat, loadedAt: int, now: int, minutes: int)
    ensures var c' := After(c, cfg, [At(loadedAt, LoadExtend(call)), At(now, CommitExtend(call, minutes))]);
            && c' == c.(row := c'.row, loaded := c.loaded - {call})
            && (c.row.extensionCount >= c.row.maxExtensions ==> c'.row == c.row)
            && (c.row.extensionCount < c.row.maxExtensions ==>
                  c'.row == c.row.(
                    expiresAt := Some(minutes * 60_000 + if c.row.expiresAt.Some? then c.row.expiresAt.value else now),
                    extensionCount := c.row.extensionCount + 1))
  {
    var (load, commit) := (At(loadedAt, LoadExtend(call)), At(now, CommitExtend(call, minutes)));
    var c1 := Step(c, cfg, load);
    assert [load, commit][1..] == [commit] && [commit][1..] == [];
    assert After(c, cfg, [load, commit]) == After(c1, cfg, [commit]) == Step(c1, cfg, commit);
    CommitExtends(c1, cfg, call, now, minutes);
    assert c1.loaded - {call} == c.loaded - {call};
  }

  /** Extension requests come one at a time, each for `minutes`; `open` has been loaded and
      not committed.  Everything else may happen in between. */
  predicate OneAtATime(trace: seq<Timed>, open: Option<nat>, minutes: int)
    decreases trace
  {
    trace == [] ||
    (match trace[0].tick
     case LoadExtend(call) => open.None? && OneAtATime(trace[1..], Some(call), minutes)
     case CommitExtend(call, m) => open == Some(call) && m == minutes && OneAtATime(trace[1..], None, minutes)
     case _ => OneAtATime(trace[1..], open, minutes))
  }

  /** How many requests are committed. */
  function Commits(trace: seq<Timed>): nat
    decreases trace
  {
    if trace == [] then 0 else (if trace[0].tick.CommitExtend? then 1 else 0) + Commits(trace[1..])
  }

  /** The request under way saw the expiry and the count that the row has. */
  predicate OpenIsFresh(c: Clock, open: Option<nat>) {
    open.Some? ==>
      && open.value in c.loaded
      && c.loaded[open.value].expiresAt == c.row.expiresAt
      && c.loaded[open.value].extensionCount == c.row.extensionCount
      && c.loaded[open.value].maxExtensions == c.row.maxExtensions
  }

  /** The extensions granted when `commits` requests find `count` of `most` used up. */
  function Granted(count: int, most: int, commits: nat): nat {
    if count >= most then 0 else if commits <= most - count then commits else most - count
  }

  lemma GrantsAddUp(expiry: int, granted: nat, minutes: int)
    ensures expiry + minutes * 60_000 + granted * (minutes * 60_000) == expiry + (granted + 1) * (minutes * 60_000)
  {
  }

  /** When requests come one at a time, every one of them is granted until none is left, and
      the expiry is the unextended one plus exactly `minutes` for each. */
  lemma {:induction false} ExtensionsAddUp(c: Clock, cfg: Settings, trace: seq<Timed>, open: Option<nat>, minutes: int)
    requires c.row.expiresAt.Some? && OneAtATime(trace, open, minutes) && OpenIsFresh(c, open)
    ensures var row := After(c, cfg, trace).row;
            var granted := Granted(c.row.extensionCount, c.row.maxExtensions, Commits(trace));
            && row.maxExtensions == c.row.maxExtensions
            && row.extensionCount == c.row.extensionCount + granted
            && row.expiresAt == Some(c.row.expiresAt.value + granted * (minutes * 60_000))
    decreases trace
  {
    if trace == [] {
    } else {
      var (e, rest) := (trace[0], trace[1..]);
      var c' := Step(c, cfg, e);
      if e.tick.CommitExtend? {
        CommitExtends(c, cfg, e.tick.call, e.time, minutes);
        ExtensionsAddUp(c', cfg, rest, None, minutes);
        GrantsAddUp(c.row.expiresAt.value, Granted(c'.row.extensionCount, c'.row.maxExtensions, Commits(rest)),
                    minutes);
      } else {
        SweepKeepsExpiry(c, cfg, e);
        ExtensionsAddUp(c', cfg, rest, if e.tick.LoadExtend? then Some(e.tick.call) else open, minutes);
      }
    }
  }

  /** So a session that has `used` extensions when it starts ends, unless it is stopped
      before, exactly its own length and its later extensions after its start. */
  lemma SessionLength(c: Clock, cfg: Settings, trace: seq<Timed>, start: int, minutes: int)
    requires Starts(c, start, cfg.policy.sessionMinutes) && OneAtATime(trace, None, minutes)
    ensures var row := After(c, cfg, trace).row;
            row.expiresAt == Some(start + cfg.policy.sessionMinutes * 60_000
                                  + (row.extensionCount - c.row.extensionCount) * (minutes * 60_000))
  {
    ExtensionsAddUp(c, cfg, trace, None, minutes);
  }

  /** Of two requests that loaded the same row, the first to commit is lost: both are
      granted, and the row ends up with the second extension only. */
  lemma FirstStaleExtensionIsLost(c: Clock, cfg: Settings, first: nat, second: nat, now: int, minutes: int, later: int,
                                  minutes': int)
    requires first != second && first in c.loaded && second in c.loaded && c.loaded[first] == c.loaded[second] == c.row
    requires c.row.expiresAt.Some? && c.row.extensionCount < c.row.maxExtensions && minutes' != 0
    ensures var c1 := Step(c, cfg, At(now, CommitExtend(first, minutes)));
            var c2 := Step(c1, cfg, At(later, CommitExtend(second, minutes')));
            && c1.row.expiresAt == Some(c.row.expiresAt.value + minutes * 60_000)
            && c2.row == c.row.(expiresAt := Some(c.row.expiresAt.value + minutes' * 60_000),
                                extensionCount := c.row.extensionCount + 1)
  {
    CommitExtends(c, cfg, first, now, minutes);
    var c1 := Step(c, cfg, At(now, CommitExtend(first, minutes)));
    CommitExtends(c1, cfg, second, later, minutes');
  }
}
