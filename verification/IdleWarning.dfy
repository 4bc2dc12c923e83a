/** The idle warning and the idle stop: when a session that is stopped as idle was warned
    after its last activity. */
module IdleWarning {
  import opened Types
  import opened Scheduler
  import opened SessionClock

  // ---------- Sweeps along a trace ----------

  /** Consecutive sweeps are at most `gap` apart, counted from a sweep at `last`. */
  predicate SweepsWithin(trace: seq<Timed>, last: int, gap: int)
    decreases trace
  {
    trace == [] ||
    (if trace[0].tick.Sweep? then trace[0].time - last <= gap && SweepsWithin(trace[1..], trace[0].time, gap)
     else SweepsWithin(trace[1..], last, gap))
  }

  function SweepAfter(e: Timed, last: int): int {
    if e.tick.Sweep? then e.time else last
  }

  function LastSweep(trace: seq<Timed>, last: int): int
    decreases trace
  {
    if trace == [] then last else LastSweep(trace[1..], SweepAfter(trace[0], last))
  }

  lemma {:induction false} SweepsWithinBoth(a: seq<Timed>, b: seq<Timed>, last: int, gap: int)
    ensures SweepsWithin(a + b, last, gap) <==> SweepsWithin(a, last, gap) && SweepsWithin(b, LastSweep(a, last), gap)
    ensures LastSweep(a + b, last) == LastSweep(b, LastSweep(a, last))
    decreases a
  {
    if a == [] {
      assert a + b == b;
    } else {
      assert (a + b)[1..] == a[1..] + b;
      SweepsWithinBoth(a[1..], b, SweepAfter(a[0], last), gap);
    }
  }

  lemma {:induction false} SweptBefore(trace: seq<Timed>, from: int, last: int)
    requires Proceeds(trace, from) && last <= from
    ensures LastSweep(trace, last) <= EndTime(trace, from) && from <= EndTime(trace, from)
    decreases trace
  {
    if trace == [] {
    } else {
      SweptBefore(trace[1..], trace[0].time, SweepAfter(trace[0], last));
    }
  }

  // ---------- What a post can overlook ----------

  /** An idle warning has been published for a time after `since`. */
  predicate Warned(c: Clock, since: int) {
    exists i :: 0 <= i < |c.notices| && c.notices[i].event == IdleWarning && since < c.notices[i].time
  }

  function WarnTime(row: Row, cfg: Settings): int {
    LastActivity(row) + cfg.policy.idleWarningMinutes * MINUTE
  }

  /** The commit of a post overlooks that no warning has been given since the time it
      stamps: the idle mark stays, because it was set after the post had loaded the row; or
      the stamp is so old that a sweep has been past its warning time already. */
  predicate Overlooks(c: Clock, cfg: Settings, e: Timed, lastSweep: int) {
    CommitsPost(c, e) &&
    var row := PostedRow(c.posts[e.tick.call], c.row, e.tick.stamp);
    !Warned(c, LastActivity(row)) && (row.idleWarningAt.Some? || WarnTime(row, cfg) <= lastSweep)
  }

  predicate WarnsNow(c: Clock, cfg: Settings, e: Timed) {
    e.tick.Sweep? && c.row.state.Running? && StopsFor(c.row, cfg, e.time).None? && WarnsOfIdleness(c.row, cfg, e.time)
  }

  /** Whether the last recorded activity has been overlooked, and no warning has made up
      for it. */
  predicate OverlookedAfter(c: Clock, cfg: Settings, e: Timed, lastSweep: int, was: bool) {
    if CommitsPost(c, e) then Overlooks(c, cfg, e, lastSweep)
    else was && !(e.tick == Input(false) && Posts(c.lastSent, e.time)) && !WarnsNow(c, cfg, e)
  }

  predicate Overlooked(c: Clock, cfg: Settings, trace: seq<Timed>, lastSweep: int, was: bool)
    decreases trace
  {
    if trace == [] then was
    else Overlooked(Step(c, cfg, trace[0]), cfg, trace[1..], SweepAfter(trace[0], lastSweep),
                    OverlookedAfter(c, cfg, trace[0], lastSweep, was))
  }

  /** While the session runs: the user has not been warned since an activity that was
      overlooked; since any other, he has been, or no sweep has been past the warning time
      and the mark is clear. */
  predicate WarningTracked(c: Clock, cfg: Settings, lastSweep: int, overlooked: bool) {
    c.row.state.Running? ==>
      && c.row.lastActivityAt.Some?
      && (overlooked ==> !Warned(c, LastActivity(c.row)))
      && (!overlooked ==>
            Warned(c, LastActivity(c.row)) || (c.row.idleWarningAt.None? && lastSweep < WarnTime(c.row, cfg)))
  }

  /** A sweep that leaves the session running publishes an idle warning or changes nothing
      about idleness. */
  lemma SweepWarns(c: Clock, cfg: Settings, now: int, since: int)
    requires c.row.state.Running? && StopsFor(c.row, cfg, now).None?
    ensures Warned(Swept(c, cfg, now), since) <==>
      Warned(c, since) || (WarnsOfIdleness(c.row, cfg, now) && since < now)
  {
    var (c', events) := (Swept(c, cfg, now), SweptEvents(0, c.row, cfg, now));
    assert forall i :: 0 <= i < |c.notices| ==> c'.notices[i] == c.notices[i];
    assert forall i :: 0 <= i < |events| ==> c'.notices[|c.notices| + i] == Notice(events[i].kind, now);
    if WarnsOfIdleness(c.row, cfg, now) {
      assert events[|events| - 1].kind == IdleWarning;
      assert c'.notices[|c.notices| + |events| - 1] == Notice(IdleWarning, now);
    }
    if Warned(c, since) {
      var i :| 0 <= i < |c.notices| && c.notices[i].event == IdleWarning && since < c.notices[i].time;
      assert c'.notices[i].event == IdleWarning;
    }
    if Warned(c', since) {
      var i :| 0 <= i < |c'.notices| && c'.notices[i].event == IdleWarning && since < c'.notices[i].time;
      assert i >= |c.notices| ==> events[i - |c.notices|].kind == IdleWarning;
    }
  }

  lemma StepTracksWarning(c: Clock, cfg: Settings, e: Timed, lastSweep: int, was: bool)
    requires WarningTracked(c, cfg, lastSweep, was) && cfg.policy.idleWarningMinutes > 0 && lastSweep <= e.time
    requires e.tick.Depart? ==> !e.tick.state.Running?
    ensures WarningTracked(Step(c, cfg, e), cfg, SweepAfter(e, lastSweep), OverlookedAfter(c, cfg, e, lastSweep, was))
  {
    if e.tick.Sweep? {
      SweepTracksWarning(c, cfg, e.time, lastSweep, was);
    }
  }

  lemma SweepTracksWarning(c: Clock, cfg: Settings, now: int, lastSweep: int, was: bool)
    requires WarningTracked(c, cfg, lastSweep, was) && cfg.policy.idleWarningMinutes > 0 && lastSweep <= now
    ensures WarningTracked(Swept(c, cfg, now), cfg, now, was && !WarnsNow(c, cfg, At(now, Sweep)))
  {
    if c.row.state.Running? && StopsFor(c.row, cfg, now).None? {
      SweepWarns(c, cfg, now, LastActivity(c.row));
    }
  }

  lemma {:induction false} WarningTrackedAlong(c: Clock, cfg: Settings, trace: seq<Timed>, from: int, lastSweep: int,
                                               was: bool)
    requires WarningTracked(c, cfg, lastSweep, was) && cfg.policy.idleWarningMinutes > 0
    requires Proceeds(trace, from) && lastSweep <= from
    ensures WarningTracked(After(c, cfg, trace), cfg, LastSweep(trace, lastSweep),
                           Overlooked(c, cfg, trace, lastSweep, was))
    decreases trace
  {
    if trace == [] {
    } else {
      var e := trace[0];
      StepTracksWarning(c, cfg, e, lastSweep, was);
      WarningTrackedAlong(Step(c, cfg, e), cfg, trace[1..], e.time, SweepAfter(e, lastSweep),
                          OverlookedAfter(c, cfg, e, lastSweep, was));
    }
  }

  function Gap(cfg: Settings): int {
    (cfg.policy.idleTimeoutMinutes - cfg.policy.idleWarningMinutes) * MINUTE
  }

  /** A session at whose start the last sweep was not later, with sweeps at most timeout
      minus warning apart from then to `now`. */
  predicate WellSwept(c: Clock, cfg: Settings, trace: seq<Timed>, start: int, before: int, now: int) {
    && Starts(c, start, cfg.policy.sessionMinutes) && before <= start && cfg.policy.idleWarningMinutes > 0
    && Proceeds(trace + [At(now, Sweep)], start)
    && SweepsWithin(trace + [At(now, Sweep)], before, Gap(cfg))
  }

  /** Then a session that a sweep stops as idle was warned after its last activity, exactly
      when that activity was not overlooked by the post that recorded it. */
  lemma IdleStopIsSilentIff(c: Clock, cfg: Settings, trace: seq<Timed>, start: int, before: int, now: int)
    requires WellSwept(c, cfg, trace, start, before, now)
    ensures var end := After(c, cfg, trace);
            end.row.state.Running? && StopsFor(end.row, cfg, now) == Some(IdleTimeout) ==>
              (Warned(end, LastActivity(end.row)) <==> !Overlooked(c, cfg, trace, before, false))
  {
    ProceedsBoth(trace, [At(now, Sweep)], start);
    SweepsWithinBoth(trace, [At(now, Sweep)], before, Gap(cfg));
    WarningTrackedAlong(c, cfg, trace, start, before, false);
  }

  // ---------- No silent idle shutdown ----------

  /** Every post is committed before a sweep comes: `open` are those loaded since the last. */
  predicate PostsBetweenSweeps(trace: seq<Timed>, open: set<nat>)
    decreases trace
  {
    trace == [] ||
    match trace[0].tick
    case Sweep => PostsBetweenSweeps(trace[1..], {})
    case LoadPost(call) => PostsBetweenSweeps(trace[1..], open + {call})
    case CommitPost(call, _) => call in open && PostsBetweenSweeps(trace[1..], open)
    case _ => PostsBetweenSweeps(trace[1..], open)
  }

  /** The open posts were loaded after the last sweep, so they have seen its mark. */
  predicate OpenPosts(c: Clock, open: set<nat>, lastSweep: int) {
    forall call :: call in open && call in c.posts ==>
      lastSweep <= c.posts[call].at && (c.posts[call].row.idleWarningAt.None? ==> c.row.idleWarningAt.None?)
  }

  function OpenAfter(e: Timed, open: set<nat>): set<nat> {
    match e.tick
    case Sweep => {}
    case LoadPost(call) => open + {call}
    case _ => open
  }

  lemma StepKeepsOpen(c: Clock, cfg: Settings, e: Timed, open: set<nat>, lastSweep: int)
    requires OpenPosts(c, open, lastSweep) && lastSweep <= e.time
    ensures OpenPosts(Step(c, cfg, e), OpenAfter(e, open), SweepAfter(e, lastSweep))
  {
  }

  lemma OpenPostDoesNotOverlook(c: Clock, cfg: Settings, e: Timed, open: set<nat>, lastSweep: int)
    requires OpenPosts(c, open, lastSweep) && e.tick.CommitPost? && e.tick.call in open
    requires c.row.state.Running? && WarningTracked(c, cfg, lastSweep, false) && cfg.policy.idleWarningMinutes > 0
    ensures !Overlooks(c, cfg, e, lastSweep)
  {
  }

  lemma {:induction false} NothingOverlooked(c: Clock, cfg: Settings, trace: seq<Timed>, from: int, lastSweep: int,
                                             open: set<nat>)
    requires WarningTracked(c, cfg, lastSweep, false) && OpenPosts(c, open, lastSweep)
    requires cfg.policy.idleWarningMinutes > 0 && Proceeds(trace, from) && lastSweep <= from
    requires PostsBetweenSweeps(trace, open)
    ensures After(c, cfg, trace).row.state.Running? ==> !Overlooked(c, cfg, trace, lastSweep, false)
    decreases trace
  {
    if !c.row.state.Running? {
      NeverReturns(c, cfg, trace, from);
    } else if trace == [] {
    } else {
      var e := trace[0];
      StepKeepsOpen(c, cfg, e, open, lastSweep);
      StepTracksWarning(c, cfg, e, lastSweep, false);
      if e.tick.CommitPost? {
        OpenPostDoesNotOverlook(c, cfg, e, open, lastSweep);
      }
      NothingOverlooked(Step(c, cfg, e), cfg, trace[1..], e.time, SweepAfter(e, lastSweep), OpenAfter(e, open));
    }
  }

  /** In particular when no post is in flight across a sweep, every session a sweep stops as
      idle was warned after its last activity. */
  lemma NoSilentIdleShutdown(c: Clock, cfg: Settings, trace: seq<Timed>, start: int, before: int, now: int)
    requires WellSwept(c, cfg, trace, start, before, now) && PostsBetweenSweeps(trace, {})
    ensures var end := After(c, cfg, trace);
            end.row.state.Running? && StopsFor(end.row, cfg, now) == Some(IdleTimeout) ==>
              Warned(end, LastActivity(end.row))
  {
    IdleStopIsSilentIff(c, cfg, trace, start, before, now);
    ProceedsBoth(trace, [At(now, Sweep)], start);
    NothingOverlooked(c, cfg, trace, start, before, {});
  }

  // ---------- Silent stops ----------

  /** A sweep every millisecond, `n` of them from `from` on. */
  function Sweeps(from: int, n: nat): seq<Timed>
    decreases n
  {
    if n == 0 then [] else [At(from, Sweep)] + Sweeps(from + 1, n - 1)
  }

  lemma {:induction false} SweepsProceed(from: int, n: nat, last: int, gap: int)
    requires last <= from <= last + gap && gap >= 1
    ensures Proceeds(Sweeps(from, n), last) && SweepsWithin(Sweeps(from, n), last, gap)
    ensures EndTime(Sweeps(from, n), last) == LastSweep(Sweeps(from, n), last) == if n == 0 then last else from + n - 1
    decreases n
  {
    if n == 0 {
    } else {
      SweepsProceed(from + 1, n - 1, from, gap);
      assert Sweeps(from, n)[1..] == Sweeps(from + 1, n - 1);
    }
  }

  /** A sweep before the timeout, and before the warning time or with the mark set, leaves the
      row as it is and warns of no idleness. */
  lemma QuietSweep(c: Clock, cfg: Settings, now: int)
    requires c.row.state.Running? && c.row.expiresAt.Some? && now < c.row.expiresAt.value
    requires now < LastActivity(c.row) + cfg.policy.idleTimeoutMinutes * MINUTE
    requires c.row.idleWarningAt.Some? || now < WarnTime(c.row, cfg)
    ensures var c' := Swept(c, cfg, now);
            && c'.row == c.row && c'.posts == c.posts
            && (Warned(c', LastActivity(c.row)) <==> Warned(c, LastActivity(c.row)))
  {
    SweepWarns(c, cfg, now, LastActivity(c.row));
  }

  lemma SweepsFirst(c: Clock, cfg: Settings, from: int, n: nat)
    requires n > 0
    ensures After(c, cfg, Sweeps(from, n)) == After(Swept(c, cfg, from), cfg, Sweeps(from + 1, n - 1))
  {
    assert Sweeps(from, n)[1..] == Sweeps(from + 1, n - 1);
  }

  /** And so do any number of them. */
  lemma {:induction false} QuietSweeps(c: Clock, cfg: Settings, from: int, n: nat)
    requires c.row.state.Running? && c.row.expiresAt.Some? && from + n <= c.row.expiresAt.value
    requires from + n <= LastActivity(c.row) + cfg.policy.idleTimeoutMinutes * MINUTE
    requires c.row.idleWarningAt.Some? || from + n <= WarnTime(c.row, cfg)
    ensures var end := After(c, cfg, Sweeps(from, n));
            && end.row == c.row && end.posts == c.posts
            && (Warned(end, LastActivity(c.row)) <==> Warned(c, LastActivity(c.row)))
    decreases n
  {
    if n == 0 {
    } else {
      QuietSweep(c, cfg, from);
      SweepsFirst(c, cfg, from, n);
      QuietSweeps(Swept(c, cfg, from), cfg, from + 1, n - 1);
    }
  }

  /** The bound on the gap cannot be relaxed: under every policy, sweeps that are allowed
      to be one millisecond further apart can stop a session nobody was warned about. */
  lemma WiderGapsAreSilent(c: Clock, cfg: Settings, start: int)
    requires Starts(c, start, cfg.policy.sessionMinutes) && c.notices == []
    requires 0 < cfg.policy.idleWarningMinutes <= cfg.policy.idleTimeoutMinutes < cfg.policy.sessionMinutes
    ensures var warn, stop := cfg.policy.idleWarningMinutes * MINUTE, cfg.policy.idleTimeoutMinutes * MINUTE;
            var (trace, final) := (Sweeps(start, warn), [At(start + stop, Sweep)]);
            var end := After(c, cfg, trace);
            && Proceeds(trace + final, start) && SweepsWithin(trace + final, start, Gap(cfg) + 1)
            && end.row.state.Running? && StopsFor(end.row, cfg, start + stop) == Some(IdleTimeout)
            && !Warned(end, LastActivity(end.row))
  {
    var warn, stop := cfg.policy.idleWarningMinutes * MINUTE, cfg.policy.idleTimeoutMinutes * MINUTE;
    var (trace, final) := (Sweeps(start, warn), [At(start + stop, Sweep)]);
    QuietSweeps(c, cfg, start, warn);
    SweepsProceed(start, warn, start, Gap(cfg) + 1);
    assert final[1..] == [];
    ProceedsBoth(trace, final, start);
    SweepsWithinBoth(trace, final, start, Gap(cfg) + 1);
  }

  /** A post that loads the row, then a sweep that marks it, then the commit. */
  function LatePost(at: int): seq<Timed> {
    [At(at, LoadPost(0)), At(at, Sweep), At(at, CommitPost(0, at))]
  }

  lemma LatePostKeepsMark(c: Clock, cfg: Settings, at: int)
    requires c.row.state.Running? && c.row.expiresAt.Some? && at < c.row.expiresAt.value && !Warned(c, at)
    requires c.row.idleWarningAt.None? && at == WarnTime(c.row, cfg) && LastActivity(c.row) < at
    requires cfg.policy.idleWarningMinutes < cfg.policy.idleTimeoutMinutes && c.row.lastActivityAt.Some?
    ensures After(c, cfg, LatePost(at)).row == c.row.(idleWarningAt := Some(at), lastActivityAt := Some(at))
    ensures !Warned(After(c, cfg, LatePost(at)), at)
  {
    var trace := LatePost(at);
    var c1 := Step(c, cfg, trace[0]);
    var c2 := Step(c1, cfg, trace[1]);
    var c3 := Step(c2, cfg, trace[2]);
    SweepWarns(c1, cfg, at, at);
    assert trace[1..] == [trace[1], trace[2]] && trace[1..][1..] == [trace[2]] && [trace[2]][1..] == [];
    assert After(c2, cfg, [trace[2]]) == After(c3, cfg, []) == c3;
    assert After(c1, cfg, trace[1..]) == After(c2, cfg, [trace[2]]);
  }

  /** The condition on posts cannot be dropped either: under every policy, with a sweep every
      millisecond, a post that loads the row just before the sweep that marks it, and is
      committed just after, leads to a silent stop. */
  lemma StalePostIsSilent(c: Clock, cfg: Settings, start: int) returns (trace: seq<Timed>, now: int)
    requires Starts(c, start, cfg.policy.sessionMinutes) && c.notices == []
    requires 0 < cfg.policy.idleWarningMinutes < cfg.policy.idleTimeoutMinutes
    requires cfg.policy.idleWarningMinutes + cfg.policy.idleTimeoutMinutes < cfg.policy.sessionMinutes
    ensures WellSwept(c, cfg, trace, start, start, now)
    ensures var end := After(c, cfg, trace);
            && end.row.state.Running? && StopsFor(end.row, cfg, now) == Some(IdleTimeout)
            && !Warned(end, LastActivity(end.row))
  {
    var warn, stop := cfg.policy.idleWarningMinutes * MINUTE, cfg.policy.idleTimeoutMinutes * MINUTE;
    var at := start + warn;
    var (a, b, d) := (Sweeps(start, warn), LatePost(at), Sweeps(at + 1, stop - 1));
    now := at + stop;
    QuietSweeps(c, cfg, start, warn);
    var c1 := After(c, cfg, a);
    assert !Warned(c1, at);
    LatePostKeepsMark(c1, cfg, at);
    var c2 := After(c1, cfg, b);
    QuietSweeps(c2, cfg, at + 1, stop - 1);
    AfterBoth(c, cfg, a, b);
    AfterBoth(c, cfg, a + b, d);
    trace := a + b + d;
    StalePostTrace(cfg, start, warn, stop);
  }

  lemma LatePostProceeds(at: int, last: int, gap: int)
    requires last <= at <= last + gap
    ensures Proceeds(LatePost(at), last) && SweepsWithin(LatePost(at), last, gap)
    ensures EndTime(LatePost(at), last) == LastSweep(LatePost(at), last) == at
  {
    var b := LatePost(at);
    assert b[1..] == [b[1], b[2]] && b[1..][1..] == [b[2]] && [b[2]][1..] == [];
    assert Proceeds([b[2]], at) && EndTime([b[2]], at) == at;
    assert SweepsWithin([b[2]], at, gap) && LastSweep([b[2]], at) == at;
    assert Proceeds(b[1..], at) && EndTime(b[1..], at) == at;
    assert SweepsWithin(b[1..], last, gap) && LastSweep(b[1..], last) == at;
  }

  lemma StalePostTrace(cfg: Settings, start: int, warn: nat, stop: nat)
    requires warn >= 1 && stop >= 1 && Gap(cfg) >= 1
    ensures var trace := Sweeps(start, warn) + LatePost(start + warn) + Sweeps(start + warn + 1, stop - 1)
                         + [At(start + warn + stop, Sweep)];
            Proceeds(trace, start) && SweepsWithin(trace, start, Gap(cfg))
  {
    var (at, gap) := (start + warn, Gap(cfg));
    var (a, b, d, final) := (Sweeps(start, warn), LatePost(at), Sweeps(at + 1, stop - 1), [At(at + stop, Sweep)]);
    SweepsProceed(start, warn, start, gap);
    LatePostProceeds(at, at - 1, gap);
    SweepsProceed(at + 1, stop - 1, at, gap);
    assert final[1..] == [];
    ProceedsBoth(a, b, start);
    SweepsWithinBoth(a, b, start, gap);
    ProceedsBoth(a + b, d, start);
    SweepsWithinBoth(a + b, d, start, gap);
    ProceedsBoth(a + b + d, final, start);
    SweepsWithinBoth(a + b + d, final, start, gap);
  }
}
