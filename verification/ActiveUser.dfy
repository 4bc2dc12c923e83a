/** The browser's throttled heartbeat joined with the sweep: when a user who keeps typing is
    stopped as idle all the same, and what a lost heartbeat costs. */
module ActiveUser {
  import opened Types
  import opened Scheduler
  import opened SessionClock

  // ---------- The throttle ----------

  /** How many heartbeats the hook posts along a trace. */
  function PostCount(c: Clock, cfg: Settings, trace: seq<Timed>): nat
    decreases trace
  {
    if trace == [] then 0
    else (if trace[0].tick.Input? && Posts(c.lastSent, trace[0].time) then 1 else 0)
         + PostCount(Step(c, cfg, trace[0]), cfg, trace[1..])
  }

  /** However much the user types, posts are throttled to one in 30 seconds. */
  lemma {:induction false} PostsAreThrottled(c: Clock, cfg: Settings, trace: seq<Timed>, from: int)
    requires Proceeds(trace, from) && c.lastSent <= from
    ensures PostCount(c, cfg, trace) * HEARTBEAT <= EndTime(trace, from) - c.lastSent
    decreases trace
  {
    if trace == [] {
    } else {
      var (e, c') := (trace[0], Step(c, cfg, trace[0]));
      PostsAreThrottled(c', cfg, trace[1..], e.time);
      assert (PostCount(c', cfg, trace[1..]) + 1) * HEARTBEAT == PostCount(c', cfg, trace[1..]) * HEARTBEAT + HEARTBEAT;
    }
  }

  // ---------- A lost heartbeat is not retried ----------

  /** Every input of the trace comes before `t`. */
  predicate InputsBefore(trace: seq<Timed>, t: int) {
    forall i :: 0 <= i < |trace| && trace[i].tick.Input? ==> trace[i].time < t
  }

  /** No post that takes longer is committed. */
  predicate NoCommits(trace: seq<Timed>) {
    forall i :: 0 <= i < |trace| ==> !trace[i].tick.CommitPost?
  }

  lemma {:induction false} QuietUntil(c: Clock, cfg: Settings, trace: seq<Timed>)
    requires InputsBefore(trace, c.lastSent + HEARTBEAT)
    ensures After(c, cfg, trace).lastSent == c.lastSent
    ensures NoCommits(trace) ==> After(c, cfg, trace).row.lastActivityAt == c.row.lastActivityAt
    decreases trace
  {
    if trace == [] {
    } else {
      var (rest, c') := (trace[1..], Step(c, cfg, trace[0]));
      assert forall i :: 0 <= i < |rest| ==> rest[i] == trace[i + 1];
      assert c'.lastSent == c.lastSent;
      assert NoCommits(trace) ==> !trace[0].tick.CommitPost? && c'.row.lastActivityAt == c.row.lastActivityAt;
      QuietUntil(c', cfg, rest);
    }
  }

  /** After a post at `t` that is lost, whatever else happens and however many inputs come
      in the meantime, the next event does not retry it: an input at `u` posts exactly when
      30 seconds have passed since `t`.  Until one does and is not lost, the row shows the
      activity it showed before, unless some other post is committed. */
  lemma LostPostIsNotRetried(c: Clock, cfg: Settings, t: int, trace: seq<Timed>, u: int, lost: bool)
    requires Posts(c.lastSent, t) && InputsBefore(trace, t + HEARTBEAT)
    ensures var mid := After(Step(c, cfg, At(t, Input(true))), cfg, trace);
            var end := Step(mid, cfg, At(u, Input(lost)));
            && (Posts(mid.lastSent, u) <==> u - t >= HEARTBEAT)
            && (u - t >= HEARTBEAT && !lost ==> end.row.lastActivityAt == Some(u))
            && (u - t < HEARTBEAT || lost ==> end.row == mid.row)
            && (NoCommits(trace) ==> mid.row.lastActivityAt == c.row.lastActivityAt)
  {
    QuietUntil(Step(c, cfg, At(t, Input(true))), cfg, trace);
  }

  /** In particular the very next event, when it comes within 30 seconds of the lost post,
      leaves the row as if neither had happened. */
  lemma NextEventDoesNotRetry(c: Clock, cfg: Settings, t: int, u: int)
    requires Posts(c.lastSent, t) && t <= u < t + HEARTBEAT
    ensures var trace := [At(t, Input(true)), At(u, Input(false))];
            Proceeds(trace, t) && After(c, cfg, trace).row == c.row
  {
    var trace := [At(t, Input(true)), At(u, Input(false))];
    var (mid, end) := (Step(c, cfg, trace[0]), Step(Step(c, cfg, trace[0]), cfg, trace[1]));
    assert trace[1..] == [trace[1]] && [trace[1]][1..] == [];
    assert Proceeds([trace[1]], t) && Proceeds([], u);
    assert After(mid, cfg, [trace[1]]) == After(end, cfg, []);
  }

  // ---------- A user who keeps typing ----------

  /** Inputs keep coming, `last` being the latest so far: nothing in the trace happens
      more than `gap` after the input before it. */
  predicate KeepsTyping(trace: seq<Timed>, last: int, gap: int)
    decreases trace
  {
    trace == [] ||
    (trace[0].time - last <= gap && KeepsTyping(trace[1..], if trace[0].tick.Input? then trace[0].time else last, gap))
  }

  /** At most `most` posts in a row are lost, `lost` of them just before the trace. */
  predicate LosesAtMost(c: Clock, cfg: Settings, trace: seq<Timed>, lost: nat, most: nat)
    decreases trace
  {
    lost <= most &&
    (trace == [] || LosesAtMost(Step(c, cfg, trace[0]), cfg, trace[1..], LostAfter(c, trace[0], lost), most))
  }

  function LostAfter(c: Clock, e: Timed, lost: nat): nat {
    if e.tick.Input? && Posts(c.lastSent, e.time) then (if e.tick.lost then lost + 1 else 0) else lost
  }

  /** The commits of posts that take longer do not set the activity time back. */
  predicate StampsForward(c: Clock, cfg: Settings, trace: seq<Timed>)
    decreases trace
  {
    trace == [] || (Forward(c, trace[0]) && StampsForward(Step(c, cfg, trace[0]), cfg, trace[1..]))
  }

  predicate Forward(c: Clock, e: Timed) {
    CommitsPost(c, e) ==> LastActivity(PostedRow(c.posts[e.tick.call], c.row, e.tick.stamp)) >= LastActivity(c.row)
  }

  /** The longest a user can go between two posts: the last input that the throttle
      swallows, and one pause after it. */
  function Interval(gap: nat): nat {
    HEARTBEAT - 1 + gap
  }

  /** `anchor` is the last post, or the start of the session before the first one. */
  predicate Tracked(c: Clock, anchor: int, lastInput: int, lost: nat, gap: nat) {
    && c.row.lastActivityAt.Some?
    && c.lastSent <= anchor
    && lastInput < anchor + HEARTBEAT
    && anchor <= c.row.lastActivityAt.value + lost * Interval(gap)
  }

  function AnchorAfter(c: Clock, e: Timed, anchor: int): int {
    if e.tick.Input? && Posts(c.lastSent, e.time) then e.time else anchor
  }

  lemma StepKeepsTracked(c: Clock, cfg: Settings, e: Timed, anchor: int, lastInput: int, lost: nat, gap: nat)
    requires Tracked(c, anchor, lastInput, lost, gap) && e.time - lastInput <= gap && lastInput <= e.time
    requires Forward(c, e)
    ensures Tracked(Step(c, cfg, e), AnchorAfter(c, e, anchor), if e.tick.Input? then e.time else lastInput,
                    LostAfter(c, e, lost), gap)
  {
    if e.tick.Input? && Posts(c.lastSent, e.time) && e.tick.lost {
      assert (lost + 1) * Interval(gap) == lost * Interval(gap) + Interval(gap);
    }
  }

  lemma TrackedIsNotIdle(c: Clock, cfg: Settings, now: int, anchor: int, lastInput: int, lost: nat, most: nat, gap: nat)
    requires Tracked(c, anchor, lastInput, lost, gap) && now - lastInput <= gap && lost <= most
    requires (most + 1) * Interval(gap) < cfg.policy.idleTimeoutMinutes * MINUTE
    ensures StopsFor(c.row, cfg, now) != Some(IdleTimeout)
  {
    assert lost * Interval(gap) <= most * Interval(gap);
    assert (most + 1) * Interval(gap) == most * Interval(gap) + Interval(gap);
  }

  /** No sweep of the trace stops the session as idle. */
  predicate NeverIdleStopped(c: Clock, cfg: Settings, trace: seq<Timed>)
    decreases trace
  {
    trace == [] ||
    ((trace[0].tick.Sweep? && c.row.state.Running? ==> StopsFor(c.row, cfg, trace[0].time) != Some(IdleTimeout))
     && NeverIdleStopped(Step(c, cfg, trace[0]), cfg, trace[1..]))
  }

  lemma {:induction false} TrackedAlong(c: Clock, cfg: Settings, trace: seq<Timed>, from: int,
                                        anchor: int, lastInput: int, lost: nat, most: nat, gap: nat)
    requires Tracked(c, anchor, lastInput, lost, gap) && lastInput <= from
    requires Proceeds(trace, from) && KeepsTyping(trace, lastInput, gap) && LosesAtMost(c, cfg, trace, lost, most)
    requires StampsForward(c, cfg, trace)
    requires (most + 1) * Interval(gap) < cfg.policy.idleTimeoutMinutes * MINUTE
    ensures NeverIdleStopped(c, cfg, trace)
    decreases trace
  {
    if trace == [] {
    } else {
      var e := trace[0];
      TrackedIsNotIdle(c, cfg, e.time, anchor, lastInput, lost, most, gap);
      StepKeepsTracked(c, cfg, e, anchor, lastInput, lost, gap);
      TrackedAlong(Step(c, cfg, e), cfg, trace[1..], e.time, AnchorAfter(c, e, anchor),
                   if e.tick.Input? then e.time else lastInput, LostAfter(c, e, lost), most, gap);
    }
  }

  /** From a session start, a user who never pauses for more than `gap`, at most `most` of
      whose posts in a row are lost or late, and none so late that it sets the time back. */
  predicate Typing(c: Clock, cfg: Settings, trace: seq<Timed>, start: int, most: nat, gap: nat) {
    && Starts(c, start, cfg.policy.sessionMinutes)
    && Proceeds(trace, start) && KeepsTyping(trace, start, gap) && LosesAtMost(c, cfg, trace, 0, most)
    && StampsForward(c, cfg, trace)
  }

  /** Such a user is never stopped as idle when the timeout is longer than that many posts
      and one more can take. */
  lemma ActiveUsersAreNotIdleStopped(c: Clock, cfg: Settings, trace: seq<Timed>, start: int, most: nat, gap: nat)
    requires Typing(c, cfg, trace, start, most, gap)
    requires (most + 1) * Interval(gap) < cfg.policy.idleTimeoutMinutes * MINUTE
    ensures NeverIdleStopped(c, cfg, trace)
  {
    TrackedAlong(c, cfg, trace, start, start, start, 0, most, gap);
  }

  // ---------- The bound is exact ----------

  /** An input every millisecond, `n` of them from `from` on. */
  function Keystrokes(from: int, n: nat): seq<Timed>
    decreases n
  {
    if n == 0 then [] else [At(from, Input(false))] + Keystrokes(from + 1, n - 1)
  }

  /** What `Typing` says of a trace, from any clock on. */
  predicate TypesOn(c: Clock, cfg: Settings, trace: seq<Timed>, last: int, lost: nat, most: nat, gap: nat) {
    && Proceeds(trace, last) && KeepsTyping(trace, last, gap) && LosesAtMost(c, cfg, trace, lost, most)
    && StampsForward(c, cfg, trace)
  }

  /** An input put before a trace. */
  lemma InputFirst(c: Clock, cfg: Settings, e: Timed, rest: seq<Timed>, last: int, lost: nat, most: nat, gap: nat)
    requires e.tick.Input? && last <= e.time <= last + gap && lost <= most
    requires TypesOn(Step(c, cfg, e), cfg, rest, e.time, LostAfter(c, e, lost), most, gap)
    ensures TypesOn(c, cfg, [e] + rest, last, lost, most, gap)
    ensures NeverIdleStopped(c, cfg, [e] + rest) <==> NeverIdleStopped(Step(c, cfg, e), cfg, rest)
  {
    assert ([e] + rest)[1..] == rest;
  }

  lemma InputDropped(c: Clock, cfg: Settings, t: int)
    requires !Posts(c.lastSent, t)
    ensures Step(c, cfg, At(t, Input(false))) == c
  {
  }

  /** Inputs that the throttle swallows, put before a trace. */
  lemma {:induction false} Swallowed(c: Clock, cfg: Settings, from: int, n: nat, rest: seq<Timed>,
                                     lost: nat, most: nat, gap: nat)
    requires gap >= 1 && from + n <= c.lastSent + HEARTBEAT && lost <= most
    requires TypesOn(c, cfg, rest, from + n - 1, lost, most, gap)
    ensures TypesOn(c, cfg, Keystrokes(from, n) + rest, from - 1, lost, most, gap)
    ensures NeverIdleStopped(c, cfg, Keystrokes(from, n) + rest) <==> NeverIdleStopped(c, cfg, rest)
    decreases n
  {
    if n == 0 {
      assert Keystrokes(from, n) + rest == rest;
    } else {
      var (e, tail) := (At(from, Input(false)), Keystrokes(from + 1, n - 1) + rest);
      Swallowed(c, cfg, from + 1, n - 1, rest, lost, most, gap);
      InputDropped(c, cfg, from);
      InputFirst(c, cfg, e, tail, from - 1, lost, most, gap);
      assert [e] + tail == Keystrokes(from, n) + rest;
    }
  }

  /** From a post at `anchor`: typing, and a post that is lost as late as it can be, as often
      as there are losses left, and then a sweep. */
  function Losing(anchor: int, gap: nat, losses: nat): seq<Timed>
    decreases losses
  {
    Keystrokes(anchor + 1, HEARTBEAT - 1) +
    (if losses == 0 then [At(anchor + Interval(gap), Sweep)]
     else [At(anchor + Interval(gap), Input(true))] + Losing(anchor + Interval(gap), gap, losses - 1))
  }

  lemma FinalSweep(c: Clock, cfg: Settings, last: int, now: int, lost: nat, most: nat, gap: nat)
    requires last <= now <= last + gap && lost <= most && c.row.state.Running?
    requires IdleFor(c.row, cfg.policy.idleTimeoutMinutes, now) && !PastExpiry(c.row, now)
    ensures TypesOn(c, cfg, [At(now, Sweep)], last, lost, most, gap)
    ensures !NeverIdleStopped(c, cfg, [At(now, Sweep)])
  {
    assert [At(now, Sweep)][1..] == [];
    assert StopsFor(c.row, cfg, now) == Some(IdleTimeout);
  }

  lemma {:induction false} LosingIsStopped(c: Clock, cfg: Settings, anchor: int, gap: nat, lost: nat, losses: nat)
    requires gap >= 1 && c.lastSent == anchor && c.row.state.Running?
    requires c.row.lastActivityAt.Some? && anchor == c.row.lastActivityAt.value + lost * Interval(gap)
    requires (lost + losses + 1) * Interval(gap) >= cfg.policy.idleTimeoutMinutes * MINUTE
    requires c.row.expiresAt.Some?
    requires c.row.lastActivityAt.value + (lost + losses + 1) * Interval(gap) < c.row.expiresAt.value
    ensures TypesOn(c, cfg, Losing(anchor, gap, losses), anchor, lost, lost + losses, gap)
    ensures !NeverIdleStopped(c, cfg, Losing(anchor, gap, losses))
    decreases losses
  {
    var (most, last, time) := (lost + losses, anchor + HEARTBEAT - 1, anchor + Interval(gap));
    assert (lost + 1) * Interval(gap) == lost * Interval(gap) + Interval(gap);
    if losses == 0 {
      FinalSweep(c, cfg, last, time, lost, most, gap);
      Swallowed(c, cfg, anchor + 1, HEARTBEAT - 1, [At(time, Sweep)], lost, most, gap);
    } else {
      var e := At(time, Input(true));
      var next := Losing(time, gap, losses - 1);
      LosingIsStopped(Step(c, cfg, e), cfg, time, gap, lost + 1, losses - 1);
      InputFirst(c, cfg, e, next, last, lost, most, gap);
      Swallowed(c, cfg, anchor + 1, HEARTBEAT - 1, [e] + next, lost, most, gap);
    }
  }

  /** When an input of a user who types from the start of the session on first posts. */
  function FirstPost(c: Clock, start: int): int {
    if c.lastSent + HEARTBEAT <= start then start else c.lastSent + HEARTBEAT
  }

  /** Typing until a post is recorded, and then losing. */
  function TypeThenLose(c: Clock, start: int, gap: nat, losses: nat): seq<Timed> {
    var post := FirstPost(c, start);
    (if post == start then [] else Keystrokes(start + 1, post - start - 1))
    + ([At(post, Input(false))] + Losing(post, gap, losses))
  }

  lemma TypeThenLoseIsStopped(c: Clock, cfg: Settings, start: int, most: nat, gap: nat)
    requires Starts(c, start, cfg.policy.sessionMinutes) && gap >= 1
    requires FirstPost(c, start) + (most + 1) * Interval(gap) < start + cfg.policy.sessionMinutes * MINUTE
    requires (most + 1) * Interval(gap) >= cfg.policy.idleTimeoutMinutes * MINUTE
    ensures Typing(c, cfg, TypeThenLose(c, start, gap, most), start, most, gap)
    ensures !NeverIdleStopped(c, cfg, TypeThenLose(c, start, gap, most))
  {
    var post := FirstPost(c, start);
    var (e, lose) := (At(post, Input(false)), Losing(post, gap, most));
    LosingIsStopped(Step(c, cfg, e), cfg, post, gap, 0, most);
    if post == start {
      InputFirst(c, cfg, e, lose, start, 0, most, gap);
      assert [] + ([e] + lose) == [e] + lose;
    } else {
      InputFirst(c, cfg, e, lose, post - 1, 0, most, gap);
      Swallowed(c, cfg, start + 1, post - start - 1, [e] + lose, 0, most, gap);
    }
  }

  /** When the session is long enough and users pause at all, the condition is exact: every
      such user is safe if and only if the timeout is longer than that. */
  lemma ActiveUsersAreSafeIff(c: Clock, cfg: Settings, start: int, most: nat, gap: nat)
    requires Starts(c, start, cfg.policy.sessionMinutes) && gap >= 1
    requires FirstPost(c, start) + (most + 1) * Interval(gap) < start + cfg.policy.sessionMinutes * MINUTE
    ensures (forall trace :: Typing(c, cfg, trace, start, most, gap) ==> NeverIdleStopped(c, cfg, trace))
            <==> (most + 1) * Interval(gap) < cfg.policy.idleTimeoutMinutes * MINUTE
  {
    if (most + 1) * Interval(gap) < cfg.policy.idleTimeoutMinutes * MINUTE {
      forall trace | Typing(c, cfg, trace, start, most, gap)
        ensures NeverIdleStopped(c, cfg, trace)
      {
        ActiveUsersAreNotIdleStopped(c, cfg, trace, start, most, gap);
      }
    } else {
      TypeThenLoseIsStopped(c, cfg, start, most, gap);
    }
  }
}
