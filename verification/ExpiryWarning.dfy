/** The expiry warning, which is meant to fire once per session.  Nothing records that it has
    fired; what silences it is the mark of the idle warning. */
module ExpiryWarning {
  import opened Types
  import opened Scheduler
  import opened SessionClock

  predicate InExpiryWindow(row: Row, cfg: Settings, now: int) {
    && row.expiresAt.Some?
    && row.expiresAt.value - cfg.expiryWarningMinutes * MINUTE <= now < row.expiresAt.value
  }

  /** The sweep finds the session running in its expiry window. */
  predicate Finds(c: Clock, cfg: Settings, e: Timed) {
    e.tick.Sweep? && c.row.state.Running? && InExpiryWindow(c.row, cfg, e.time)
  }

  // ---------- The mark along a trace ----------

  /** A post that is recorded clears the mark, unless the row it loaded had none; a sweep that
      leaves the session running and finds it idle for the warning time sets it. */
  predicate MarkAfter(c: Clock, cfg: Settings, e: Timed, marked: bool) {
    if e.tick == Input(false) && Posts(c.lastSent, e.time) then false
    else if CommitsPost(c, e) then marked && c.posts[e.tick.call].row.idleWarningAt.None?
    else
      marked
      || (e.tick.Sweep? && c.row.state.Running? && StopsFor(c.row, cfg, e.time).None?
          && IdleFor(c.row, cfg.policy.idleWarningMinutes, e.time))
  }

  predicate Marked(c: Clock, cfg: Settings, trace: seq<Timed>, marked: bool)
    decreases trace
  {
    if trace == [] then marked
    else Marked(Step(c, cfg, trace[0]), cfg, trace[1..], MarkAfter(c, cfg, trace[0], marked))
  }

  lemma MarkStep(c: Clock, cfg: Settings, e: Timed)
    ensures Step(c, cfg, e).row.idleWarningAt.Some? <==> MarkAfter(c, cfg, e, c.row.idleWarningAt.Some?)
  {
  }

  lemma {:induction false} MarkAlong(c: Clock, cfg: Settings, trace: seq<Timed>)
    ensures After(c, cfg, trace).row.idleWarningAt.Some? <==> Marked(c, cfg, trace, c.row.idleWarningAt.Some?)
    decreases trace
  {
    if trace == [] {
    } else {
      MarkStep(c, cfg, trace[0]);
      MarkAlong(Step(c, cfg, trace[0]), cfg, trace[1..]);
    }
  }

  // ---------- How often it fires ----------

  /** The expiry warnings among the notices. */
  function Fired(notices: seq<Notice>): nat {
    if notices == [] then 0
    else Fired(notices[..|notices| - 1]) + if notices[|notices| - 1].event == ExpiryWarning then 1 else 0
  }

  lemma {:induction false} FiredBoth(a: seq<Notice>, b: seq<Notice>)
    ensures Fired(a + b) == Fired(a) + Fired(b)
    decreases |b|
  {
    if b == [] {
      assert a + b == a;
    } else {
      assert (a + b)[..|a + b| - 1] == a + b[..|b| - 1];
      FiredBoth(a, b[..|b| - 1]);
    }
  }

  lemma SweptEventsFire(row: Row, cfg: Settings, now: int)
    ensures Fired(NoticesOf(SweptEvents(0, row, cfg, now), now)) ==
            if InExpiryWindow(row, cfg, now) && row.idleWarningAt.None? then 1 else 0
  {
    var (early, late) := (EarlyEvents(0, row, cfg, now), LateEvents(0, row, cfg, now));
    assert NoticesOf(early + late, now) == NoticesOf(early, now) + NoticesOf(late, now);
    FiredBoth(NoticesOf(early, now), NoticesOf(late, now));
    assert early != [] ==> NoticesOf(early, now)[..0] == [];
    assert late != [] ==> NoticesOf(late, now)[..0] == [];
  }

  /** One event publishes one expiry warning, or none. */
  lemma StepFires(c: Clock, cfg: Settings, e: Timed)
    ensures Fired(Step(c, cfg, e).notices) ==
            Fired(c.notices) + if Finds(c, cfg, e) && c.row.idleWarningAt.None? then 1 else 0
  {
    if e.tick.Sweep? && c.row.state.Running? {
      SweptEventsFire(c.row, cfg, e.time);
      FiredBoth(c.notices, NoticesOf(SweptEvents(0, c.row, cfg, e.time), e.time));
    }
  }

  /** After any trace whatever, a sweep warns exactly when it finds the session running in
      its expiry window and the mark is clear. */
  lemma SweepWarnsIff(c: Clock, cfg: Settings, trace: seq<Timed>, now: int)
    ensures var mid := After(c, cfg, trace);
            var sweep := At(now, Sweep);
            Fired(Step(mid, cfg, sweep).notices) == Fired(mid.notices) +
              if Finds(mid, cfg, sweep) && !Marked(c, cfg, trace, c.row.idleWarningAt.Some?) then 1 else 0
  {
    MarkAlong(c, cfg, trace);
    StepFires(After(c, cfg, trace), cfg, At(now, Sweep));
  }

  // ---------- Once per session ----------

  /** The mark is set at every sweep that finds the session in its window. */
  predicate Silenced(c: Clock, cfg: Settings, trace: seq<Timed>, marked: bool)
    decreases trace
  {
    trace == [] ||
    ((Finds(c, cfg, trace[0]) ==> marked)
     && Silenced(Step(c, cfg, trace[0]), cfg, trace[1..], MarkAfter(c, cfg, trace[0], marked)))
  }

  /** After the first sweep that finds the session in its window without the mark, the mark
      is set at every later sweep that does. */
  predicate SilencedAfterFirst(c: Clock, cfg: Settings, trace: seq<Timed>, marked: bool)
    decreases trace
  {
    trace == [] ||
    var (c', marked') := (Step(c, cfg, trace[0]), MarkAfter(c, cfg, trace[0], marked));
    if Finds(c, cfg, trace[0]) && !marked then Silenced(c', cfg, trace[1..], marked')
    else SilencedAfterFirst(c', cfg, trace[1..], marked')
  }

  lemma {:induction false} SilentIff(c: Clock, cfg: Settings, trace: seq<Timed>, marked: bool)
    requires marked <==> c.row.idleWarningAt.Some?
    ensures Fired(After(c, cfg, trace).notices) >= Fired(c.notices)
    ensures Fired(After(c, cfg, trace).notices) == Fired(c.notices) <==> Silenced(c, cfg, trace, marked)
    decreases trace
  {
    if trace == [] {
    } else {
      StepFires(c, cfg, trace[0]);
      MarkStep(c, cfg, trace[0]);
      SilentIff(Step(c, cfg, trace[0]), cfg, trace[1..], MarkAfter(c, cfg, trace[0], marked));
    }
  }

  lemma {:induction false} FiresOnceIff(c: Clock, cfg: Settings, trace: seq<Timed>, marked: bool)
    requires marked <==> c.row.idleWarningAt.Some?
    ensures Fired(After(c, cfg, trace).notices) <= Fired(c.notices) + 1 <==> SilencedAfterFirst(c, cfg, trace, marked)
    decreases trace
  {
    if trace == [] {
    } else {
      StepFires(c, cfg, trace[0]);
      MarkStep(c, cfg, trace[0]);
      if Finds(c, cfg, trace[0]) && !marked {
        SilentIff(Step(c, cfg, trace[0]), cfg, trace[1..], MarkAfter(c, cfg, trace[0], marked));
      } else {
        FiresOnceIff(Step(c, cfg, trace[0]), cfg, trace[1..], MarkAfter(c, cfg, trace[0], marked));
      }
    }
  }

  /** A session is warned of its expiry at most once, exactly when from the first warning on
      the mark of the idle warning is set at every sweep that finds it in its window. */
  lemma WarnedOnceIff(c: Clock, cfg: Settings, trace: seq<Timed>)
    ensures Fired(After(c, cfg, trace).notices) <= Fired(c.notices) + 1 <==>
            SilencedAfterFirst(c, cfg, trace, c.row.idleWarningAt.Some?)
  {
    FiresOnceIff(c, cfg, trace, c.row.idleWarningAt.Some?);
  }

  /** Three sessions that are warned twice, all running in their window and warned now: when
      they are not idle, by the very next sweep; when they are, by the next after a post; and
      also when a sweep in between has been silent. */
  lemma ExpiryWarningRepeats(c: Clock, cfg: Settings, now: int, mid: int, later: int)
    requires c.row.state.Running? && WarnsOfExpiry(c.row, cfg, now) && StopsFor(c.row, cfg, now).None?
    requires now < mid <= later && InExpiryWindow(c.row, cfg, later) && Posts(c.lastSent, later)
    requires StopsFor(c.row, cfg, mid).None?
    ensures var twice := Fired(c.notices) + 2;
            var (sweep, between, post, last) :=
              ([At(now, Sweep)], [At(mid, Sweep)], [At(later, Input(false))], [At(later, Sweep)]);
            if IdleFor(c.row, cfg.policy.idleWarningMinutes, now) then
              && Fired(After(c, cfg, sweep + post + last).notices) == twice
              && Fired(After(c, cfg, sweep + between + post + last).notices) == twice
            else Fired(After(c, cfg, sweep + last).notices) == twice
  {
    var (sweep, between, post, last) :=
      ([At(now, Sweep)], [At(mid, Sweep)], [At(later, Input(false))], [At(later, Sweep)]);
    OneStep(c, cfg, sweep[0]);
    var c1 := Step(c, cfg, sweep[0]);
    StepFires(c, cfg, sweep[0]);
    if IdleFor(c.row, cfg.policy.idleWarningMinutes, now) {
      PostThenSweep(c1, cfg, later);
      AfterBoth(c, cfg, sweep, post + last);
      assert sweep + post + last == sweep + (post + last);
      var c2 := Step(c1, cfg, between[0]);
      OneStep(c1, cfg, between[0]);
      StepFires(c1, cfg, between[0]);
      PostThenSweep(c2, cfg, later);
      AfterBoth(c, cfg, sweep, between);
      AfterBoth(c, cfg, sweep + between, post + last);
      assert sweep + between + post + last == sweep + between + (post + last);
    } else {
      OneStep(c1, cfg, last[0]);
      StepFires(c1, cfg, last[0]);
      AfterBoth(c, cfg, sweep, last);
    }
  }

  lemma OneStep(c: Clock, cfg: Settings, e: Timed)
    ensures After(c, cfg, [e]) == Step(c, cfg, e)
  {
    assert [e][1..] == [] && After(Step(c, cfg, e), cfg, []) == Step(c, cfg, e);
  }

  /** A recorded post and a sweep at the same time warn once more. */
  lemma PostThenSweep(c: Clock, cfg: Settings, now: int)
    requires c.row.state.Running? && InExpiryWindow(c.row, cfg, now) && Posts(c.lastSent, now)
    ensures Fired(After(c, cfg, [At(now, Input(false))] + [At(now, Sweep)]).notices) == Fired(c.notices) + 1
  {
    var (post, sweep) := (At(now, Input(false)), At(now, Sweep));
    OneStep(c, cfg, post);
    OneStep(Step(c, cfg, post), cfg, sweep);
    AfterBoth(c, cfg, [post], [sweep]);
    StepFires(c, cfg, post);
    StepFires(Step(c, cfg, post), cfg, sweep);
  }
}
