/** The fixed-window login limiter: INCR on a counter per address and user name, EXPIRE
    when the counter is new, DEL after a successful login.  Redis runs each command
    atomically; the commands of concurrent logins interleave freely. */
module RateLimit {
  import opened Types

  // Seconds, as given to EXPIRE.
  const WINDOW: int := 300
  const MAX_ATTEMPTS: int := 10

  /** A stored counter; `None` is a counter without a time to live. */
  datatype Counter = Counter(count: int, expiresAt: Option<int>)

  // The user name is in lower case already.
  datatype Key = Key(address: string, username: string)

  /** A counter whose time has come reads as absent. */
  function Present(c: Option<Counter>, now: int): Option<Counter> {
    match c
    case Some(Counter(_, Some(t))) => if now >= t then None else c
    case _ => c
  }

  function Incr(c: Option<Counter>, now: int): Counter {
    match Present(c, now)
    case Some(counter) => counter.(count := counter.count + 1)
    case None => Counter(1, None)
  }

  function Expire(c: Option<Counter>, now: int): Option<Counter> {
    match Present(c, now)
    case Some(counter) => Some(counter.(expiresAt := Some(now + WINDOW)))
    case None => None
  }

  predicate Passes(c: Option<Counter>, now: int) {
    Incr(c, now).count <= MAX_ATTEMPTS
  }

  class LoginLimiter {
    var counters: map<Key, Counter>

    constructor ()
      ensures counters == map[]
    {
      counters := map[];
    }

    /** `false` is the refusal with status 429.  Only this key's counter changes. */
    method CheckLogin(key: Key, now: int) returns (allowed: bool)
      modifies this
      ensures allowed == Passes(CounterIn(old(counters), key), now)
      ensures counters == AfterTry(old(counters), Try(key, now))
      // A live counter counts on and keeps its time to live; otherwise one starts, for 300 s.
      ensures var live := key in old(counters)
                          && (old(counters)[key].expiresAt.Some? ==> now < old(counters)[key].expiresAt.value);
              && (live ==>
                    var was := old(counters)[key];
                    && counters == old(counters)[key := Counter(was.count + 1, if was.count == 0 then Some(now + 300)
                                                                               else was.expiresAt)]
                    && (allowed <==> was.count < 10))
              && (!live ==> counters == old(counters)[key := Counter(1, Some(now + 300))] && allowed)
    {
      CheckCommandsRun(CounterIn(counters, key), now);
      var attempts := 1;
      if key in counters && (counters[key].expiresAt.None? || now < counters[key].expiresAt.value) {
        attempts := counters[key].count + 1;
        counters := counters[key := counters[key].(count := attempts)];
      } else {
        counters := counters[key := Counter(1, None)];
      }
      if attempts == 1 {
        counters := counters[key := counters[key].(expiresAt := Some(now + WINDOW))];
      }
      allowed := attempts <= MAX_ATTEMPTS;
    }

    method ResetLogin(key: Key)
      modifies this
      ensures counters == old(counters) - {key}
    {
      counters := counters - {key};
    }
  }

  // ---------- Traces of commands on one key ----------

  datatype Command = Attempt | SetExpiry | Reset

  datatype Timed = At(time: int, command: Command)

  function Execute(c: Option<Counter>, e: Timed): Option<Counter> {
    match e.command
    case Attempt => Some(Incr(c, e.time))
    case SetExpiry => Expire(c, e.time)
    case Reset => None
  }

  function Passed(c: Option<Counter>, trace: seq<Timed>): nat
    decreases trace
  {
    if trace == [] then 0
    else (if trace[0].command.Attempt? && Passes(c, trace[0].time) then 1 else 0)
         + Passed(Execute(c, trace[0]), trace[1..])
  }

  function Resets(trace: seq<Timed>): nat
    decreases trace
  {
    if trace == [] then 0 else (if trace[0].command.Reset? then 1 else 0) + Resets(trace[1..])
  }

  /** Times do not go back and stay within `from` and `until`. */
  predicate Within(trace: seq<Timed>, from: int, until: int)
    decreases trace
  {
    from <= until && (trace == [] || (from <= trace[0].time && Within(trace[1..], trace[0].time, until)))
  }

  function Ceiling(length: nat): nat {
    (length + WINDOW - 1) / WINDOW
  }

  /** The generations of the counter met so far since `start`: the counter found there and
      those created later.  Each new one has cost a reset or a full window. */
  predicate Paced(c: Option<Counter>, start: int, now: int, generations: nat, resets: nat) {
    && start <= now
    && (c.Some? && generations > 0 ==>
          && now > start + WINDOW * (generations - 2 - resets)
          && (c.value.expiresAt.Some? ==> c.value.expiresAt.value > start + WINDOW * (generations - 1 - resets)))
    && (c.None? ==> now > start + WINDOW * (generations - 1 - resets))
  }

  function GenerationsAfter(c: Option<Counter>, e: Timed, generations: nat): nat {
    if e.command.Attempt? && (Present(c, e.time).None? || generations == 0) then generations + 1 else generations
  }

  function ResetsAfter(e: Timed, resets: nat): nat {
    if e.command.Reset? then resets + 1 else resets
  }

  /** How many of the current generation's ten passes have been used since `start`. */
  function Spent(c: Option<Counter>): int {
    if c.Some? && c.value.count < MAX_ATTEMPTS then c.value.count else MAX_ATTEMPTS
  }

  predicate Budgeted(c: Option<Counter>, passed: nat, generations: nat) {
    && (c.Some? ==> c.value.count >= 0)
    && (generations == 0 ==> passed == 0)
    && (generations > 0 ==> passed <= MAX_ATTEMPTS * (generations - 1) + Spent(c))
  }

  lemma StepKeepsPace(c: Option<Counter>, e: Timed, start: int, now: int, generations: nat, resets: nat)
    requires Paced(c, start, now, generations, resets) && now <= e.time
    ensures Paced(Execute(c, e), start, e.time, GenerationsAfter(c, e, generations), ResetsAfter(e, resets))
  {
  }

  lemma StepKeepsBudget(c: Option<Counter>, e: Timed, passed: nat, generations: nat)
    requires Budgeted(c, passed, generations)
    ensures Budgeted(Execute(c, e), passed + (if e.command.Attempt? && Passes(c, e.time) then 1 else 0),
                     GenerationsAfter(c, e, generations))
  {
  }

  lemma {:induction false} PassesAreBounded(c: Option<Counter>, trace: seq<Timed>, start: int, now: int, until: int,
                                            passed: nat, generations: nat, resets: nat)
    requires Paced(c, start, now, generations, resets) && Budgeted(c, passed, generations) && Within(trace, now, until)
    ensures passed + Passed(c, trace) <= MAX_ATTEMPTS * (Ceiling(until - start) + 1 + resets + Resets(trace))
    decreases trace
  {
    if trace == [] {
      if generations > 0 {
        GenerationsFit(c, start, now, until, generations, resets);
      }
    } else {
      var e := trace[0];
      StepKeepsPace(c, e, start, now, generations, resets);
      StepKeepsBudget(c, e, passed, generations);
      PassesAreBounded(Execute(c, e), trace[1..], start, e.time, until,
                       passed + (if e.command.Attempt? && Passes(c, e.time) then 1 else 0),
                       GenerationsAfter(c, e, generations), ResetsAfter(e, resets));
    }
  }

  lemma GenerationsFit(c: Option<Counter>, start: int, now: int, until: int, generations: nat, resets: nat)
    requires Paced(c, start, now, generations, resets) && now <= until
    ensures generations <= Ceiling(until - start) + 1 + resets
  {
  }

  /** In any interval of `length` seconds in which a key is reset `r` times, at most
      10 * (ceil(length / 300) + 1 + r) checks of that key pass, whatever counter the
      interval starts with and however the commands of concurrent logins interleave. */
  lemma PassesInAnyInterval(c: Option<Counter>, trace: seq<Timed>, start: int, length: nat)
    requires Within(trace, start, start + length) && (c.Some? ==> c.value.count >= 0)
    ensures Passed(c, trace) <= MAX_ATTEMPTS * (Ceiling(length) + 1 + Resets(trace))
  {
    PassesAreBounded(c, trace, start, start, start + length, 0, 0, 0);
  }

  /** The commands of a login check made without interruption. */
  function CheckCommands(c: Option<Counter>, now: int): seq<Timed> {
    if Incr(c, now).count == 1 then [At(now, Attempt), At(now, SetExpiry)] else [At(now, Attempt)]
  }

  function ExecuteAll(c: Option<Counter>, trace: seq<Timed>): Option<Counter>
    decreases trace
  {
    if trace == [] then c else ExecuteAll(Execute(c, trace[0]), trace[1..])
  }

  function Attempts(trace: seq<Timed>): nat
    decreases trace
  {
    if trace == [] then 0 else (if trace[0].command.Attempt? then 1 else 0) + Attempts(trace[1..])
  }

  function Used(c: Option<Counter>): int {
    if c.Some? then c.value.count else 0
  }

  function Min(a: int, b: int): int {
    if a < b then a else b
  }

  function Left(c: Option<Counter>): int {
    if Used(c) < MAX_ATTEMPTS then MAX_ATTEMPTS - Used(c) else 0
  }

  /** In less than a window without resets and with a counter that does not expire, exactly
      the attempts that are left pass: none too few, none too many. */
  lemma {:induction false} WindowPassesExactly(c: Option<Counter>, trace: seq<Timed>, from: int, until: int)
    requires Within(trace, from, until) && until - from < WINDOW && Resets(trace) == 0 && Used(c) >= 0
    requires c.Some? && c.value.expiresAt.Some? ==> until < c.value.expiresAt.value
    ensures Passed(c, trace) == Min(Attempts(trace), Left(c))
    decreases trace
  {
    if trace == [] {
    } else {
      WithinUntil(trace, from, until);
      WindowPassesExactly(Execute(c, trace[0]), trace[1..], trace[0].time, until);
    }
  }

  lemma {:induction false} WithinUntil(trace: seq<Timed>, from: int, until: int)
    requires Within(trace, from, until) && trace != []
    ensures from <= trace[0].time <= until
    decreases trace
  {
    if trace[1..] == [] {
    } else {
      WithinUntil(trace[1..], trace[0].time, until);
    }
  }

  lemma CheckCommandsRun(c: Option<Counter>, now: int)
    ensures var counter := Incr(c, now);
            ExecuteAll(c, CheckCommands(c, now)) ==
            if counter.count == 1 then Expire(Some(counter), now) else Some(counter)
  {
    var first := Execute(c, At(now, Attempt));
    var second := Execute(first, At(now, SetExpiry));
    if Incr(c, now).count == 1 {
      assert [At(now, Attempt), At(now, SetExpiry)][1..] == [At(now, SetExpiry)];
      assert [At(now, SetExpiry)][1..] == [] && ExecuteAll(first, [At(now, SetExpiry)]) == ExecuteAll(second, []);
    } else {
      assert [At(now, Attempt)][1..] == [] && ExecuteAll(c, [At(now, Attempt)]) == ExecuteAll(first, []);
    }
  }

  // ---------- When refusals end ----------

  predicate OnlyAttempts(trace: seq<Timed>) {
    forall i :: 0 <= i < |trace| ==> trace[i].command.Attempt?
  }

  predicate Before(trace: seq<Timed>, t: int) {
    forall i :: 0 <= i < |trace| ==> trace[i].time < t
  }

  /** A counter with a time to live lets the first attempt at or after its end pass, however
      many attempts have been made before. */
  lemma {:induction false} FirstAttemptAfterExpiryPasses(c: Option<Counter>, trace: seq<Timed>, t: int, later: int)
    requires c.Some? && c.value.expiresAt == Some(t) && OnlyAttempts(trace) && Before(trace, t) && later >= t
    ensures Passes(ExecuteAll(c, trace), later)
    decreases trace
  {
    if trace == [] {
    } else {
      var rest := trace[1..];
      assert forall i :: 0 <= i < |rest| ==> rest[i] == trace[i + 1];
      FirstAttemptAfterExpiryPasses(Execute(c, trace[0]), rest, t, later);
    }
  }

  /** A login request seen whole: its check, or the reset after a success. */
  datatype Call = Check(time: int) | Clear(time: int)

  function AfterCall(c: Option<Counter>, call: Call): Option<Counter> {
    match call
    case Check(time) => ExecuteAll(c, CheckCommands(c, time))
    case Clear(_) => None
  }

  function AfterCalls(c: Option<Counter>, calls: seq<Call>): Option<Counter>
    decreases calls
  {
    if calls == [] then c else AfterCalls(AfterCall(c, calls[0]), calls[1..])
  }

  predicate CallsWithin(calls: seq<Call>, from: int, until: int)
    decreases calls
  {
    from <= until && (calls == [] || (from <= calls[0].time && CallsWithin(calls[1..], calls[0].time, until)))
  }

  /** A counter that is there has a time to live, of at most a window from now. */
  predicate Limited(c: Option<Counter>, now: int) {
    c.Some? ==> c.value.count >= 1 && c.value.expiresAt.Some? && c.value.expiresAt.value <= now + WINDOW
  }

  lemma {:induction false} CallsKeepLimited(c: Option<Counter>, calls: seq<Call>, from: int, until: int)
    requires Limited(c, from) && CallsWithin(calls, from, until)
    ensures Limited(AfterCalls(c, calls), until)
    decreases calls
  {
    if calls == [] {
    } else {
      if calls[0].Check? {
        CheckCommandsRun(c, calls[0].time);
      }
      CallsKeepLimited(AfterCall(c, calls[0]), calls[1..], calls[0].time, until);
    }
  }

  /** When no check is cut short, no key is refused for more than a window: after any
      calls, and whatever attempts follow, a time at most a window away comes from which
      the next attempt passes. */
  lemma RefusalsEnd(calls: seq<Call>, from: int, now: int, trace: seq<Timed>, later: int)
    requires CallsWithin(calls, from, now) && OnlyAttempts(trace)
    ensures var c := AfterCalls(None, calls);
            && Limited(c, now)
            && (c.Some? && Before(trace, c.value.expiresAt.value) && later >= c.value.expiresAt.value ==>
                  Passes(ExecuteAll(c, trace), later))
  {
    CallsKeepLimited(None, calls, from, now);
    var c := AfterCalls(None, calls);
    if c.Some? && Before(trace, c.value.expiresAt.value) && later >= c.value.expiresAt.value {
      FirstAttemptAfterExpiryPasses(c, trace, c.value.expiresAt.value, later);
    }
  }

  // ---------- When they do not ----------

  /** At the limit, and without a time to live. */
  predicate Stuck(c: Option<Counter>) {
    c.Some? && c.value.expiresAt.None? && c.value.count >= MAX_ATTEMPTS
  }

  lemma {:induction false} StuckRefuses(c: Option<Counter>, trace: seq<Timed>)
    requires Stuck(c) && OnlyAttempts(trace)
    ensures Passed(c, trace) == 0 && Stuck(ExecuteAll(c, trace))
    decreases trace
  {
    if trace == [] {
    } else {
      var rest := trace[1..];
      assert forall i :: 0 <= i < |rest| ==> rest[i] == trace[i + 1];
      StuckRefuses(Execute(c, trace[0]), rest);
    }
  }

  predicate NotBefore(trace: seq<Timed>, t: int) {
    forall i :: 0 <= i < |trace| ==> t <= trace[i].time
  }

  ghost predicate RefusedForGood(c: Option<Counter>, now: int) {
    forall trace :: OnlyAttempts(trace) && NotBefore(trace, now) ==> Passed(c, trace) == 0
  }

  /** A key is refused for good, however long its user waits and however often he tries,
      exactly when its counter is at the limit and has no time to live. */
  lemma RefusedForGoodIff(c: Option<Counter>, now: int)
    ensures RefusedForGood(c, now) <==> Stuck(c)
  {
    if Stuck(c) {
      forall trace | OnlyAttempts(trace)
        ensures Passed(c, trace) == 0
      {
        StuckRefuses(c, trace);
      }
    } else {
      var ends := c.Some? && c.value.expiresAt.Some? && c.value.expiresAt.value > now;
      var late := if ends then c.value.expiresAt.value else now;
      var trace := [At(late, Attempt)];
      assert OnlyAttempts(trace) && Passes(c, late) && Passed(c, trace) >= 1;
    }
  }

  /** Only a reset, or an EXPIRE that comes after all, ends it. */
  lemma StuckEnds(c: Option<Counter>, e: Timed, trace: seq<Timed>, later: int)
    requires Stuck(c) && OnlyAttempts(trace)
    ensures e.command.Attempt? ==> Stuck(Execute(c, e))
    ensures e.command.Reset? ==> Passes(Execute(c, e), later)
    ensures e.command.SetExpiry? && Before(trace, e.time + WINDOW) && later >= e.time + WINDOW ==>
              Passes(ExecuteAll(Execute(c, e), trace), later)
  {
    if e.command.SetExpiry? && Before(trace, e.time + WINDOW) && later >= e.time + WINDOW {
      FirstAttemptAfterExpiryPasses(Execute(c, e), trace, e.time + WINDOW, later);
    }
  }

  /** A client that is cut off between its INCR and its EXPIRE locks the user out: of all
      attempts ever made after that, the first ten pass and no other. */
  lemma {:induction false} LostExpireLocksOut(c: Option<Counter>, trace: seq<Timed>)
    requires (c.Some? ==> c.value.expiresAt.None? && c.value.count >= 1) && OnlyAttempts(trace)
    ensures Passed(c, trace) == Min(|trace|, Left(c))
    decreases trace
  {
    if trace == [] {
    } else {
      var rest := trace[1..];
      assert forall i :: 0 <= i < |rest| ==> rest[i] == trace[i + 1];
      LostExpireLocksOut(Execute(c, trace[0]), rest);
    }
  }

  // ---------- Many names, many addresses ----------

  datatype Try = Try(key: Key, time: int)

  function CounterIn(counters: map<Key, Counter>, key: Key): Option<Counter> {
    if key in counters then Some(counters[key]) else None
  }

  /** One uninterrupted check among all counters. */
  function AfterTry(counters: map<Key, Counter>, t: Try): map<Key, Counter> {
    var c := CounterIn(counters, t.key);
    match ExecuteAll(c, CheckCommands(c, t.time))
    case Some(counter) => counters[t.key := counter]
    case None => counters - {t.key}
  }

  /** What the limiter sees: a check, or the reset after a success. */
  datatype Login = Tried(check: Try) | Cleared(key: Key, time: int)

  function AfterLogin(counters: map<Key, Counter>, login: Login): map<Key, Counter> {
    match login
    case Tried(t) => AfterTry(counters, t)
    case Cleared(key, _) => counters - {key}
  }

  function AfterLogins(counters: map<Key, Counter>, logins: seq<Login>): map<Key, Counter> {
    if logins == [] then counters
    else AfterLogin(AfterLogins(counters, logins[..|logins| - 1]), logins[|logins| - 1])
  }

  /** The tries of a key since its last reset, `before` of them before the logins. */
  function TriesSince(before: nat, logins: seq<Login>, key: Key): nat {
    if logins == [] then before
    else TriesAfter(TriesSince(before, logins[..|logins| - 1], key), logins[|logins| - 1], key)
  }

  function TriesAfter(count: nat, login: Login, key: Key): nat {
    match login
    case Tried(t) => if t.key == key then count + 1 else count
    case Cleared(k, _) => if k == key then 0 else count
  }

  function TimeOf(login: Login): int {
    match login
    case Tried(t) => t.time
    case Cleared(_, time) => time
  }

  predicate InWindow(logins: seq<Login>, from: int) {
    forall i :: 0 <= i < |logins| ==> from <= TimeOf(logins[i]) < from + WINDOW
  }

  /** The key's counter shows `count` tries, and lasts for the window from `from` on. */
  predicate Shows(counters: map<Key, Counter>, key: Key, count: nat, from: int) {
    var c := CounterIn(counters, key);
    && (c.Some? <==> count > 0)
    && (c.Some? ==> c.value.count == count && (c.value.expiresAt.Some? ==> c.value.expiresAt.value >= from + WINDOW))
  }

  lemma LoginShows(counters: map<Key, Counter>, login: Login, key: Key, count: nat, from: int)
    requires Shows(counters, key, count, from) && from <= TimeOf(login) < from + WINDOW
    ensures Shows(AfterLogin(counters, login), key, TriesAfter(count, login, key), from)
  {
    if login.Tried? {
      CheckCommandsRun(CounterIn(counters, login.check.key), login.check.time);
    }
  }

  /** Within one window each counter counts the tries of its own key since its last reset. */
  lemma {:induction false} CountersCountTries(counters: map<Key, Counter>, logins: seq<Login>, key: Key, count: nat,
                                              from: int)
    requires Shows(counters, key, count, from) && InWindow(logins, from)
    ensures Shows(AfterLogins(counters, logins), key, TriesSince(count, logins, key), from)
    decreases |logins|
  {
    if logins == [] {
    } else {
      var (rest, last) := (logins[..|logins| - 1], logins[|logins| - 1]);
      CountersCountTries(counters, rest, key, count, from);
      LoginShows(AfterLogins(counters, rest), last, key, TriesSince(count, rest, key), from);
    }
  }

  /** Within a window, whatever else is tried or reset, a check is refused exactly when its own
      address has tried its own name ten times since that pair's last reset: neither one
      address trying many names nor many addresses trying one name is refused for that. */
  lemma TryRefusedIff(counters: map<Key, Counter>, logins: seq<Login>, t: Try, count: nat, from: int)
    requires Shows(counters, t.key, count, from) && InWindow(logins, from) && from <= t.time < from + WINDOW
    ensures !Passes(CounterIn(AfterLogins(counters, logins), t.key), t.time) <==>
            TriesSince(count, logins, t.key) >= MAX_ATTEMPTS
  {
    CountersCountTries(counters, logins, t.key, count, from);
  }

  /** In particular from no counters at all. */
  lemma NoCountersShow(key: Key, from: int)
    ensures Shows(map[], key, 0, from)
  {
  }
}
