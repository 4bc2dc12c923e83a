/** VNC ports and overlay files.  The ports in use are one Redis set shared by
    every worker; each Redis command is atomic, but the commands of other
    clients may run between two commands of the same allocation. */
module OverlayManager {
  import opened Types

  const PORT_MIN: int := 5900
  const PORT_MAX: int := 6900

  datatype PortCommand = Sadd(port: int) | Srem(port: int)

  function Execute(inUse: set<int>, command: PortCommand): set<int> {
    match command
    case Sadd(p) => inUse + {p}
    case Srem(p) => inUse - {p}
  }

  /** What the other clients do just before each of this client's commands. */
  type Interference = nat -> seq<PortCommand>

  ghost predicate Alone(others: Interference) {
    forall k: nat :: others(k) == []
  }

  ghost predicate NoRelease(others: Interference) {
    forall k: nat :: AllClaims(others(k))
  }

  /** The set after a log of commands, its last command last. */
  function Replay(ports: set<int>, log: seq<PortCommand>): set<int> {
    if log == [] then ports else Execute(Replay(ports, log[..|log| - 1]), log[|log| - 1])
  }

  /** Port `q` was in the set at some moment of the log, its beginning and end included. */
  ghost predicate SeenDuring(ports: set<int>, log: seq<PortCommand>, q: int) {
    exists k :: 0 <= k <= |log| && q in Replay(ports, log[..k])
  }

  ghost predicate AllSeenDuring(ports: set<int>, log: seq<PortCommand>, limit: int) {
    forall q :: PORT_MIN <= q < limit ==> SeenDuring(ports, log, q)
  }

  /** The last command on `q` in the log releases it. */
  predicate ReleasedLast(log: seq<PortCommand>, q: int) {
    log != [] &&
    (if log[|log| - 1].port == q then log[|log| - 1].Srem? else ReleasedLast(log[..|log| - 1], q))
  }

  ghost predicate NoneReleasedLast(log: seq<PortCommand>, limit: int) {
    forall q :: PORT_MIN <= q < limit ==> !ReleasedLast(log, q)
  }

  predicate LeastFree(ports: set<int>, p: int) {
    PORT_MIN <= p < PORT_MAX && p !in ports && forall q :: PORT_MIN <= q < p ==> q in ports
  }

  predicate RangeFull(ports: set<int>) {
    forall q :: PORT_MIN <= q < PORT_MAX ==> q in ports
  }

  lemma {:induction false} ReplaySplits(ports: set<int>, log: seq<PortCommand>, more: seq<PortCommand>)
    ensures Replay(ports, log + more) == Replay(Replay(ports, log), more)
    decreases |more|
  {
    if more == [] {
      assert log + more == log;
    } else {
      var n := |more| - 1;
      ReplaySplits(ports, log, more[..n]);
      assert (log + more)[..|log + more| - 1] == log + more[..n];
    }
  }

  /** A port seen in use during a log is in use at its end exactly when the last command
      on it is not a release. */
  lemma {:induction false} InUseIffNotReleasedLast(ports: set<int>, log: seq<PortCommand>, q: int)
    requires SeenDuring(ports, log, q)
    ensures q in Replay(ports, log) <==> !ReleasedLast(log, q)
    decreases |log|
  {
    var k :| 0 <= k <= |log| && q in Replay(ports, log[..k]);
    if log == [] {
      assert log[..k] == log;
    } else if log[|log| - 1].port != q {
      var n := |log| - 1;
      assert k == |log| ==> log[..k] == log;
      var j := if k == |log| then n else k;
      assert log[..n][..j] == log[..j];
      InUseIffNotReleasedLast(ports, log[..n], q);
    }
  }

  /** What was seen during a log is seen during a longer one. */
  lemma StillSeen(ports: set<int>, log: seq<PortCommand>, more: seq<PortCommand>, q: int)
    requires SeenDuring(ports, log, q)
    ensures SeenDuring(ports, log + more, q)
  {
    var k :| 0 <= k <= |log| && q in Replay(ports, log[..k]);
    assert (log + more)[..k] == log[..k];
  }

  lemma SeenAtEnd(ports: set<int>, log: seq<PortCommand>, q: int)
    requires q in Replay(ports, log)
    ensures SeenDuring(ports, log, q)
  {
    assert log[..|log|] == log;
  }

  /** When every lower port has been seen in use, a free port is the least free one
      exactly when no lower port was released last. */
  lemma LeastFreeIffNoneReleased(ports: set<int>, log: seq<PortCommand>, p: int)
    requires AllSeenDuring(ports, log, p) && PORT_MIN <= p < PORT_MAX && p !in Replay(ports, log)
    ensures LeastFree(Replay(ports, log), p) <==> NoneReleasedLast(log, p)
  {
    forall q | PORT_MIN <= q < p
      ensures q in Replay(ports, log) <==> !ReleasedLast(log, q)
    {
      InUseIffNotReleasedLast(ports, log, q);
    }
  }

  lemma RangeFullIffNoneReleased(ports: set<int>, log: seq<PortCommand>)
    requires AllSeenDuring(ports, log, PORT_MAX)
    ensures RangeFull(Replay(ports, log)) <==> NoneReleasedLast(log, PORT_MAX)
  {
    forall q | PORT_MIN <= q < PORT_MAX
      ensures q in Replay(ports, log) <==> !ReleasedLast(log, q)
    {
      InUseIffNotReleasedLast(ports, log, q);
    }
  }

  predicate AllClaims(log: seq<PortCommand>) {
    forall i :: 0 <= i < |log| ==> log[i].Sadd?
  }

  lemma {:induction false} NoReleaseInLog(log: seq<PortCommand>)
    ensures AllClaims(log) ==> forall q :: !ReleasedLast(log, q)
    decreases |log|
  {
    if log == [] {
    } else {
      NoReleaseInLog(log[..|log| - 1]);
    }
  }

  /** `p` is claimed by the last command of the log: it was free, every lower port has been
      seen in use, and `p` was the least free port exactly when no lower port had been
      released last; in particular when nothing was released at all. */
  ghost predicate Claims(start: set<int>, log: seq<PortCommand>, p: int) {
    && PORT_MIN <= p < PORT_MAX
    && log != [] && log[|log| - 1] == Sadd(p)
    && var before := log[..|log| - 1];
       && p !in Replay(start, before)
       && AllSeenDuring(start, before, p)
       && (LeastFree(Replay(start, before), p) <==> NoneReleasedLast(before, p))
       && (AllClaims(before) ==> LeastFree(Replay(start, before), p))
  }

  /** Every port of the range has been seen in use, and the range is full exactly when none
      of them was released last. */
  ghost predicate Exhausts(start: set<int>, log: seq<PortCommand>) {
    && AllSeenDuring(start, log, PORT_MAX)
    && (RangeFull(Replay(start, log)) <==> NoneReleasedLast(log, PORT_MAX))
    && (AllClaims(log) ==> RangeFull(Replay(start, log)))
  }

  lemma SeenAllExhausts(start: set<int>, log: seq<PortCommand>)
    requires AllSeenDuring(start, log, PORT_MAX)
    ensures Exhausts(start, log)
  {
    RangeFullIffNoneReleased(start, log);
    NoReleaseInLog(log);
  }

  /** Every port of the snapshot, and every port the scan has passed over, has been seen
      in use. */
  ghost predicate Scanned(start: set<int>, snapshot: set<int>, log: seq<PortCommand>, cursor: int) {
    (forall q :: q in snapshot ==> SeenDuring(start, log, q)) && AllSeenDuring(start, log, cursor)
  }

  lemma ScanBegins(start: set<int>, log: seq<PortCommand>)
    ensures Scanned(start, Replay(start, log), log, PORT_MIN)
  {
    forall q | q in Replay(start, log) {
      SeenAtEnd(start, log, q);
    }
  }

  lemma StillScanned(start: set<int>, snapshot: set<int>, log: seq<PortCommand>, more: seq<PortCommand>, cursor: int)
    requires Scanned(start, snapshot, log, cursor)
    ensures Scanned(start, snapshot, log + more, cursor)
  {
    forall q | SeenDuring(start, log, q) {
      StillSeen(start, log, more, q);
    }
  }

  lemma SeenBefore(ports: set<int>, log: seq<PortCommand>, more: seq<PortCommand>, q: int)
    requires q in Replay(ports, log)
    ensures SeenDuring(ports, log + more, q)
  {
    SeenAtEnd(ports, log, q);
    StillSeen(ports, log, more, q);
  }

  lemma ScannedNext(start: set<int>, snapshot: set<int>, log: seq<PortCommand>, port: int)
    requires Scanned(start, snapshot, log, port) && SeenDuring(start, log, port)
    ensures Scanned(start, snapshot, log, port + 1)
  {
  }

  lemma PassedOver(start: set<int>, snapshot: set<int>, asked: seq<PortCommand>, port: int)
    requires Scanned(start, snapshot, asked, port) && port in Replay(start, asked)
    ensures Scanned(start, snapshot, asked + [Sadd(port)], port + 1)
  {
    StillScanned(start, snapshot, asked, [Sadd(port)], port);
    SeenBefore(start, asked, [Sadd(port)], port);
    ScannedNext(start, snapshot, asked + [Sadd(port)], port);
  }

  lemma ClaimMade(start: set<int>, asked: seq<PortCommand>, port: int)
    requires PORT_MIN <= port < PORT_MAX && AllSeenDuring(start, asked, port) && port !in Replay(start, asked)
    ensures Claims(start, asked + [Sadd(port)], port)
  {
    var log := asked + [Sadd(port)];
    assert log[..|log| - 1] == asked;
    LeastFreeIffNoneReleased(start, asked, port);
    NoReleaseInLog(asked);
  }

  /** A candidate that is asked for, after the others have run, is claimed or passed over. */
  lemma AsksFor(start: set<int>, snapshot: set<int>, log: seq<PortCommand>, first: seq<PortCommand>, port: int)
    requires PORT_MIN <= port < PORT_MAX && Scanned(start, snapshot, log, port)
    ensures var log' := log + (first + [Sadd(port)]);
            && Replay(start, log') == Replay(Replay(start, log), first + [Sadd(port)])
            && (if port in Replay(Replay(start, log), first) then Scanned(start, snapshot, log', port + 1)
                else Claims(start, log', port))
  {
    ReplaySplits(start, log, first);
    ReplaySplits(start, log, first + [Sadd(port)]);
    assert log + first + [Sadd(port)] == log + (first + [Sadd(port)]);
    StillScanned(start, snapshot, log, first, port);
    if port in Replay(start, log + first) {
      PassedOver(start, snapshot, log + first, port);
    } else {
      ClaimMade(start, log + first, port);
    }
  }

  class PortRegistry {
    var inUse: set<int>
    // Every command executed on the set so far, oldest first.
    ghost var log: seq<PortCommand>

    constructor ()
      ensures inUse == {} && log == []
    {
      inUse := {};
      log := [];
    }

    method SaddPort(port: int) returns (added: bool)
      modifies this
      ensures log == old(log) + [Sadd(port)]
      ensures added == (port !in old(inUse)) && inUse == old(inUse) + {port}
    {
      added := port !in inUse;
      inUse := inUse + {port};
      log := log + [Sadd(port)];
    }

    method ReleaseVncPort(port: int)
      modifies this
      ensures log == old(log) + [Srem(port)]
      ensures inUse == old(inUse) - {port}
    {
      inUse := inUse - {port};
      log := log + [Srem(port)];
    }

    /** Other clients' commands, run one after the other. */
    method Interfere(commands: seq<PortCommand>)
      modifies this
      ensures log == old(log) + commands
      ensures inUse == Replay(old(inUse), commands)
    {
      for i := 0 to |commands|
        invariant log == old(log) + commands[..i]
        invariant inUse == Replay(old(inUse), commands[..i])
      {
        inUse := Execute(inUse, commands[i]);
        log := log + [commands[i]];
        assert commands[..i + 1][..i] == commands[..i];
      }
      assert commands[..|commands|] == commands;
    }

    /** Asks for one candidate, after whatever the other clients do first. */
    method TryPort(port: int, first: seq<PortCommand>) returns (added: bool)
      modifies this
      ensures log == old(log) + (first + [Sadd(port)])
      ensures inUse == Replay(old(inUse), first + [Sadd(port)])
      ensures added == (port !in Replay(old(inUse), first))
    {
      Interfere(first);
      added := SaddPort(port);
      assert (first + [Sadd(port)])[..|first|] == first;
    }

    /** Reads the set once, then tries the candidates in increasing order with
        SADD; `None` is the exhausted range.  `mine` is the part of the log that falls
        within the call: whatever the other clients do, every port passed over was in
        use at some moment of it. */
    method AllocateVncPort(others: Interference) returns (result: Option<int>, ghost mine: seq<PortCommand>)
      modifies this
      ensures log == old(log) + mine && inUse == Replay(old(inUse), mine)
      ensures result.Some? ==> Claims(old(inUse), mine, result.value)
      ensures result.None? ==> Exhausts(old(inUse), mine)
      ensures result.Some? ==> 5900 <= result.value < 6900 && result.value in inUse
      ensures result.None? ==> forall q :: 5900 <= q < 6900 ==> SeenDuring(old(inUse), mine, q)
      ensures NoRelease(others) ==> AllClaims(mine)
      ensures Alone(others) ==> mine == if result.Some? then [Sadd(result.value)] else []
    {
      ghost var start := inUse;
      Interfere(others(0));
      mine := others(0);
      var snapshot := inUse;
      ScanBegins(start, mine);
      var commands: nat := 1;
      for port := PORT_MIN to PORT_MAX
        invariant log == old(log) + mine && inUse == Replay(start, mine)
        invariant Scanned(start, snapshot, mine, port)
        invariant NoRelease(others) ==> AllClaims(mine)
        invariant Alone(others) ==> mine == [] && snapshot == start
      {
        if port in snapshot {
          continue;
        }
        var first := others(commands);
        AsksFor(start, snapshot, mine, first, port);
        var added := TryPort(port, first);
        mine := mine + (first + [Sadd(port)]);
        if added {
          return Some(port), mine;
        }
        commands := commands + 1;
      }
      SeenAllExhausts(start, mine);
      result := None;
    }
  }

  /** The overlay directory: one copy-on-write file per session. */
  class OverlayDirectory {
    var files: set<OverlayPath>

    constructor ()
      ensures files == {}
    {
      files := {};
    }

    /** `qemu-img create`; `ok` is its exit status. */
    method CreateOverlay(session: SessionId, ok: bool) returns (path: Option<OverlayPath>)
      modifies this
      ensures ok ==> path == Some(Qcow2(session)) && files == old(files) + {Qcow2(session)}
      ensures !ok ==> path == None && files == old(files)
    {
      if !ok {
        return None;
      }
      files := files + {Qcow2(session)};
      path := Some(Qcow2(session));
    }

    /** A missing file is not an error. */
    method DestroyOverlay(path: OverlayPath)
      modifies this
      ensures files == old(files) - {path}
    {
      files := files - {path};
    }
  }
}
