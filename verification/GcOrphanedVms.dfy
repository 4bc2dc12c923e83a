/** The reconciliation pass: sessions that the database believes in but whose domain is
    gone or switched off are stopped. */
module GcOrphanedVms {
  import opened Types
  import opened VmLifecycle

  predicate Candidate(row: Row) {
    row.state.Running? || row.state.Stopping?
  }

  predicate Alive(domains: map<DomainName, DomainState>, name: DomainName) {
    name in domains && domains[name] != ShutOff
  }

  /** A candidate with a domain name whose domain is missing or switched off. */
  predicate Orphan(row: Row, domains: map<DomainName, DomainState>) {
    Candidate(row) && row.domain.Some? && !Alive(domains, row.domain.value)
  }

  /** One round of the loop; the flag is false when the stop raised. */
  function GcOne(s: Store, id: SessionId, now: int, fault: StopFault): (r: (Store, bool))
    requires id in s.rows
    ensures r.0.rows.Keys == s.rows.Keys
  {
    var row := s.rows[id];
    if row.domain.None? || Alive(s.domains, row.domain.value) then (s, true)
    else (StopSession(s, id, Error, now, fault), fault == NoFault)
  }

  /** A pass over these rows, abandoned at the first stop that raises. */
  function GcAll(s: Store, order: seq<SessionId>, now: int, faults: Faults): (r: (Store, bool))
    requires forall id :: id in order ==> id in s.rows
    ensures r.0.rows.Keys == s.rows.Keys
    decreases order
  {
    if order == [] then (s, true)
    else
      var (s1, ok) := GcOne(s, order[0], now, FaultFor(faults, order[0]));
      if ok then GcAll(s1, order[1..], now, faults) else (s1, false)
  }

  /** `order` is an answer to the query for the running and stopping rows. */
  ghost predicate Answers(order: seq<SessionId>, rows: map<SessionId, Row>) {
    Distinct(order) && forall id :: id in order <==> id in rows && Candidate(rows[id])
  }

  /** `ok` is false when a stop raised and the script was abandoned. */
  method CollectOrphans(lab: Lab, order: seq<SessionId>, now: int, faults: Faults) returns (ok: bool)
    requires Answers(order, lab.rows)
    modifies lab, lab.redis, lab.disk, lab.libvirt
    ensures lab.events == old(lab.events)
    ensures (lab.View(), ok) == GcAll(old(lab.View()), order, now, faults)
  {
    ghost var all := GcAll(lab.View(), order, now, faults);
    for i := 0 to |order|
      invariant lab.events == old(lab.events)
      invariant forall id :: id in order ==> id in lab.rows
      invariant GcAll(lab.View(), order[i..], now, faults) == all
    {
      var id := order[i];
      assert order[i..][1..] == order[i + 1..];
      var session := lab.rows[id];
      if session.domain.None? {
        continue;
      }
      var info := lab.libvirt.GetDomainInfo(session.domain.value);
      if info.None? || info.value == ShutOff {
        ok := lab.StopVm(id, Error, false, now, FaultFor(faults, id));
        if !ok {
          return;
        }
      }
    }
    ok := true;
  }

  // ---------- The per-row specification ----------

  function CollectedRows(s: Store, ids: set<SessionId>, now: int): map<SessionId, Row> {
    map id | id in s.rows ::
      if id in ids && Orphan(s.rows[id], s.domains) then StoppedRow(s.rows[id], Error, now) else s.rows[id]
  }

  /** The sessions among `ids` that are stopped. */
  function Orphans(s: Store, ids: set<SessionId>): set<SessionId> {
    set id | id in ids && id in s.rows && Orphan(s.rows[id], s.domains)
  }

  function OrphanPorts(s: Store, ids: set<SessionId>): set<int> {
    set id | id in Orphans(s, ids) && s.rows[id].port.Some? :: s.rows[id].port.value
  }

  function OrphanOverlays(s: Store, ids: set<SessionId>): set<OverlayPath> {
    set id | id in Orphans(s, ids) && s.rows[id].overlay.Some? :: s.rows[id].overlay.value
  }

  function OrphanDomains(s: Store, ids: set<SessionId>): set<DomainName> {
    set id | id in Orphans(s, ids) && s.rows[id].domain.Some? :: s.rows[id].domain.value
  }

  function CollectedStore(s: Store, ids: set<SessionId>, now: int): Store {
    Store(CollectedRows(s, ids, now),
          s.ports - OrphanPorts(s, ids),
          s.overlays - OrphanOverlays(s, ids),
          s.domains - OrphanDomains(s, ids))
  }

  lemma GcOneCollects(s: Store, id: SessionId, now: int)
    requires id in s.rows && Candidate(s.rows[id])
    ensures GcOne(s, id, now, NoFault) == (CollectedStore(s, {id}, now), true)
  {
    var (a, b, row) := (GcOne(s, id, now, NoFault).0, CollectedStore(s, {id}, now), s.rows[id]);
    var mine := if Orphan(row, s.domains) then {id} else {};
    assert Orphans(s, {id}) == mine;
    assert OrphanPorts(s, {id}) == if mine == {} then {} else Freed(row.port);
    assert OrphanOverlays(s, {id}) == if mine == {} then {} else Freed(row.overlay);
    assert OrphanDomains(s, {id}) == if mine == {} then {} else Freed(row.domain);
    assert a.rows == b.rows;
    assert a.ports == b.ports;
    assert a.overlays == b.overlays;
    assert a.domains == b.domains;
  }

  /** Removing dead domains leaves the same domains alive. */
  lemma SameAlive(s: Store, ids: set<SessionId>, now: int)
    ensures forall name :: Alive(CollectedStore(s, ids, now).domains, name) <==> Alive(s.domains, name)
  {
    forall name
      ensures Alive(CollectedStore(s, ids, now).domains, name) <==> Alive(s.domains, name)
    {
      if name in OrphanDomains(s, ids) {
        assert !Alive(s.domains, name);
      }
    }
  }

  /** Collecting one row leaves the others, and whether they are orphans, as they were. */
  lemma OrphansSplit(s: Store, id: SessionId, rest: set<SessionId>, now: int)
    requires id in s.rows && id !in rest
    ensures var s1 := CollectedStore(s, {id}, now);
            && s1.rows.Keys == s.rows.Keys
            && (forall x :: x in rest && x in s.rows ==> s1.rows[x] == s.rows[x])
            && Orphans(s1, rest) == Orphans(s, rest)
            && Orphans(s, {id} + rest) == Orphans(s, {id}) + Orphans(s, rest)
  {
    SameAlive(s, {id}, now);
  }

  lemma FreedSplit(s: Store, id: SessionId, rest: set<SessionId>, now: int)
    requires id in s.rows && id !in rest
    ensures var s1 := CollectedStore(s, {id}, now);
            && OrphanPorts(s, {id} + rest) == OrphanPorts(s, {id}) + OrphanPorts(s1, rest)
            && OrphanOverlays(s, {id} + rest) == OrphanOverlays(s, {id}) + OrphanOverlays(s1, rest)
            && OrphanDomains(s, {id} + rest) == OrphanDomains(s, {id}) + OrphanDomains(s1, rest)
  {
    OrphansSplit(s, id, rest, now);
    var s1 := CollectedStore(s, {id}, now);
    assert forall x :: x in Orphans(s, rest) ==> s1.rows[x] == s.rows[x];
    assert OrphanPorts(s1, rest) == OrphanPorts(s, rest);
    assert OrphanOverlays(s1, rest) == OrphanOverlays(s, rest);
    assert OrphanDomains(s1, rest) == OrphanDomains(s, rest);
  }

  lemma RowsSplit(s: Store, id: SessionId, rest: set<SessionId>, now: int)
    requires id in s.rows && id !in rest
    ensures CollectedRows(CollectedStore(s, {id}, now), rest, now) == CollectedRows(s, {id} + rest, now)
  {
    SameAlive(s, {id}, now);
  }

  lemma CollectedStoreSplits(s: Store, id: SessionId, rest: set<SessionId>, now: int)
    requires id in s.rows && id !in rest
    ensures CollectedStore(CollectedStore(s, {id}, now), rest, now) == CollectedStore(s, {id} + rest, now)
  {
    FreedSplit(s, id, rest, now);
    RowsSplit(s, id, rest, now);
    var (a, b) := (CollectedStore(CollectedStore(s, {id}, now), rest, now), CollectedStore(s, {id} + rest, now));
    assert a.ports == b.ports && a.overlays == b.overlays && a.domains == b.domains;
  }

  predicate AllCandidates(order: seq<SessionId>, rows: map<SessionId, Row>) {
    forall id :: id in order ==> id in rows && Candidate(rows[id])
  }

  /** One pass, in any order, stops exactly the rows that were orphans when it began. */
  lemma {:induction false} GcRefinesRows(s: Store, order: seq<SessionId>, now: int)
    requires Distinct(order) && AllCandidates(order, s.rows)
    ensures GcAll(s, order, now, map[]) == (CollectedStore(s, Ids(order), now), true)
    decreases order
  {
    if order == [] {
      NothingToCollect(s, Ids(order), now);
    } else {
      var (id, rest) := (order[0], order[1..]);
      GcOneCollects(s, id, now);
      var s1 := GcOne(s, id, now, NoFault).0;
      assert AllCandidates(rest, s1.rows) by {
        assert forall x :: x in rest ==> x != id;
      }
      GcRefinesRows(s1, rest, now);
      CollectedStoreSplits(s, id, Ids(rest), now);
      assert Ids(order) == {id} + Ids(rest);
    }
  }

  /** After a pass no named running or stopping row has a dead domain, rows whose domain
      is alive are untouched, and no other row has changed. */
  lemma GcLeavesNoOrphan(s: Store, order: seq<SessionId>, now: int)
    requires Answers(order, s.rows)
    ensures var (s', ok) := GcAll(s, order, now, map[]);
            && ok
            && (forall id :: id in s'.rows ==> !Orphan(s'.rows[id], s'.domains))
            && (forall id :: id in s.rows && !Orphan(s.rows[id], s.domains) ==> s'.rows[id] == s.rows[id])
            && (forall name :: Alive(s.domains, name) ==> name in s'.domains && s'.domains[name] == s.domains[name])
            && (forall id :: id in s.rows && Orphan(s.rows[id], s.domains) ==>
                  s'.rows[id].state == VMState.Stopped && s'.rows[id].stopReason == Some(Error))
  {
    GcRefinesRows(s, order, now);
    SameAlive(s, Ids(order), now);
    var s' := GcAll(s, order, now, map[]).0;
    forall id | id in s'.rows
      ensures !Orphan(s'.rows[id], s'.domains)
    {
      assert Orphan(s.rows[id], s.domains) ==> id in Ids(order);
    }
    forall name | Alive(s.domains, name)
      ensures name in s'.domains && s'.domains[name] == s.domains[name]
    {
      assert name !in OrphanDomains(s, Ids(order));
    }
  }

  /** The same, row by row: a pass stops, as an error, exactly the running and stopping rows
      that name a domain which is missing or switched off, and leaves every other row as it
      was. */
  lemma GcOutcomes(s: Store, order: seq<SessionId>, now: int)
    requires Answers(order, s.rows)
    ensures var s' := GcAll(s, order, now, map[]).0;
            && s'.rows.Keys == s.rows.Keys
            && (forall id :: id in s.rows ==>
                  var row := s.rows[id];
                  var dead := row.state in {Running, Stopping} && row.domain.Some?
                              && (row.domain.value in s.domains ==> s.domains[row.domain.value] == ShutOff);
                  s'.rows[id] ==
                  if dead then row.(state := VMState.Stopped, stoppedAt := Some(now), stopReason := Some(Error))
                  else row)
  {
    GcRefinesRows(s, order, now);
  }

  /** It frees exactly the ports, files and domains that the rows it stops name. */
  lemma GcFrees(s: Store, order: seq<SessionId>, now: int)
    requires Answers(order, s.rows)
    ensures var s' := GcAll(s, order, now, map[]).0;
            && (forall p :: p in s'.ports <==> p in s.ports && forall id ::
                  id in s.rows && s.rows[id].port == Some(p) ==> s'.rows[id] == s.rows[id])
            && (forall f :: f in s'.overlays <==> f in s.overlays && forall id ::
                  id in s.rows && s.rows[id].overlay == Some(f) ==> s'.rows[id] == s.rows[id])
            && (forall d :: d in s'.domains <==> d in s.domains && forall id ::
                  id in s.rows && s.rows[id].domain == Some(d) ==> s'.rows[id] == s.rows[id])
  {
    GcRefinesRows(s, order, now);
    FreesOrphans(s, Ids(order));
    var s' := GcAll(s, order, now, map[]).0;
    var gone := Orphans(s, Ids(order));
    assert forall id :: id in s.rows ==> (s'.rows[id] != s.rows[id] <==> id in gone);
  }

  lemma FreesOrphans(s: Store, ids: set<SessionId>)
    ensures forall p :: p in OrphanPorts(s, ids) <==> exists id :: id in Orphans(s, ids) && s.rows[id].port == Some(p)
    ensures forall f ::
      f in OrphanOverlays(s, ids) <==> exists id :: id in Orphans(s, ids) && s.rows[id].overlay == Some(f)
    ensures forall d ::
      d in OrphanDomains(s, ids) <==> exists id :: id in Orphans(s, ids) && s.rows[id].domain == Some(d)
  {
  }

  lemma NothingToCollect(s: Store, ids: set<SessionId>, now: int)
    requires Orphans(s, ids) == {}
    ensures CollectedStore(s, ids, now) == s
  {
    assert forall id :: id in ids && id in s.rows && Orphan(s.rows[id], s.domains) ==> id in Orphans(s, ids);
    var b := CollectedStore(s, ids, now);
    assert b.rows == s.rows;
    assert OrphanDomains(s, ids) == {} && b.domains == s.domains;
  }

  lemma NoOrphansNoChange(s: Store, order: seq<SessionId>, now: int)
    requires Answers(order, s.rows) && Orphans(s, Ids(order)) == {}
    ensures GcAll(s, order, now, map[]) == (s, true)
  {
    GcRefinesRows(s, order, now);
    NothingToCollect(s, Ids(order), now);
  }

  /** A second pass changes nothing. */
  lemma GcIsIdempotent(s: Store, order: seq<SessionId>, order': seq<SessionId>, now: int, later: int)
    requires Answers(order, s.rows) && Answers(order', GcAll(s, order, now, map[]).0.rows)
    ensures GcAll(GcAll(s, order, now, map[]).0, order', later, map[]) == GcAll(s, order, now, map[])
  {
    var (s', ok) := GcAll(s, order, now, map[]);
    assert ok && Orphans(s', Ids(order')) == {} by {
      GcLeavesNoOrphan(s, order, now);
    }
    NoOrphansNoChange(s', order', later);
  }

  // ---------- Passes in which stops raise ----------

  /** A round either does what it does without a fault, or stops an orphan and raises, which
      leaves the row `stopping`. */
  lemma RoundRaisesIff(s: Store, id: SessionId, now: int, fault: StopFault)
    requires id in s.rows && Candidate(s.rows[id])
    ensures var (s', ok) := GcOne(s, id, now, fault);
            && (ok <==> !(Orphan(s.rows[id], s.domains) && fault != NoFault))
            && (ok ==> s' == GcOne(s, id, now, NoFault).0)
            && (!ok ==> s'.rows == s.rows[id := s.rows[id].(state := Stopping)])
  {
  }

  /** The rows of the rest, and which of them are orphans, are as they were. */
  lemma RestIsLeft(s: Store, s1: Store, order: seq<SessionId>, now: int)
    requires Distinct(order) && AllCandidates(order, s.rows) && order != []
    requires s1 == CollectedStore(s, {order[0]}, now)
    ensures Distinct(order[1..]) && AllCandidates(order[1..], s1.rows)
    ensures forall x :: x in order[1..] ==> s1.rows[x] == s.rows[x]
    ensures forall x :: x in order[1..] ==> (Orphan(s1.rows[x], s1.domains) <==> Orphan(s.rows[x], s.domains))
  {
    assert order[0] !in order[1..];
    SameAlive(s, {order[0]}, now);
  }

  ghost predicate Raises(s: Store, id: SessionId, faults: Faults) {
    id in s.rows && Orphan(s.rows[id], s.domains) && FaultFor(faults, id) != NoFault
  }

  /** The script gets to its end exactly when no stop of an orphan raises, and then it has done
      what it does without faults. */
  lemma {:induction false} PassEndsIff(s: Store, order: seq<SessionId>, now: int, faults: Faults)
    requires Distinct(order) && AllCandidates(order, s.rows)
    ensures var (s', ok) := GcAll(s, order, now, faults);
            && (ok <==> forall id :: id in order ==> !Raises(s, id, faults))
            && (ok ==> s' == GcAll(s, order, now, map[]).0)
    decreases order
  {
    if order == [] {
    } else {
      var (id, rest) := (order[0], order[1..]);
      RoundRaisesIff(s, id, now, FaultFor(faults, id));
      var (s1, ok) := GcOne(s, id, now, FaultFor(faults, id));
      if ok {
        GcOneCollects(s, id, now);
        RestIsLeft(s, s1, order, now);
        PassEndsIff(s1, rest, now, faults);
        assert forall x :: x in rest ==> (Raises(s1, x, faults) <==> Raises(s, x, faults));
        assert forall x :: x in order <==> x == id || x in rest;
      } else {
        assert Raises(s, id, faults);
      }
    }
  }

  /** Otherwise it ends at the first one that raises, and does not touch the rows after it. */
  lemma {:induction false} PassEndsAtRaise(s: Store, order: seq<SessionId>, now: int, faults: Faults) returns (k: nat)
    requires Distinct(order) && AllCandidates(order, s.rows) && !GcAll(s, order, now, faults).1
    ensures k < |order| && Raises(s, order[k], faults) && forall i :: 0 <= i < k ==> !Raises(s, order[i], faults)
    ensures var s' := GcAll(s, order, now, faults).0;
            && s'.rows[order[k]] == s.rows[order[k]].(state := Stopping)
            && forall i :: k < i < |order| ==> s'.rows[order[i]] == s.rows[order[i]]
    decreases order
  {
    var (id, rest) := (order[0], order[1..]);
    RoundRaisesIff(s, id, now, FaultFor(faults, id));
    var (s1, ok) := GcOne(s, id, now, FaultFor(faults, id));
    k := 0;
    if ok {
      GcOneCollects(s, id, now);
      RestIsLeft(s, s1, order, now);
      var later := PassEndsAtRaise(s1, rest, now, faults);
      k := later + 1;
    }
  }

  /** What a pass that may have been abandoned leaves of a row: as it was; or, of an orphan
      only, stopped, or marked `stopping` by the stop that raised. */
  predicate RowPartly(row: Row, row': Row, orphan: bool, now: int) {
    row' == row || (orphan && (row' == StoppedRow(row, Error, now) || row' == row.(state := Stopping)))
  }

  /** The pass has finished with this orphan. */
  predicate Done(s: Store, s': Store, id: SessionId)
    requires id in s.rows && id in s'.rows
  {
    Orphan(s.rows[id], s.domains) && !Candidate(s'.rows[id])
  }

  /** At most the resources of orphans are gone. */
  ghost predicate TakesFromOrphans(s: Store, s': Store) {
    && s.ports - OrphanPorts(s, s.rows.Keys) <= s'.ports <= s.ports
    && s.overlays - OrphanOverlays(s, s.rows.Keys) <= s'.overlays <= s.overlays
    && s.domains.Keys - OrphanDomains(s, s.rows.Keys) <= s'.domains.Keys <= s.domains.Keys
    && (forall d :: d in s'.domains ==> s'.domains[d] == s.domains[d])
  }

  ghost predicate RowsPartly(s: Store, s': Store, now: int) {
    && s'.rows.Keys == s.rows.Keys
    && (forall id :: id in s.rows ==> RowPartly(s.rows[id], s'.rows[id], Orphan(s.rows[id], s.domains), now))
  }

  /** From `s`, some orphans have been stopped and at most the resources of orphans are
      gone; those of a stopped orphan all are. */
  ghost predicate Partly(s: Store, s': Store, now: int) {
    && RowsPartly(s, s', now) && TakesFromOrphans(s, s')
    && (forall id :: id in s.rows && Done(s, s', id) ==> NothingLeft(s', s.rows[id]))
  }

  predicate NothingLeft(s: Store, row: Row) {
    && (row.port.Some? ==> row.port.value !in s.ports)
    && (row.overlay.Some? ==> row.overlay.value !in s.overlays)
    && (row.domain.Some? ==> row.domain.value !in s.domains)
  }

  lemma OrphanResources(s: Store, id: SessionId)
    requires id in s.rows && Orphan(s.rows[id], s.domains)
    ensures s.rows[id].port.Some? ==> s.rows[id].port.value in OrphanPorts(s, s.rows.Keys)
    ensures s.rows[id].overlay.Some? ==> s.rows[id].overlay.value in OrphanOverlays(s, s.rows.Keys)
    ensures s.rows[id].domain.value in OrphanDomains(s, s.rows.Keys)
  {
    assert id in Orphans(s, s.rows.Keys);
  }

  /** Domains that are alive are never touched. */
  lemma PartlySameAlive(s: Store, s': Store, now: int)
    requires Partly(s, s', now)
    ensures forall name :: Alive(s'.domains, name) <==> Alive(s.domains, name)
  {
  }

  /** What a stop of an orphan takes away, however far it gets. */
  ghost predicate Takes(s: Store, s': Store, row: Row) {
    && s.ports - Freed(row.port) <= s'.ports <= s.ports
    && s.overlays - Freed(row.overlay) <= s'.overlays <= s.overlays
    && s.domains.Keys - Freed(row.domain) <= s'.domains.Keys <= s.domains.Keys
    && (forall d :: d in s'.domains ==> s'.domains[d] == s.domains[d])
  }

  lemma StopTakes(s: Store, id: SessionId, now: int, fault: StopFault)
    requires id in s.rows && Orphan(s.rows[id], s.domains)
    ensures var (row, s') := (s.rows[id], StopSession(s, id, Error, now, fault));
            && Takes(s, s', row)
            && s'.rows == s.rows[id := if fault == NoFault then StoppedRow(row, Error, now)
                                 else row.(state := Stopping)]
            && (fault == NoFault ==> NothingLeft(s', row))
  {
  }

  lemma TakesStayPartly(s0: Store, s: Store, s': Store, id: SessionId)
    requires id in s0.rows && Orphan(s0.rows[id], s0.domains)
    requires TakesFromOrphans(s0, s) && Takes(s, s', s0.rows[id])
    ensures TakesFromOrphans(s0, s')
  {
    OrphanResources(s0, id);
  }

  lemma DoneStaysDone(s0: Store, s: Store, s': Store, id: SessionId, row': Row, now: int)
    requires Partly(s0, s, now) && id in s.rows && s.rows[id] == s0.rows[id] && Takes(s, s', s0.rows[id])
    requires s'.rows == s.rows[id := row'] && (Candidate(row') || NothingLeft(s', s0.rows[id]))
    ensures forall x :: x in s0.rows && Done(s0, s', x) ==> NothingLeft(s', s0.rows[x])
  {
    forall x | x in s0.rows && Done(s0, s', x)
      ensures NothingLeft(s', s0.rows[x])
    {
      if x != id {
        assert s'.rows[x] == s.rows[x] && Done(s0, s, x);
        assert NothingLeft(s, s0.rows[x]);
      }
    }
  }

  lemma RowStaysPartly(s0: Store, s: Store, s': Store, id: SessionId, now: int, fault: StopFault)
    requires RowsPartly(s0, s, now) && id in s.rows && s.rows[id] == s0.rows[id] && Orphan(s0.rows[id], s0.domains)
    requires var row := s.rows[id];
             s'.rows == s.rows[id := if fault == NoFault then StoppedRow(row, Error, now) else row.(state := Stopping)]
    ensures RowsPartly(s0, s', now)
  {
  }

  lemma GcOnePartly(s0: Store, s: Store, id: SessionId, now: int, fault: StopFault)
    requires Partly(s0, s, now) && id in s.rows && s.rows[id] == s0.rows[id] && Candidate(s.rows[id])
    ensures Partly(s0, GcOne(s, id, now, fault).0, now)
    ensures forall x :: x in s.rows && x != id ==> GcOne(s, id, now, fault).0.rows[x] == s.rows[x]
  {
    PartlySameAlive(s0, s, now);
    if Orphan(s.rows[id], s.domains) {
      var s' := GcOne(s, id, now, fault).0;
      StopTakes(s, id, now, fault);
      TakesStayPartly(s0, s, s', id);
      DoneStaysDone(s0, s, s', id, s'.rows[id], now);
      RowStaysPartly(s0, s, s', id, now, fault);
    }
  }

  lemma {:induction false} GcAllPartly(s0: Store, s: Store, order: seq<SessionId>, now: int, faults: Faults)
    requires Partly(s0, s, now) && Distinct(order)
    requires forall x :: x in order ==> x in s.rows && s.rows[x] == s0.rows[x] && Candidate(s.rows[x])
    ensures Partly(s0, GcAll(s, order, now, faults).0, now)
    decreases order
  {
    if order == [] {
    } else {
      GcOnePartly(s0, s, order[0], now, FaultFor(faults, order[0]));
      assert forall x :: x in order[1..] ==> x != order[0];
      GcAllPartly(s0, GcOne(s, order[0], now, FaultFor(faults, order[0])).0, order[1..], now, faults);
    }
  }

  lemma PartlyFromStart(s: Store, now: int)
    ensures Partly(s, s, now)
  {
  }

  /** The row whose stop raised is still an orphan, marked `stopping`. */
  ghost predicate LeftStopping(s: Store, order: seq<SessionId>) {
    exists id :: id in order && id in s.rows && s.rows[id].state.Stopping? && Orphan(s.rows[id], s.domains)
  }

  lemma {:induction false} RaiseLeavesStopping(s: Store, order: seq<SessionId>, now: int, faults: Faults)
    requires forall id :: id in order ==> id in s.rows
    ensures var (s', ok) := GcAll(s, order, now, faults);
            !ok ==> LeftStopping(s', order)
    decreases order
  {
    if order == [] {
    } else {
      var (s1, ok1) := GcOne(s, order[0], now, FaultFor(faults, order[0]));
      if ok1 {
        RaiseLeavesStopping(s1, order[1..], now, faults);
        assert LeftStopping(GcAll(s, order, now, faults).0, order[1..]) ==>
          LeftStopping(GcAll(s, order, now, faults).0, order);
      } else {
        assert order[0] in order && s1.rows[order[0]].state.Stopping?;
      }
    }
  }

  /** Whatever stops raise: no row whose domain is alive, and no such domain, is touched;
      and a pass that is abandoned leaves a row that the next pass meets again. */
  lemma RaisingPassIsSafe(s: Store, order: seq<SessionId>, now: int, faults: Faults)
    requires Answers(order, s.rows)
    ensures var (s', ok) := GcAll(s, order, now, faults);
            && (forall id :: id in s.rows && !Orphan(s.rows[id], s.domains) ==> s'.rows[id] == s.rows[id])
            && (forall name :: Alive(s.domains, name) ==> name in s'.domains && s'.domains[name] == s.domains[name])
            && (!ok ==> LeftStopping(s', order))
  {
    PartlyFromStart(s, now);
    GcAllPartly(s, s, order, now, faults);
    PartlySameAlive(s, GcAll(s, order, now, faults).0, now);
    RaiseLeavesStopping(s, order, now, faults);
  }

  /** The orphans a pass has not finished with are the orphans of the next one. */
  lemma OrphansRemain(s: Store, s1: Store, order: seq<SessionId>, order': seq<SessionId>, now: int)
    requires Partly(s, s1, now) && Answers(order, s.rows) && Answers(order', s1.rows)
    ensures forall id :: id in Orphans(s1, Ids(order')) <==> id in Orphans(s, Ids(order)) && !Done(s, s1, id)
    ensures Orphans(s, s.rows.Keys) == Orphans(s, Ids(order))
    ensures forall id :: id in s.rows ==>
      s1.rows[id].port == s.rows[id].port && s1.rows[id].overlay == s.rows[id].overlay
        && s1.rows[id].domain == s.rows[id].domain
  {
    PartlySameAlive(s, s1, now);
  }

  lemma RetryFreesTheSame(s: Store, s1: Store, order: seq<SessionId>, order': seq<SessionId>, now: int)
    requires Partly(s, s1, now) && Answers(order, s.rows) && Answers(order', s1.rows)
    ensures s1.ports - OrphanPorts(s1, Ids(order')) == s.ports - OrphanPorts(s, Ids(order))
    ensures s1.overlays - OrphanOverlays(s1, Ids(order')) == s.overlays - OrphanOverlays(s, Ids(order))
    ensures s1.domains - OrphanDomains(s1, Ids(order')) == s.domains - OrphanDomains(s, Ids(order))
  {
    OrphansRemain(s, s1, order, order', now);
    var (ids, ids') := (Ids(order), Ids(order'));
    forall id | id in Orphans(s, ids)
      ensures s.rows[id].port.Some? ==>
              s.rows[id].port.value !in s1.ports || s.rows[id].port.value in OrphanPorts(s1, ids')
      ensures s.rows[id].overlay.Some? ==>
              s.rows[id].overlay.value !in s1.overlays || s.rows[id].overlay.value in OrphanOverlays(s1, ids')
      ensures s.rows[id].domain.value !in s1.domains || s.rows[id].domain.value in OrphanDomains(s1, ids')
    {
      assert Done(s, s1, id) || id in Orphans(s1, ids');
    }
    assert OrphanPorts(s1, ids') <= OrphanPorts(s, ids);
    assert OrphanOverlays(s1, ids') <= OrphanOverlays(s, ids);
    assert OrphanDomains(s1, ids') <= OrphanDomains(s, ids);
  }

  /** An abandoned pass is made good by the next one: a pass in which nothing raises leaves
      the ports, files and domains that one such pass at the beginning would have left, and
      the same rows, up to the time at which they were stopped. */
  lemma RetryCompletes(s: Store, order: seq<SessionId>, now: int, faults: Faults, order': seq<SessionId>, later: int)
    requires Answers(order, s.rows) && Answers(order', GcAll(s, order, now, faults).0.rows)
    ensures var clean := GcAll(s, order, now, map[]).0;
            var (end, ok) := GcAll(GcAll(s, order, now, faults).0, order', later, map[]);
            && ok
            && end.ports == clean.ports && end.overlays == clean.overlays && end.domains == clean.domains
            && end.rows.Keys == clean.rows.Keys
            && (forall id :: id in clean.rows ==>
                  end.rows[id].(stoppedAt := clean.rows[id].stoppedAt) == clean.rows[id])
  {
    var s1 := GcAll(s, order, now, faults).0;
    PartlyFromStart(s, now);
    GcAllPartly(s, s, order, now, faults);
    GcRefinesRows(s, order, now);
    GcRefinesRows(s1, order', later);
    RetryFreesTheSame(s, s1, order, order', now);
    RetryRows(s, s1, order, order', now, later);
  }

  lemma RetryRows(s: Store, s1: Store, order: seq<SessionId>, order': seq<SessionId>, now: int, later: int)
    requires Partly(s, s1, now) && Answers(order, s.rows) && Answers(order', s1.rows)
    ensures var (clean, end) := (CollectedRows(s, Ids(order), now), CollectedRows(s1, Ids(order'), later));
            && end.Keys == clean.Keys
            && (forall id :: id in clean ==> end[id].(stoppedAt := clean[id].stoppedAt) == clean[id])
  {
    OrphansRemain(s, s1, order, order', now);
    var (clean, end) := (CollectedRows(s, Ids(order), now), CollectedRows(s1, Ids(order'), later));
    forall id | id in clean
      ensures end[id].(stoppedAt := clean[id].stoppedAt) == clean[id]
    {
      assert id in Orphans(s1, Ids(order')) <==> id in Ids(order') && Orphan(s1.rows[id], s1.domains);
      assert RowPartly(s.rows[id], s1.rows[id], Orphan(s.rows[id], s.domains), now);
    }
  }
}
